/**
 * scripts/clean_transcripts.py: clean_text, a fixed chain of five stages,
 * and the per-segment rewrite that clean_transcript_files applies to each
 * transcript file.
 */
module CleanTranscripts {
  import opened Wrappers
  import opened Text
  import opened Regex

  /** The characters the third stage keeps: the complement of the class
      [^a-zA-Z0-9\s.,!?'"-]. */
  predicate KeptChar(c: char) {
    ('a' <= c <= 'z') || ('A' <= c <= 'Z') || ('0' <= c <= '9') || IsSpace(c)
    || c == '.' || c == ',' || c == '!' || c == '?' || c == '\'' || c == '"' || c == '-'
  }

  /** The characters clean_text may output. */
  predicate OutputChar(c: char) {
    ('a' <= c <= 'z') || ('0' <= c <= '9') || c == ' '
    || c == '.' || c == ',' || c == '!' || c == '?' || c == '\'' || c == '"' || c == '-'
  }

  /** Stage 3: every character outside the kept class is deleted. */
  function KeepChars(s: string): string {
    if |s| == 0 then ""
    else if KeptChar(s[0]) then [s[0]] + KeepChars(s[1..])
    else KeepChars(s[1..])
  }

  /** Stage 4: str.lower(). Stage 3 leaves only ASCII letters, digits,
      whitespace and ASCII punctuation, on which lower() changes exactly the
      letters A-Z. */
  function LowerChar(c: char): char {
    if 'A' <= c <= 'Z' then (c as int + 32) as char else c
  }

  function Lower(s: string): string {
    seq(|s|, k requires 0 <= k < |s| => LowerChar(s[k]))
  }

  /** Stage 5: ' '.join(text.split()). */
  function Normalize(s: string): string {
    Join(Words(s), " ")
  }

  /** clean_text: fillers, stutter, character filter, lowercase, whitespace,
      in this order. */
  function CleanText(s: string): string {
    Normalize(Lower(KeepChars(Sub(Stutter, Sub(Fillers, s)))))
  }

  /** The last three stages, which act character by character and on words. */
  function CleanTail(s: string): string {
    Normalize(Lower(KeepChars(s)))
  }

  /** Whitespace is a single ' ' between two non-whitespace characters. */
  ghost predicate SingleSpaced(r: string) {
    forall k :: 0 <= k < |r| && IsSpace(r[k]) ==>
      r[k] == ' ' && 0 < k < |r| - 1 && !IsSpace(r[k - 1]) && !IsSpace(r[k + 1])
  }

  /** The filter keeps exactly the characters of the class, in order. */
  lemma {:induction false} KeepCharsKeeps(s: string)
    ensures forall c :: c in KeepChars(s) ==> KeptChar(c) && c in s
    ensures (forall c :: c in s ==> KeptChar(c)) ==> KeepChars(s) == s
    decreases |s|
  {
    if |s| > 0 {
      KeepCharsKeeps(s[1..]);
      assert s == [s[0]] + s[1..];
    }
  }

  /** Lowercasing the filtered text leaves lowercase letters, digits,
      whitespace and the kept punctuation. */
  lemma LowerOfKept(s: string)
    requires forall c :: c in s ==> KeptChar(c)
    ensures forall c :: c in Lower(s) ==> OutputChar(c) || IsSpace(c)
  {
    forall c | c in Lower(s) ensures OutputChar(c) || IsSpace(c) {
      var k :| 0 <= k < |s| && Lower(s)[k] == c;
      assert s[k] in s;
    }
  }

  /** Joining words with " " gives a single-spaced string whose other
      characters come from the words. */
  lemma {:induction false} JoinSingleSpaced(ws: seq<string>)
    requires forall w :: w in ws ==> IsWord(w)
    ensures SingleSpaced(Join(ws, " "))
    ensures forall c :: c in Join(ws, " ") ==> c == ' ' || exists w :: w in ws && c in w
    ensures |ws| > 0 ==> |Join(ws, " ")| > 0
    decreases |ws|
  {
    if |ws| == 1 {
      assert ws[0] in ws;
    } else if |ws| > 1 {
      var w, rest := ws[0], Join(ws[1..], " ");
      assert w in ws;
      assert forall v :: v in ws[1..] ==> v in ws;
      JoinSingleSpaced(ws[1..]);
      var r := Join(ws, " ");
      assert r == w + " " + rest;
      assert forall j :: 0 <= j < |w| ==> r[j] == w[j] && !IsSpace(r[j]);
      forall k | 0 <= k < |r| && IsSpace(r[k])
        ensures r[k] == ' ' && 0 < k < |r| - 1 && !IsSpace(r[k - 1]) && !IsSpace(r[k + 1])
      {
        if k > |w| {
          assert r[k] == rest[k - |w| - 1];
        } else if k == |w| {
          assert r[k - 1] == w[|w| - 1];
          assert r[k + 1] == rest[0];
        }
      }
      forall c | c in r ensures c == ' ' || exists v :: v in ws && c in v {
        var k :| 0 <= k < |r| && r[k] == c;
        if k < |w| {
          assert c in w;
        } else if k > |w| {
          assert c == rest[k - |w| - 1];
        }
      }
    }
  }

  /** Normalising whitespace keeps the words, removes all other whitespace
      but single spaces between words, and adds no character. */
  lemma NormalizeShape(s: string)
    ensures Words(Normalize(s)) == Words(s)
    ensures SingleSpaced(Normalize(s))
    ensures forall c :: c in Normalize(s) ==> c == ' ' || (c in s && !IsSpace(c))
  {
    WordsAreWords(s);
    WordsOfJoin(Words(s));
    JoinSingleSpaced(Words(s));
    forall c | c in Normalize(s) && c != ' ' ensures c in s && !IsSpace(c) {
      var w :| w in Words(s) && c in w;
      var k :| 0 <= k < |w| && w[k] == c;
    }
  }

  /** The output of clean_text holds only lowercase ASCII letters, digits,
      single spaces and . , ! ? ' " -, with no whitespace at either end and
      no two spaces in a row. */
  lemma CleanTailShape(s: string)
    ensures SingleSpaced(CleanTail(s))
    ensures forall c :: c in CleanTail(s) ==> OutputChar(c)
  {
    var f := KeepChars(s);
    KeepCharsKeeps(s);
    LowerOfKept(f);
    NormalizeShape(Lower(f));
  }

  lemma CleanTextShape(s: string)
    ensures SingleSpaced(CleanText(s))
    ensures forall c :: c in CleanText(s) ==> OutputChar(c)
    ensures |CleanText(s)| > 0 ==> CleanText(s)[0] != ' ' && CleanText(s)[|CleanText(s)| - 1] != ' '
  {
    CleanTailShape(Sub(Stutter, Sub(Fillers, s)));
  }

  /** Running the last three stages again changes nothing. */
  lemma CleanTailIdempotent(s: string)
    ensures CleanTail(CleanTail(s)) == CleanTail(s)
  {
    var r := CleanTail(s);
    CleanTailShape(s);
    assert forall c :: c in r ==> KeptChar(c);
    KeepCharsKeeps(r);
    forall k | 0 <= k < |r| ensures LowerChar(r[k]) == r[k] {
      assert r[k] in r;
    }
    assert Lower(r) == r;
    var f := KeepChars(s);
    KeepCharsKeeps(s);
    LowerOfKept(f);
    WordsAreWords(Lower(f));
    WordsOfJoin(Words(Lower(f)));
  }

  /** A transcript segment as json.load returns it: the text field may be
      absent; the other fields are carried along untouched. */
  datatype SegmentRecord = SegmentRecord(text: Option<string>, start: real, end: real)

  /** What the per-segment loop does to one segment. */
  function CleanSegment(seg: SegmentRecord): SegmentRecord {
    if seg.text.Some? then seg.(text := Some(CleanText(seg.text.value))) else seg
  }

  /** The loop of clean_transcript_files over one loaded transcript: only the
      text of segments that have one is rewritten. */
  method CleanSegments(transcript: array<SegmentRecord>)
    modifies transcript
    ensures forall k :: 0 <= k < transcript.Length ==>
      transcript[k] == CleanSegment(old(transcript[k]))
  {
    ghost var original := transcript[..];
    var i := 0;
    while i < transcript.Length
      invariant 0 <= i <= transcript.Length
      invariant forall k :: 0 <= k < i ==> transcript[k] == CleanSegment(original[k])
      invariant forall k :: i <= k < transcript.Length ==> transcript[k] == original[k]
    {
      var segment := transcript[i];
      if segment.text.Some? {
        transcript[i] := CleanSegment(segment);
      }
      i := i + 1;
    }
  }

  /** A directory entry: its name and, when it loads as a transcript, its
      segments. */
  datatype TranscriptFile = TranscriptFile(name: string, content: Option<seq<SegmentRecord>>)

  const TranscriptSuffix := "_transcript.json"

  /** A file the loop picks up and manages to load. */
  predicate Processed(f: TranscriptFile) {
    EndsWith(f.name, TranscriptSuffix) && f.content.Some?
  }

  /** A transcript with every segment cleaned. */
  function CleanTranscript(segments: seq<SegmentRecord>): (r: seq<SegmentRecord>)
    ensures |r| == |segments|
    ensures forall j :: 0 <= j < |r| ==> r[j] == CleanSegment(segments[j])
  {
    seq(|segments|, j requires 0 <= j < |segments| => CleanSegment(segments[j]))
  }

  /** What clean_transcript_files does to one directory entry. */
  function CleanFile(f: TranscriptFile): TranscriptFile {
    if Processed(f) then f.(content := Some(CleanTranscript(f.content.value))) else f
  }

  function CountProcessed(files: seq<TranscriptFile>): nat {
    if |files| == 0 then 0
    else CountProcessed(files[..|files| - 1]) + (if Processed(files[|files| - 1]) then 1 else 0)
  }

  /** clean_transcript_files over the listed files: every loadable transcript
      file has its segments cleaned, everything else is left as it was, and
      processed_count counts the cleaned files. */
  method CleanTranscriptFiles(files: seq<TranscriptFile>) returns (result: seq<TranscriptFile>, processedCount: nat)
    ensures |result| == |files|
    ensures forall k :: 0 <= k < |files| ==> result[k] == CleanFile(files[k])
    ensures processedCount == CountProcessed(files)
  {
    result := [];
    processedCount := 0;
    var i := 0;
    while i < |files|
      invariant 0 <= i <= |files| && |result| == i
      invariant forall k :: 0 <= k < i ==> result[k] == CleanFile(files[k])
      invariant processedCount == CountProcessed(files[..i])
    {
      var file := files[i];
      assert files[..i + 1][..i] == files[..i];
      if Processed(file) {
        var transcript := new SegmentRecord[|file.content.value|](j requires 0 <= j < |file.content.value| => file.content.value[j]);
        CleanSegments(transcript);
        assert transcript[..] == CleanTranscript(file.content.value);
        result := result + [TranscriptFile(file.name, Some(transcript[..]))];
        processedCount := processedCount + 1;
      } else {
        result := result + [file];
      }
      i := i + 1;
    }
    assert files[..i] == files;
  }
}
