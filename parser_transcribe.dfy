/**
 * data_pipelines/parser_transcribe.py: the bookkeeping of ParserTranscribe
 * around the downloads and the transcriptions. The video-info JSON file is
 * an object whose list of records the methods update; yt-dlp, ffmpeg, the
 * directory listing and the Whisper API are inputs.
 */
module ParserTranscribe {
  import opened Wrappers
  import opened Text

  /** What _get_video_info returns; yt-dlp may leave title and description
      out. */
  datatype VideoInfo = VideoInfo(url: string, title: Option<string>, description: Option<string>, audioPath: string)

  /** One record of the video-info file: every field is a list. */
  datatype VideoRecord = VideoRecord(
    url: seq<string>,
    title: seq<Option<string>>,
    description: seq<Option<string>>,
    audioPath: seq<string>,
    text: seq<Option<string>>)

  datatype PipelineError =
    | EmptyUrlList(index: nat)              // itm["url"][0] on an empty list
    | EmptyAudioPathList(index: nat)        // item["audio_path"][0] on an empty list
    | TranscriptionTimedOut(segment: string) // the last attempt re-raised APITimeoutError

  /** The record built from the video info: one element in each list, no
      text yet. */
  function NewRecord(info: VideoInfo): VideoRecord {
    VideoRecord([info.url], [info.title], [info.description], [info.audioPath], [])
  }

  /** The two list fields whose first element the scans compare. */
  datatype Field = Url | AudioPath

  function Key(rec: VideoRecord, field: Field): seq<string> {
    match field
    case Url => rec.url
    case AudioPath => rec.audioPath
  }

  /** The record has the key, or has an empty list where the scan reads
      its first element. */
  predicate Stops(rec: VideoRecord, field: Field, key: string) {
    |Key(rec, field)| == 0 || Key(rec, field)[0] == key
  }

  /** The first record from position `from` on at which a scan for key
      stops. */
  function FirstStop(records: seq<VideoRecord>, field: Field, key: string, from: nat): (r: Option<nat>)
    requires from <= |records|
    ensures r.Some? ==> from <= r.value < |records| && Stops(records[r.value], field, key)
    ensures forall k :: from <= k < |records| && (r.None? || k < r.value) ==> !Stops(records[k], field, key)
    decreases |records| - from
  {
    if from == |records| then None
    else if Stops(records[from], field, key) then Some(from)
    else FirstStop(records, field, key, from + 1)
  }

  /** exist_url after the loop of lines 93-96: true when the url is new. The
      `and` stops reading records at the first duplicate, so an empty url
      list only raises when it comes before every duplicate. */
  function UrlIsNew(records: seq<VideoRecord>, url: string): (r: Result<bool, PipelineError>)
  {
    match FirstStop(records, Url, url, 0)
    case None => Ok(true)
    case Some(k) => if |records[k].url| == 0 then Err(EmptyUrlList(k)) else Ok(false)
  }

  /** On records that all have a url, the scan answers whether none of them
      has this url first; an error names the empty list read first. */
  lemma UrlIsNewIff(records: seq<VideoRecord>, url: string)
    ensures (forall k :: 0 <= k < |records| ==> |records[k].url| > 0) ==> UrlIsNew(records, url).Ok?
    ensures UrlIsNew(records, url) == Ok(true) <==>
      forall k :: 0 <= k < |records| ==> |records[k].url| > 0 && records[k].url[0] != url
    ensures UrlIsNew(records, url) == Ok(false) ==> exists k :: 0 <= k < |records| && |records[k].url| > 0 && records[k].url[0] == url
    ensures UrlIsNew(records, url).Err? ==>
      var k := UrlIsNew(records, url).error.index;
      && UrlIsNew(records, url).error.EmptyUrlList?
      && k < |records| && |records[k].url| == 0
      && forall j :: 0 <= j < k ==> |records[j].url| > 0 && records[j].url[0] != url
  {
  }

  /** The loop of lines 93-96 as written, `and` stopping at the first
      duplicate. */
  method ScanForUrl(records: seq<VideoRecord>, url: string) returns (r: Result<bool, PipelineError>)
    ensures r == UrlIsNew(records, url)
  {
    var existUrl := true;
    var i := 0;
    while i < |records|
      invariant 0 <= i <= |records|
      invariant existUrl ==> forall k :: 0 <= k < i ==> !Stops(records[k], Url, url)
      invariant !existUrl ==> UrlIsNew(records, url) == Ok(false)
    {
      if existUrl {
        if |records[i].url| == 0 {
          return Err(EmptyUrlList(i));
        }
        existUrl := records[i].url[0] != url;
      }
      i := i + 1;
    }
    return Ok(existUrl);
  }

  /** The records after _download_channel_audio_track: the new record is
      appended when its url is new. */
  function AddVideo(records: seq<VideoRecord>, info: VideoInfo): Result<seq<VideoRecord>, PipelineError> {
    match UrlIsNew(records, info.url)
    case Err(e) => Err(e)
    case Ok(isNew) => Ok(if isNew then records + [NewRecord(info)] else records)
  }

  /** Existing records are never changed, the list grows by at most one,
      and it grows exactly when no record has the url; the appended record
      holds the info's fields as one-element lists and an empty text list. */
  lemma AddVideoAppends(records: seq<VideoRecord>, info: VideoInfo)
    requires AddVideo(records, info).Ok?
    ensures var r := AddVideo(records, info).value;
      && |records| <= |r| <= |records| + 1
      && r[..|records|] == records
      && (|r| == |records| + 1 <==> forall k :: 0 <= k < |records| ==> |records[k].url| > 0 && records[k].url[0] != info.url)
      && (|r| == |records| + 1 ==>
            r[|records|].url == [info.url] && r[|records|].title == [info.title]
            && r[|records|].description == [info.description]
            && r[|records|].audioPath == [info.audioPath] && r[|records|].text == [])
  {
    UrlIsNewIff(records, info.url);
    assert (records + [NewRecord(info)])[..|records|] == records;
  }

  /** Where the basename starts: just after the last '/', or at 0. */
  function BaseStart(path: string): (i: nat)
    ensures i <= |path|
    ensures forall j :: i <= j < |path| ==> path[j] != '/'
    ensures i > 0 ==> path[i - 1] == '/'
  {
    if |path| == 0 || path[|path| - 1] == '/' then |path|
    else BaseStart(path[..|path| - 1])
  }

  /** os.path.basename: the part after the last '/'. */
  function Basename(path: string): (r: string)
    ensures '/' !in r && EndsWith(path, r)
    ensures |r| < |path| ==> path[|path| - |r| - 1] == '/'
  {
    path[BaseStart(path)..]
  }

  /** The extensions _get_transcribe accepts. */
  predicate Supported(name: string) {
    EndsWith(name, ".mp3") || EndsWith(name, ".wav") || EndsWith(name, ".m4a")
  }

  /** file_name[:-4]: the name without its extension. */
  function Stem(name: string): string
    requires Supported(name)
  {
    name[..|name| - 4]
  }

  /** os.path.join of a directory and a relative name. */
  function PathJoin(dir: string, name: string): string {
    if |name| > 0 && name[0] == '/' then name
    else if |dir| == 0 || dir[|dir| - 1] == '/' then dir + name
    else dir + "/" + name
  }

  const SegmentSuffix: string := "_segment%03d.mp3"

  /** The output pattern given to ffmpeg. */
  function OutputPattern(dir: string, name: string): (r: string)
    requires Supported(name) && '/' !in name
    ensures Basename(r) == Stem(name) + SegmentSuffix
  {
    var base := Stem(name) + SegmentSuffix;
    assert forall j :: 0 <= j < |Stem(name)| ==> Stem(name)[j] == name[j] && name[j] in name;
    assert forall j :: 0 <= j < |SegmentSuffix| ==> SegmentSuffix[j] != '/';
    assert forall j :: 0 <= j < |base| ==> base[j] != '/';
    BasenameOfJoin(dir, base);
    PathJoin(dir, base)
  }

  /** A name after a '/' (or at the start) is its own basename. */
  lemma BasenameAfterSlash(pre: string, name: string)
    requires '/' !in name
    requires |pre| == 0 || pre[|pre| - 1] == '/'
    ensures Basename(pre + name) == name
  {
    BaseStartAfterSlash(pre, name);
    assert (pre + name)[|pre|..] == name;
  }

  lemma {:induction false} BaseStartAfterSlash(pre: string, name: string)
    requires '/' !in name
    requires |pre| == 0 || pre[|pre| - 1] == '/'
    ensures BaseStart(pre + name) == |pre|
    decreases |name|
  {
    var p := pre + name;
    if |name| == 0 {
      assert p == pre;
    } else {
      var c := name[|name| - 1];
      assert c in name;
      assert p[|p| - 1] == c;
      assert p[..|p| - 1] == pre + name[..|name| - 1];
      assert forall x :: x in name[..|name| - 1] ==> x in name;
      BaseStartAfterSlash(pre, name[..|name| - 1]);
    }
  }

  lemma BasenameOfJoin(dir: string, name: string)
    requires '/' !in name
    ensures Basename(PathJoin(dir, name)) == name
  {
    if |dir| == 0 || dir[|dir| - 1] == '/' {
      BasenameAfterSlash(dir, name);
    } else {
      assert dir + "/" + name == (dir + "/") + name;
      BasenameAfterSlash(dir + "/", name);
    }
  }

  // ---------------------------------------------------------------------
  // sorted(...) over the names from the directory listing

  /** Python's order on str: code point by code point, a prefix first. */
  predicate LexLe(a: string, b: string)
    decreases |a|
  {
    |a| == 0 || (|b| > 0 && (a[0] < b[0] || (a[0] == b[0] && LexLe(a[1..], b[1..]))))
  }

  lemma {:induction false} LexLeTotal(a: string, b: string)
    ensures LexLe(a, b) || LexLe(b, a)
    decreases |a|
  {
    if |a| > 0 && |b| > 0 && a[0] == b[0] {
      LexLeTotal(a[1..], b[1..]);
    }
  }

  lemma {:induction false} LexLeTrans(a: string, b: string, c: string)
    requires LexLe(a, b) && LexLe(b, c)
    ensures LexLe(a, c)
    decreases |a|
  {
    if |a| > 0 && a[0] == b[0] && b[0] == c[0] {
      LexLeTrans(a[1..], b[1..], c[1..]);
    }
  }

  lemma {:induction false} LexLeAntisymmetric(a: string, b: string)
    requires LexLe(a, b) && LexLe(b, a)
    ensures a == b
    decreases |a|
  {
    if |a| > 0 {
      LexLeAntisymmetric(a[1..], b[1..]);
      assert a == [a[0]] + a[1..] && b == [b[0]] + b[1..];
    }
  }

  ghost predicate SortedLex(xs: seq<string>) {
    forall p, q :: 0 <= p < q < |xs| ==> LexLe(xs[p], xs[q])
  }

  function InsertLex(x: string, xs: seq<string>): seq<string> {
    if |xs| == 0 || LexLe(x, xs[0]) then [x] + xs
    else [xs[0]] + InsertLex(x, xs[1..])
  }

  function SortLex(xs: seq<string>): seq<string> {
    if |xs| == 0 then [] else InsertLex(xs[0], SortLex(xs[1..]))
  }

  lemma {:induction false} InsertLexMembers(x: string, xs: seq<string>)
    ensures multiset(InsertLex(x, xs)) == multiset(xs) + multiset{x}
    ensures forall e :: e in InsertLex(x, xs) <==> e == x || e in xs
    decreases |xs|
  {
    if |xs| > 0 && !LexLe(x, xs[0]) {
      InsertLexMembers(x, xs[1..]);
      assert xs == [xs[0]] + xs[1..];
    }
  }

  lemma {:induction false} InsertLexSorted(x: string, xs: seq<string>)
    requires SortedLex(xs)
    ensures SortedLex(InsertLex(x, xs))
    decreases |xs|
  {
    if |xs| == 0 {
    } else if LexLe(x, xs[0]) {
      forall q | 0 < q < |xs| ensures LexLe(x, xs[q]) {
        LexLeTrans(x, xs[0], xs[q]);
      }
    } else {
      LexLeTotal(x, xs[0]);
      InsertLexSorted(x, xs[1..]);
      InsertLexMembers(x, xs[1..]);
      var r := InsertLex(x, xs[1..]);
      assert forall e :: e in r ==> LexLe(xs[0], e) by {
        forall e | e in r ensures LexLe(xs[0], e) {
          if e != x {
            var p :| 0 <= p < |xs[1..]| && xs[1..][p] == e;
            assert xs[p + 1] == e;
          }
        }
      }
      assert forall q :: 0 <= q < |r| ==> r[q] in r;
    }
  }

  /** sorted() gives the same names, each as often, in Python's order. */
  lemma {:induction false} SortLexShape(xs: seq<string>)
    ensures SortedLex(SortLex(xs))
    ensures multiset(SortLex(xs)) == multiset(xs)
    decreases |xs|
  {
    if |xs| > 0 {
      SortLexShape(xs[1..]);
      InsertLexMembers(xs[0], SortLex(xs[1..]));
      InsertLexSorted(xs[0], SortLex(xs[1..]));
      assert xs == [xs[0]] + xs[1..];
    }
  }

  /** Two sorted arrangements of the same names start with the same name. */
  lemma SortedLexSameHead(xs: seq<string>, ys: seq<string>)
    requires SortedLex(xs) && SortedLex(ys) && multiset(xs) == multiset(ys) && |xs| > 0
    ensures |ys| > 0 && xs[0] == ys[0]
  {
    assert xs[0] in multiset(ys);
    assert ys[0] in multiset(xs);
    var p :| 0 <= p < |ys| && ys[p] == xs[0];
    var q :| 0 <= q < |xs| && xs[q] == ys[0];
    if p > 0 && q > 0 {
      LexLeAntisymmetric(xs[0], ys[0]);
    }
  }

  /** Two sorted arrangements of the same names are the same list, so the
      order is fixed by the names alone. */
  lemma {:induction false} SortedLexUnique(xs: seq<string>, ys: seq<string>)
    requires SortedLex(xs) && SortedLex(ys) && multiset(xs) == multiset(ys)
    ensures xs == ys
    decreases |xs|
  {
    if |xs| > 0 {
      SortedLexSameHead(xs, ys);
      assert xs == [xs[0]] + xs[1..] && ys == [ys[0]] + ys[1..];
      assert multiset(xs[1..]) == multiset(xs) - multiset{xs[0]};
      assert multiset(ys[1..]) == multiset(ys) - multiset{ys[0]};
      SortedLexUnique(xs[1..], ys[1..]);
    } else {
      assert |ys| == |multiset(ys)|;
    }
  }

  /** The names of the listing that start with prefix, in listing order. */
  function FilterPrefix(listing: seq<string>, prefix: string): seq<string> {
    if |listing| == 0 then []
    else FilterPrefix(listing[..|listing| - 1], prefix)
         + (if StartsWith(listing[|listing| - 1], prefix) then [listing[|listing| - 1]] else [])
  }

  lemma {:induction false} FilterPrefixMembers(listing: seq<string>, prefix: string)
    ensures forall f :: f in FilterPrefix(listing, prefix) <==> f in listing && StartsWith(f, prefix)
    ensures forall f :: StartsWith(f, prefix) ==> multiset(FilterPrefix(listing, prefix))[f] == multiset(listing)[f]
    decreases |listing|
  {
    if |listing| > 0 {
      var init := listing[..|listing| - 1];
      FilterPrefixMembers(init, prefix);
      assert listing == init + [listing[|listing| - 1]];
    }
  }

  /** The segment files of line 189: the names with the segment prefix, in
      sorted order. */
  function SegmentFiles(listing: seq<string>, name: string): seq<string>
    requires Supported(name)
  {
    SortLex(FilterPrefix(listing, Stem(name) + "_segment"))
  }

  /** The segment files are sorted and are exactly the listed names that
      start with the stem and "_segment"; this fixes the list. */
  lemma SegmentFilesShape(listing: seq<string>, name: string)
    requires Supported(name)
    ensures SortedLex(SegmentFiles(listing, name))
    ensures forall f :: f in SegmentFiles(listing, name) <==> f in listing && StartsWith(f, Stem(name) + "_segment")
    ensures forall xs :: SortedLex(xs) && multiset(xs) == multiset(FilterPrefix(listing, Stem(name) + "_segment")) ==>
      xs == SegmentFiles(listing, name)
  {
    var fs := FilterPrefix(listing, Stem(name) + "_segment");
    SortLexShape(fs);
    FilterPrefixMembers(listing, Stem(name) + "_segment");
    forall xs | SortedLex(xs) && multiset(xs) == multiset(fs) ensures xs == SegmentFiles(listing, name) {
      SortedLexUnique(xs, SortLex(fs));
    }
    forall f ensures f in SegmentFiles(listing, name) <==> f in fs {
      assert f in SortLex(fs) <==> f in multiset(SortLex(fs));
    }
  }

  // ---------------------------------------------------------------------
  // _transcribe_with_whisper

  /** The Whisper call for a segment at an attempt: the transcript, or None
      where it raises APITimeoutError. */
  type Whisper = (string, nat) -> Option<string>

  /** What the retry loop ends with. */
  datatype RetryOutcome =
    | Transcribed(text: string)
    | NoAttempts     // max_attempts <= 0: the loop does not run and None is returned
    | TimedOut       // the last attempt failed and the error is re-raised

  /** The first successful attempt from `from` below n. */
  function FirstSuccess(segment: string, whisper: Whisper, n: nat, from: nat): (r: Option<nat>)
    requires from <= n
    ensures r.Some? ==> from <= r.value < n && whisper(segment, r.value).Some?
    ensures forall k :: from <= k < n && (r.None? || k < r.value) ==> whisper(segment, k).None?
    decreases n - from
  {
    if from == n then None
    else if whisper(segment, from).Some? then Some(from)
    else FirstSuccess(segment, whisper, n, from + 1)
  }

  function Retry(segment: string, whisper: Whisper, maxAttempts: int): RetryOutcome {
    if maxAttempts <= 0 then NoAttempts
    else match FirstSuccess(segment, whisper, maxAttempts, 0)
      case Some(k) => Transcribed(whisper(segment, k).value)
      case None => TimedOut
  }

  /** The number of calls the loop makes. */
  function Calls(segment: string, whisper: Whisper, maxAttempts: int): nat {
    if maxAttempts <= 0 then 0
    else match FirstSuccess(segment, whisper, maxAttempts, 0)
      case Some(k) => k + 1
      case None => maxAttempts
  }

  /** The loop returns the first transcript within max_attempts calls; it
      times out only when every one of max_attempts calls fails. */
  lemma RetryIsFirstSuccess(segment: string, whisper: Whisper, maxAttempts: int)
    ensures Calls(segment, whisper, maxAttempts) <= if maxAttempts <= 0 then 0 else maxAttempts
    ensures Retry(segment, whisper, maxAttempts).Transcribed? ==>
      var k := Calls(segment, whisper, maxAttempts) - 1;
      && k >= 0
      && whisper(segment, k) == Some(Retry(segment, whisper, maxAttempts).text)
      && forall j :: 0 <= j < k ==> whisper(segment, j).None?
    ensures Retry(segment, whisper, maxAttempts) == TimedOut <==>
      maxAttempts > 0 && forall j :: 0 <= j < maxAttempts ==> whisper(segment, j).None?
  {
    if maxAttempts > 0 {
      var s := FirstSuccess(segment, whisper, maxAttempts, 0);
      if s.Some? {
        assert !(forall j :: 0 <= j < maxAttempts ==> whisper(segment, j).None?) by {
          assert whisper(segment, s.value).Some?;
        }
      }
    }
  }

  /** _transcribe_with_whisper: calls counts the API calls, sleeps the waits
      of `delay` seconds, one after each failure but the last. */
  method TranscribeWithWhisper(segment: string, whisper: Whisper, maxAttempts: int)
    returns (r: RetryOutcome, calls: nat, sleeps: nat)
    ensures r == Retry(segment, whisper, maxAttempts)
    ensures calls == Calls(segment, whisper, maxAttempts)
    ensures sleeps == if calls == 0 then 0 else calls - 1
  {
    calls, sleeps := 0, 0;
    var attempt := 0;
    while attempt < maxAttempts
      invariant 0 <= attempt && (maxAttempts > 0 ==> attempt < maxAttempts) && (maxAttempts <= 0 ==> attempt == 0)
      invariant calls == attempt && sleeps == attempt
      invariant forall k :: 0 <= k < attempt ==> whisper(segment, k).None?
      invariant maxAttempts > 0 ==> FirstSuccess(segment, whisper, maxAttempts, 0) == FirstSuccess(segment, whisper, maxAttempts, attempt)
    {
      calls := calls + 1;
      var transcript := whisper(segment, attempt);
      if transcript.Some? {
        return Transcribed(transcript.value), calls, sleeps;
      }
      if attempt < maxAttempts - 1 {
        sleeps := sleeps + 1;
      } else {
        return TimedOut, calls, sleeps;
      }
      attempt := attempt + 1;
    }
    return NoAttempts, calls, sleeps;
  }

  /** What the loop of lines 191-195 appends for one segment. */
  function TextOf(outcome: RetryOutcome): Option<string> {
    if outcome.Transcribed? then Some(outcome.text) else None
  }

  /** The first segment from `from` on whose transcription times out. */
  function FirstTimeout(segments: seq<string>, whisper: Whisper, maxAttempts: int, from: nat): (r: Option<nat>)
    requires from <= |segments|
    ensures r.Some? ==> from <= r.value < |segments| && Retry(segments[r.value], whisper, maxAttempts) == TimedOut
    ensures forall k :: from <= k < |segments| && (r.None? || k < r.value) ==> Retry(segments[k], whisper, maxAttempts) != TimedOut
    decreases |segments| - from
  {
    if from == |segments| then None
    else if Retry(segments[from], whisper, maxAttempts) == TimedOut then Some(from)
    else FirstTimeout(segments, whisper, maxAttempts, from + 1)
  }

  /** The loop of lines 191-195: each segment in turn is transcribed; the
      first timeout ends _get_transcribe with the error. */
  method TranscribeSegments(segments: seq<string>, whisper: Whisper, maxAttempts: int)
    returns (r: Result<seq<Option<string>>, PipelineError>)
    ensures r.Ok? <==> FirstTimeout(segments, whisper, maxAttempts, 0).None?
    ensures r.Ok? ==> r.value == TranscribeAll(segments, whisper, maxAttempts)
    ensures r.Err? ==> r.error == TranscriptionTimedOut(segments[FirstTimeout(segments, whisper, maxAttempts, 0).value])
  {
    var transcriptions: seq<Option<string>> := [];
    var i := 0;
    while i < |segments|
      invariant 0 <= i <= |segments| && |transcriptions| == i
      invariant FirstTimeout(segments, whisper, maxAttempts, 0) == FirstTimeout(segments, whisper, maxAttempts, i)
      invariant forall k :: 0 <= k < i ==> transcriptions[k] == TextOf(Retry(segments[k], whisper, maxAttempts))
    {
      var outcome, _, _ := TranscribeWithWhisper(segments[i], whisper, maxAttempts);
      if outcome.TimedOut? {
        return Err(TranscriptionTimedOut(segments[i]));
      }
      transcriptions := transcriptions + [TextOf(outcome)];
      i := i + 1;
    }
    return Ok(transcriptions);
  }

  /** The transcriptions of a segment list: all of them, or the first
      timeout. */
  lemma TranscribeAllOrTimeout(segments: seq<string>, whisper: Whisper, maxAttempts: int)
    ensures FirstTimeout(segments, whisper, maxAttempts, 0).None? <==>
      forall k :: 0 <= k < |segments| ==> Retry(segments[k], whisper, maxAttempts) != TimedOut
    ensures FirstTimeout(segments, whisper, maxAttempts, 0).None? ==>
      forall k :: 0 <= k < |segments| ==> (TranscribeAll(segments, whisper, maxAttempts)[k] != None <==> maxAttempts > 0)
  {
    forall k | 0 <= k < |segments| && FirstTimeout(segments, whisper, maxAttempts, 0).None?
      ensures TranscribeAll(segments, whisper, maxAttempts)[k] != None <==> maxAttempts > 0
    {
      RetryIsFirstSuccess(segments[k], whisper, maxAttempts);
    }
  }

  /** The records after the loop of lines 202-205: the first record whose
      audio path is the given one gets the transcriptions as its text. */
  function UpdateText(records: seq<VideoRecord>, audioPath: string, text: seq<Option<string>>): Result<seq<VideoRecord>, PipelineError> {
    match FirstStop(records, AudioPath, audioPath, 0)
    case None => Ok(records)
    case Some(k) =>
      if |records[k].audioPath| == 0 then Err(EmptyAudioPathList(k))
      else Ok(records[k := records[k].(text := text)])
  }

  /** Only the first record with the audio path changes, and only its text;
      with no such record nothing changes. */
  lemma UpdateTextOnlyFirst(records: seq<VideoRecord>, audioPath: string, text: seq<Option<string>>)
    requires forall k :: 0 <= k < |records| ==> |records[k].audioPath| > 0
    ensures UpdateText(records, audioPath, text).Ok?
    ensures var r := UpdateText(records, audioPath, text).value;
      && |r| == |records|
      && ((forall k :: 0 <= k < |records| ==> records[k].audioPath[0] != audioPath) ==> r == records)
    ensures var r := UpdateText(records, audioPath, text).value;
      forall k :: 0 <= k < |records| && records[k].audioPath[0] == audioPath
                  && (forall j :: 0 <= j < k ==> records[j].audioPath[0] != audioPath) ==>
        && r[k] == records[k].(text := text)
        && forall j :: 0 <= j < |records| && j != k ==> r[j] == records[j]
  {
    var s := FirstStop(records, AudioPath, audioPath, 0);
    forall k | 0 <= k < |records| && records[k].audioPath[0] == audioPath
               && (forall j :: 0 <= j < k ==> records[j].audioPath[0] != audioPath)
      ensures s == Some(k)
    {
      assert Stops(records[k], AudioPath, audioPath);
    }
  }

  /** Appending a record whose audio path is `audioPath` and then updating
      the text for that path gives the text to the first record with the path:
      the appended one when no earlier record has it, otherwise the earlier one,
      and then the appended record is kept as it was. */
  lemma AppendThenUpdate(records: seq<VideoRecord>, rec: VideoRecord, audioPath: string, text: seq<Option<string>>)
    requires forall k :: 0 <= k < |records| ==> |records[k].audioPath| > 0
    requires |rec.audioPath| > 0 && rec.audioPath[0] == audioPath
    ensures UpdateText(records + [rec], audioPath, text).Ok?
    ensures var r := UpdateText(records + [rec], audioPath, text).value;
      && |r| == |records| + 1
      && (forall k :: 0 <= k < |records| && records[k].audioPath[0] != audioPath ==> r[k] == records[k])
      && (forall k :: 0 <= k <= |records| ==> r[k].url == (records + [rec])[k].url)
    ensures (forall k :: 0 <= k < |records| ==> records[k].audioPath[0] != audioPath) ==>
      UpdateText(records + [rec], audioPath, text).value == records + [rec.(text := text)]
    ensures var r := UpdateText(records + [rec], audioPath, text).value;
      forall k :: 0 <= k < |records| && records[k].audioPath[0] == audioPath
                  && (forall j :: 0 <= j < k ==> records[j].audioPath[0] != audioPath) ==>
        r[k] == records[k].(text := text) && r[|records|] == rec
  {
    var added := records + [rec];
    assert forall k :: 0 <= k < |added| ==> |added[k].audioPath| > 0;
    UpdateTextOnlyFirst(added, audioPath, text);
    var r := UpdateText(added, audioPath, text).value;
    if forall k :: 0 <= k < |records| ==> records[k].audioPath[0] != audioPath {
      assert forall j :: 0 <= j < |records| ==> added[j].audioPath[0] != audioPath;
      assert r[|records|] == rec.(text := text);
      assert forall j :: 0 <= j < |records| ==> r[j] == records[j];
      assert r == records + [rec.(text := text)];
    }
    match FirstStop(added, AudioPath, audioPath, 0)
    case None =>
    case Some(m) =>
      assert r == added[m := added[m].(text := text)];
  }

  /** The texts of all segments, in order. */
  function TranscribeAll(segments: seq<string>, whisper: Whisper, maxAttempts: int): (r: seq<Option<string>>)
    ensures |r| == |segments|
    ensures forall k :: 0 <= k < |segments| ==> r[k] == TextOf(Retry(segments[k], whisper, maxAttempts))
  {
    seq(|segments|, k requires 0 <= k < |segments| => TextOf(Retry(segments[k], whisper, maxAttempts)))
  }

  /** The records after _get_transcribe: listing is the directory after
      ffmpeg has split the audio. An unsupported name changes nothing. */
  function Transcribe(records: seq<VideoRecord>, audioPath: string, listing: seq<string>,
                      whisper: Whisper, maxAttempts: int): Result<seq<VideoRecord>, PipelineError>
  {
    var fileName := Basename(audioPath);
    if !Supported(fileName) then Ok(records)
    else
      var segments := SegmentFiles(listing, fileName);
      match FirstTimeout(segments, whisper, maxAttempts, 0)
      case Some(k) => Err(TranscriptionTimedOut(segments[k]))
      case None => UpdateText(records, audioPath, TranscribeAll(segments, whisper, maxAttempts))
  }

  /** The file after get_transcribe_video, and the error it raised, if any.
      The download step writes the file before the transcription starts, so
      a failed transcription leaves the appended record in place. */
  datatype Processed = Processed(records: seq<VideoRecord>, error: Option<PipelineError>)

  function ProcessVideo(records: seq<VideoRecord>, info: VideoInfo, listing: seq<string>,
                        whisper: Whisper, maxAttempts: int): Processed
  {
    match AddVideo(records, info)
    case Err(e) => Processed(records, Some(e))
    case Ok(added) =>
      match Transcribe(added, info.audioPath, listing, whisper, maxAttempts)
      case Err(e) => Processed(added, Some(e))
      case Ok(updated) => Processed(updated, None)
  }

  /** From before to after no record's url changed, and every record added
      has a single url, one of reported. */
  predicate KeepsUrls(before: seq<VideoRecord>, after: seq<VideoRecord>, reported: seq<string>) {
    && |before| <= |after|
    && (forall k :: 0 <= k < |before| ==> after[k].url == before[k].url)
    && (forall k :: |before| <= k < |after| ==> |after[k].url| == 1 && after[k].url[0] in reported)
  }

  /** Whatever happens to a video, successful or not, no existing record's
      url changes and at most the video's own record is added. */
  lemma ProcessVideoKeepsUrls(records: seq<VideoRecord>, info: VideoInfo, listing: seq<string>,
                              whisper: Whisper, maxAttempts: int)
    ensures var p := ProcessVideo(records, info, listing, whisper, maxAttempts);
      && |p.records| <= |records| + 1
      && KeepsUrls(records, p.records, [info.url])
  {
    match AddVideo(records, info)
    case Err(_) =>
    case Ok(added) =>
      AddVideoAppends(records, info);
      assert forall k :: 0 <= k < |records| ==> added[k] == records[k] by {
        assert added[..|records|] == records;
      }
      match Transcribe(added, info.audioPath, listing, whisper, maxAttempts)
      case Err(_) =>
      case Ok(updated) =>
        UpdateKeepsUrls(added, info.audioPath, listing, whisper, maxAttempts);
        assert KeepsUrls(added, updated, []);
  }

  /** The transcription step only ever changes a text list. */
  lemma UpdateKeepsUrls(records: seq<VideoRecord>, audioPath: string, listing: seq<string>,
                        whisper: Whisper, maxAttempts: int)
    requires Transcribe(records, audioPath, listing, whisper, maxAttempts).Ok?
    ensures var r := Transcribe(records, audioPath, listing, whisper, maxAttempts).value;
      |r| == |records| && forall k :: 0 <= k < |records| ==> r[k].url == records[k].url
  {
    var fileName := Basename(audioPath);
    if Supported(fileName) {
      var segments := SegmentFiles(listing, fileName);
      var text := TranscribeAll(segments, whisper, maxAttempts);
      assert FirstTimeout(segments, whisper, maxAttempts, 0).None?;
      assert Transcribe(records, audioPath, listing, whisper, maxAttempts) == UpdateText(records, audioPath, text);
      UpdateTextKeepsUrls(records, audioPath, text);
    }
  }

  /** The first-match update changes a text list and nothing else. */
  lemma UpdateTextKeepsUrls(records: seq<VideoRecord>, audioPath: string, text: seq<Option<string>>)
    requires UpdateText(records, audioPath, text).Ok?
    ensures var r := UpdateText(records, audioPath, text).value;
      |r| == |records| && forall k :: 0 <= k < |records| ==> r[k].url == records[k].url
  {
    match FirstStop(records, AudioPath, audioPath, 0)
    case None =>
    case Some(m) =>
      assert UpdateText(records, audioPath, text).value == records[m := records[m].(text := text)];
  }

  /** The transcriptions _get_transcribe computes for an audio path. */
  function SegmentTexts(audioPath: string, listing: seq<string>, whisper: Whisper, maxAttempts: int): seq<Option<string>>
    requires Supported(Basename(audioPath))
  {
    TranscribeAll(SegmentFiles(listing, Basename(audioPath)), whisper, maxAttempts)
  }

  /** A new video that transcribes without a timeout ends with the records
      of the append step followed by the first-match update. */
  lemma ProcessVideoUpdate(records: seq<VideoRecord>, info: VideoInfo, listing: seq<string>,
                           whisper: Whisper, maxAttempts: int)
    requires forall k :: 0 <= k < |records| ==> |records[k].url| > 0
    requires forall k :: 0 <= k < |records| ==> records[k].url[0] != info.url
    requires Supported(Basename(info.audioPath))
    requires FirstTimeout(SegmentFiles(listing, Basename(info.audioPath)), whisper, maxAttempts, 0).None?
    ensures var p := ProcessVideo(records, info, listing, whisper, maxAttempts);
      var u := UpdateText(records + [NewRecord(info)], info.audioPath, SegmentTexts(info.audioPath, listing, whisper, maxAttempts));
      && (u.Ok? ==> p == Processed(u.value, None))
      && (u.Err? ==> p == Processed(records + [NewRecord(info)], Some(u.error)))
  {
    UrlIsNewIff(records, info.url);
    assert AddVideo(records, info) == Ok(records + [NewRecord(info)]);
  }

  /** A new video that transcribes without a timeout, over records that all
      have their lists, is appended and its transcriptions go to the first
      record with its audio path. When no earlier record has that path, it is
      the appended record. When one has (the same video under another form
      of its url, since yt-dlp names the audio after the video id), that
      earlier record gets the text and the appended one keeps an empty text
      list. */
  lemma ProcessVideoRecords(records: seq<VideoRecord>, info: VideoInfo, listing: seq<string>,
                            whisper: Whisper, maxAttempts: int)
    requires forall k :: 0 <= k < |records| ==> |records[k].url| > 0 && |records[k].audioPath| > 0
    requires forall k :: 0 <= k < |records| ==> records[k].url[0] != info.url
    requires Supported(Basename(info.audioPath))
    requires FirstTimeout(SegmentFiles(listing, Basename(info.audioPath)), whisper, maxAttempts, 0).None?
    ensures var p := ProcessVideo(records, info, listing, whisper, maxAttempts);
      && p.error.None?
      && |p.records| == |records| + 1
      && (forall k :: 0 <= k < |records| && records[k].audioPath[0] != info.audioPath ==> p.records[k] == records[k])
      && (forall k :: 0 <= k < |records| ==> p.records[k].url == records[k].url)
      && p.records[|records|].url == [info.url]
    ensures var p := ProcessVideo(records, info, listing, whisper, maxAttempts);
      (forall k :: 0 <= k < |records| ==> records[k].audioPath[0] != info.audioPath) ==>
        p.records == records + [NewRecord(info).(text := SegmentTexts(info.audioPath, listing, whisper, maxAttempts))]
    ensures var p := ProcessVideo(records, info, listing, whisper, maxAttempts);
      forall k :: 0 <= k < |records| && records[k].audioPath[0] == info.audioPath
                  && (forall j :: 0 <= j < k ==> records[j].audioPath[0] != info.audioPath) ==>
        && p.records[k] == records[k].(text := SegmentTexts(info.audioPath, listing, whisper, maxAttempts))
        && p.records[|records|] == NewRecord(info)
  {
    ProcessVideoUpdate(records, info, listing, whisper, maxAttempts);
    AppendThenUpdate(records, NewRecord(info), info.audioPath, SegmentTexts(info.audioPath, listing, whisper, maxAttempts));
  }


  /** The outcome of _get_transcribe. */
  datatype TranscribeOutcome = UnsupportedFormat | Failed(error: PipelineError) | Updated

  /** The video-info JSON file. A missing file reads as the empty list. */
  class VideoInfoFile {
    var records: seq<VideoRecord>

    constructor (records: seq<VideoRecord>)
      ensures this.records == records
    {
      this.records := records;
    }

    /** _download_channel_audio_track after the download: the new record is
        appended when its url is new, and the returned path is the info's
        audio path whether or not it was. */
    method DownloadAudioTrack(info: VideoInfo) returns (r: Result<string, PipelineError>)
      modifies this
      ensures r.Ok? == AddVideo(old(records), info).Ok?
      ensures r.Ok? ==> r.value == info.audioPath && records == AddVideo(old(records), info).value
      ensures r.Err? ==> r.error == AddVideo(old(records), info).error && records == old(records)
    {
      var item := NewRecord(info);
      var existUrl := ScanForUrl(records, item.url[0]);
      if existUrl.Err? {
        return Err(existUrl.error);
      }
      if existUrl.value {
        records := records + [item];
      }
      return Ok(item.audioPath[0]);
    }

    /** The loop of lines 202-205, stopping at the first match. */
    method SetText(audioPath: string, text: seq<Option<string>>) returns (r: Result<(), PipelineError>)
      modifies this
      ensures r.Ok? == UpdateText(old(records), audioPath, text).Ok?
      ensures r.Ok? ==> records == UpdateText(old(records), audioPath, text).value
      ensures r.Err? ==> r.error == UpdateText(old(records), audioPath, text).error && records == old(records)
    {
      var i := 0;
      while i < |records|
        invariant 0 <= i <= |records| && records == old(records)
        invariant forall k :: 0 <= k < i ==> !Stops(records[k], AudioPath, audioPath)
        invariant FirstStop(records, AudioPath, audioPath, 0) == FirstStop(records, AudioPath, audioPath, i)
      {
        var item := records[i];
        if |item.audioPath| == 0 {
          return Err(EmptyAudioPathList(i));
        }
        if item.audioPath[0] == audioPath {
          records := records[i := item.(text := text)];
          return Ok(());
        }
        i := i + 1;
      }
      return Ok(());
    }

    /** _get_transcribe: listing is the directory after ffmpeg has split
        the audio. Unsupported names change nothing; otherwise the segment
        files are transcribed in sorted order and the first record with the
        audio path gets the transcriptions. */
    method GetTranscribe(audioPath: string, listing: seq<string>, whisper: Whisper, maxAttempts: int)
      returns (r: TranscribeOutcome)
      modifies this
      ensures r == UnsupportedFormat <==> !Supported(Basename(audioPath))
      ensures r.Failed? <==> Transcribe(old(records), audioPath, listing, whisper, maxAttempts).Err?
      ensures r.Failed? ==>
        r.error == Transcribe(old(records), audioPath, listing, whisper, maxAttempts).error && records == old(records)
      ensures !r.Failed? ==> records == Transcribe(old(records), audioPath, listing, whisper, maxAttempts).value
    {
      var fileName := Basename(audioPath);
      if !Supported(fileName) {
        return UnsupportedFormat;
      }
      var segmentFiles := SortLex(FilterPrefix(listing, Stem(fileName) + "_segment"));
      var transcriptions := TranscribeSegments(segmentFiles, whisper, maxAttempts);
      if transcriptions.Err? {
        return Failed(transcriptions.error);
      }
      var updated := SetText(audioPath, transcriptions.value);
      if updated.Err? {
        return Failed(updated.error);
      }
      return Updated;
    }

    /** get_transcribe_video: download is yt-dlp's info for the url and
        listing the directory listing for an audio path. */
    method GetTranscribeVideo(url: string, download: string -> VideoInfo, listing: string -> seq<string>,
                              whisper: Whisper, maxAttempts: int)
      returns (error: Option<PipelineError>)
      modifies this
      ensures var info := download(url);
        && records == ProcessVideo(old(records), info, listing(info.audioPath), whisper, maxAttempts).records
        && error == ProcessVideo(old(records), info, listing(info.audioPath), whisper, maxAttempts).error
    {
      var info := download(url);
      var audioPath := DownloadAudioTrack(info);
      if audioPath.Err? {
        return Some(audioPath.error);
      }
      var outcome := GetTranscribe(audioPath.value, listing(audioPath.value), whisper, maxAttempts);
      if outcome.Failed? {
        return Some(outcome.error);
      }
      return None;
    }
  }
}
