/**
 * The three regular-expression substitutions the scripts run with re.sub,
 * modelled as the left-to-right scan Python's engine performs: at each
 * position the pattern is tried; a match is replaced and the scan resumes
 * after it, otherwise the character is copied and the scan moves on by one.
 *
 *   Fillers: \b(um|uh|er|ah|like|you know|well|so|actually|basically|
 *            literally|right|okay|ok)\b with re.IGNORECASE, replaced by ""
 *   Stutter: \b(\w+)\s+\1\b, replaced by the group
 *   Mention: @rag_youtube_itmo_bot[,\s]*, replaced by ""
 */
module Regex {
  import opened Wrappers
  import opened Text

  datatype Pattern = Fillers | Stutter | Mention

  /** A match found at some position: where it ends and what replaces it. */
  datatype Match = Match(end: nat, replacement: string)

  /** \w: letters, digits and '_' (ASCII and the Russian alphabet), and the
      four letters outside ASCII that fold with an ASCII one. */
  predicate IsWordChar(c: char) {
    ('a' <= c <= 'z') || ('A' <= c <= 'Z') || ('0' <= c <= '9') || c == '_'
    || ('\U{0410}' <= c <= '\U{044F}') || c == '\U{0401}' || c == '\U{0451}'
    || c == '\U{0130}' || c == '\U{0131}' || c == '\U{017F}' || c == '\U{212A}'
  }

  /** \b at position i: a word character on exactly one side. */
  predicate Boundary(s: string, i: nat)
    requires i <= |s|
  {
    (i > 0 && IsWordChar(s[i - 1])) != (i < |s| && IsWordChar(s[i]))
  }

  /** re.IGNORECASE as it bears on the ASCII letters of the patterns: the
      capitals, and the four other characters the engine folds with an ASCII
      letter (İ and dotless ı with i, the long s with s, the Kelvin sign
      with k). */
  function Fold(c: char): char {
    if 'A' <= c <= 'Z' then (c as int + 32) as char
    else if c == '\U{0130}' || c == '\U{0131}' then 'i'
    else if c == '\U{017F}' then 's'
    else if c == '\U{212A}' then 'k'
    else c
  }

  /** The literal w matches s at i, ignoring case. */
  predicate MatchesIgnoringCase(s: string, i: nat, w: string) {
    i + |w| <= |s| && forall k :: 0 <= k < |w| ==> Fold(s[i + k]) == Fold(w[k])
  }

  /** The alternatives of the filler pattern, in the order the engine tries them. */
  const FillerWords: seq<string> := ["um", "uh", "er", "ah", "like", "you know", "well", "so",
                                     "actually", "basically", "literally", "right", "okay", "ok"]

  /** Alternative k matches at i and is followed by a word boundary. */
  predicate FillerFits(s: string, i: nat, k: nat) {
    k < |FillerWords| && MatchesIgnoringCase(s, i, FillerWords[k]) && Boundary(s, i + |FillerWords[k]|)
  }

  /** The first alternative, from k on, that fits at i: the engine's
      backtracking through the alternation. */
  function FirstFiller(s: string, i: nat, k: nat): (r: Option<nat>)
    ensures r.Some? ==> k <= r.value && FillerFits(s, i, r.value)
    ensures forall k' :: k <= k' < (if r.Some? then r.value else |FillerWords|) ==> !FillerFits(s, i, k')
    decreases |FillerWords| - k
  {
    if k >= |FillerWords| then None
    else if FillerFits(s, i, k) then Some(k)
    else FirstFiller(s, i, k + 1)
  }

  /** Number of word characters starting at i. */
  function WordRun(s: string, i: nat): (n: nat)
    ensures i + n <= |s| || (i > |s| && n == 0)
    decreases |s| - i
  {
    if i < |s| && IsWordChar(s[i]) then 1 + WordRun(s, i + 1) else 0
  }

  /** Number of whitespace characters starting at i. */
  function SpaceRun(s: string, i: nat): (n: nat)
    ensures i + n <= |s| || (i > |s| && n == 0)
    decreases |s| - i
  {
    if i < |s| && IsSpace(s[i]) then 1 + SpaceRun(s, i + 1) else 0
  }

  /** Number of ',' and whitespace characters starting at i. */
  function CommaSpaceRun(s: string, i: nat): (n: nat)
    ensures i + n <= |s| || (i > |s| && n == 0)
    decreases |s| - i
  {
    if i < |s| && (s[i] == ',' || IsSpace(s[i])) then 1 + CommaSpaceRun(s, i + 1) else 0
  }

  const BotMention: string := "@rag_youtube_itmo_bot"

  /** The match of pattern p at position i of s, if any. Every match is
      non-empty and its replacement is shorter than the text it replaces. */
  function MatchAt(p: Pattern, s: string, i: nat): (r: Option<Match>)
    requires i <= |s|
    ensures r.Some? ==> i < r.value.end <= |s| && |r.value.replacement| < r.value.end - i
  {
    match p
    case Fillers => FillerAt(s, i)
    case Stutter => StutterAt(s, i)
    case Mention => MentionAt(s, i)
  }

  /** The filler pattern: a boundary, the first alternative that fits. */
  function FillerAt(s: string, i: nat): (r: Option<Match>)
    requires i <= |s|
    ensures r.Some? ==> i < r.value.end <= |s| && r.value.replacement == ""
  {
    if !Boundary(s, i) then None
    else match FirstFiller(s, i, 0)
      case None => None
      case Some(k) => Some(Match(i + |FillerWords[k]|, ""))
  }

  /** The stutter pattern: a word, whitespace, the same word, replaced by
      the word. */
  function StutterAt(s: string, i: nat): (r: Option<Match>)
    requires i <= |s|
    ensures r.Some? ==> i < r.value.end <= |s| && |r.value.replacement| < r.value.end - i
  {
    var n := WordRun(s, i);
    if n == 0 || !Boundary(s, i) then None
    else
      var m := SpaceRun(s, i + n);
      var j := i + n + m;
      if m > 0 && j + n <= |s| && s[j..j + n] == s[i..i + n] && Boundary(s, j + n)
      then Some(Match(j + n, s[i..i + n]))
      else None
  }

  /** The mention pattern: the bot's name and the commas and whitespace
      after it, deleted. */
  function MentionAt(s: string, i: nat): (r: Option<Match>)
    requires i <= |s|
    ensures r.Some? ==> i < r.value.end <= |s| && r.value.replacement == ""
  {
    if BotMention <= s[i..] then
      var e := i + |BotMention|;
      Some(Match(e + CommaSpaceRun(s, e), ""))
    else None
  }

  /** re.sub(p, repl, s[i..]) as the scan from position i. */
  function SubFrom(p: Pattern, s: string, i: nat): string
    requires i <= |s|
    decreases |s| - i
  {
    if i == |s| then ""
    else match MatchAt(p, s, i)
      case Some(m) => m.replacement + SubFrom(p, s, m.end)
      case None => [s[i]] + SubFrom(p, s, i + 1)
  }

  /** re.sub(p, repl, s). */
  function Sub(p: Pattern, s: string): string {
    SubFrom(p, s, 0)
  }

  /** No position from i on starts a match. */
  ghost predicate NoMatchFrom(p: Pattern, s: string, i: nat)
    requires i <= |s|
  {
    forall j :: i <= j < |s| ==> MatchAt(p, s, j).None?
  }

  /** The scan never lengthens the text, and keeps its length exactly when
      no position starts a match. */
  lemma {:induction false} SubFromLength(p: Pattern, s: string, i: nat)
    requires i <= |s|
    ensures |SubFrom(p, s, i)| <= |s| - i
    ensures |SubFrom(p, s, i)| == |s| - i <==> NoMatchFrom(p, s, i)
    decreases |s| - i
  {
    if i < |s| {
      NoMatchFromStep(p, s, i);
      var r := MatchAt(p, s, i);
      if r.Some? {
        SubFromLength(p, s, r.value.end);
      } else {
        SubFromLength(p, s, i + 1);
      }
    }
  }

  /** No match from i on: none at i and none from i + 1 on. */
  lemma NoMatchFromStep(p: Pattern, s: string, i: nat)
    requires i < |s|
    ensures NoMatchFrom(p, s, i) <==> MatchAt(p, s, i).None? && NoMatchFrom(p, s, i + 1)
  {
  }

  /** Text in which no position starts a match is copied unchanged. */
  lemma {:induction false} SubFromNoMatch(p: Pattern, s: string, i: nat)
    requires i <= |s| && NoMatchFrom(p, s, i)
    ensures SubFrom(p, s, i) == s[i..]
    decreases |s| - i
  {
    if i < |s| {
      SubFromNoMatch(p, s, i + 1);
      assert s[i..] == [s[i]] + s[i + 1..];
    }
  }

  /** re.sub leaves s unchanged exactly when the pattern matches nowhere in s. */
  lemma SubUnchangedIff(p: Pattern, s: string)
    ensures Sub(p, s) == s <==> NoMatchFrom(p, s, 0)
    ensures |Sub(p, s)| <= |s|
  {
    SubFromLength(p, s, 0);
    if NoMatchFrom(p, s, 0) {
      SubFromNoMatch(p, s, 0);
    }
  }

  /** The regular-expression reading of the filler pattern at i: a boundary,
      alternative k ignoring case, a boundary. */
  ghost predicate FillerShape(s: string, i: nat, k: nat) {
    i <= |s| && Boundary(s, i) && FillerFits(s, i, k)
  }

  /** The filler pattern matches at i exactly when some alternative fits
      there between boundaries; the engine takes the first such alternative
      in list order and deletes it. */
  lemma FillerMatchIff(s: string, i: nat)
    requires i <= |s|
    ensures MatchAt(Fillers, s, i).Some? <==> exists k :: FillerShape(s, i, k)
    ensures MatchAt(Fillers, s, i).Some? ==>
      exists k: nat :: FillerShape(s, i, k) && (forall k': nat :: k' < k ==> !FillerShape(s, i, k'))
        && MatchAt(Fillers, s, i) == Some(Match(i + |FillerWords[k]|, ""))
  {
    if MatchAt(Fillers, s, i).Some? {
      var k := FirstFiller(s, i, 0).value;
      assert FillerShape(s, i, k);
    }
  }

  /** The regular-expression reading of the stutter pattern at i: a boundary,
      a group of L word characters, M whitespace characters, the same L
      characters again, a boundary. */
  ghost predicate StutterShape(s: string, i: nat, L: nat, M: nat) {
    && i + L + M + L <= |s| && L > 0 && M > 0
    && Boundary(s, i)
    && (forall k :: i <= k < i + L ==> IsWordChar(s[k]))
    && (forall k :: i + L <= k < i + L + M ==> IsSpace(s[k]))
    && s[i + L + M..i + L + M + L] == s[i..i + L]
    && Boundary(s, i + L + M + L)
  }

  lemma {:induction false} WordRunShape(s: string, i: nat)
    requires i <= |s|
    ensures forall k :: i <= k < i + WordRun(s, i) ==> IsWordChar(s[k])
    ensures i + WordRun(s, i) < |s| ==> !IsWordChar(s[i + WordRun(s, i)])
    decreases |s| - i
  {
    if i < |s| && IsWordChar(s[i]) {
      WordRunShape(s, i + 1);
    }
  }

  lemma {:induction false} SpaceRunShape(s: string, i: nat)
    requires i <= |s|
    ensures forall k :: i <= k < i + SpaceRun(s, i) ==> IsSpace(s[k])
    ensures i + SpaceRun(s, i) < |s| ==> !IsSpace(s[i + SpaceRun(s, i)])
    decreases |s| - i
  {
    if i < |s| && IsSpace(s[i]) {
      SpaceRunShape(s, i + 1);
    }
  }

  /** A run of word characters ends where the shape says, when the shape
      puts a non-word character right after it. */
  lemma {:induction false} WordRunExact(s: string, i: nat, L: nat)
    requires i + L <= |s|
    requires forall k :: i <= k < i + L ==> IsWordChar(s[k])
    requires i + L < |s| ==> !IsWordChar(s[i + L])
    ensures WordRun(s, i) == L
    decreases L
  {
    if L > 0 {
      WordRunExact(s, i + 1, L - 1);
    }
  }

  lemma {:induction false} SpaceRunExact(s: string, i: nat, M: nat)
    requires i + M <= |s|
    requires forall k :: i <= k < i + M ==> IsSpace(s[k])
    requires i + M < |s| ==> !IsSpace(s[i + M])
    ensures SpaceRun(s, i) == M
    decreases M
  {
    if M > 0 {
      SpaceRunExact(s, i + 1, M - 1);
    }
  }

  /** The stutter pattern has at most one way to match at i, and the model
      finds it: greedy \w+ and \s+ cannot give back characters, because the
      group starts with a word character and whitespace is never one. The
      match is replaced by one copy of the word. */
  lemma StutterMatchComplete(s: string, i: nat, L: nat, M: nat)
    requires StutterShape(s, i, L, M)
    ensures MatchAt(Stutter, s, i) == Some(Match(i + L + M + L, s[i..i + L]))
  {
    var j := i + L + M;
    assert IsSpace(s[i + L]);
    assert s[j..j + L][0] == s[i..i + L][0];
    WordRunExact(s, i, L);
    SpaceRunExact(s, i + L, M);
  }

  lemma StutterMatchSound(s: string, i: nat)
    requires i <= |s| && MatchAt(Stutter, s, i).Some?
    ensures var n := WordRun(s, i);
      StutterShape(s, i, n, SpaceRun(s, i + n))
      && MatchAt(Stutter, s, i) == Some(Match(i + n + SpaceRun(s, i + n) + n, s[i..i + n]))
  {
    var n := WordRun(s, i);
    var m := SpaceRun(s, i + n);
    assert MatchAt(Stutter, s, i) == StutterAt(s, i);
    StutterShapeOfRuns(s, i, n, m);
  }

  lemma StutterShapeOfRuns(s: string, i: nat, n: nat, m: nat)
    requires i <= |s| && n == WordRun(s, i) && m == SpaceRun(s, i + n)
    requires n > 0 && m > 0 && i + n + m + n <= |s| && Boundary(s, i)
    requires s[i + n + m..i + n + m + n] == s[i..i + n] && Boundary(s, i + n + m + n)
    ensures StutterShape(s, i, n, m)
  {
    WordRunShape(s, i);
    SpaceRunShape(s, i + n);
  }

  /** The mention pattern matches exactly where the bot's name occurs, and
      takes every ',' and whitespace character that follows it. */
  lemma MentionMatch(s: string, i: nat)
    requires i <= |s|
    ensures MatchAt(Mention, s, i).Some? <==> BotMention <= s[i..]
    ensures MatchAt(Mention, s, i).Some? ==>
      var e := MatchAt(Mention, s, i).value.end;
      && e >= i + |BotMention|
      && (forall k :: i + |BotMention| <= k < e ==> s[k] == ',' || IsSpace(s[k]))
      && (e < |s| ==> s[e] != ',' && !IsSpace(s[e]))
  {
    if BotMention <= s[i..] {
      CommaSpaceRunShape(s, i + |BotMention|);
    }
  }

  lemma {:induction false} CommaSpaceRunShape(s: string, i: nat)
    requires i <= |s|
    ensures forall k :: i <= k < i + CommaSpaceRun(s, i) ==> s[k] == ',' || IsSpace(s[k])
    ensures i + CommaSpaceRun(s, i) < |s| ==> s[i + CommaSpaceRun(s, i)] != ',' && !IsSpace(s[i + CommaSpaceRun(s, i)])
    decreases |s| - i
  {
    if i < |s| && (s[i] == ',' || IsSpace(s[i])) {
      CommaSpaceRunShape(s, i + 1);
    }
  }

  /** "so" inside "also" is not a filler: no boundary precedes it. */
  lemma FillersKeepAlso()
    ensures Sub(Fillers, "also") == "also"
  {
    var s := "also";
    NoFillerAtStart(s);
    assert !Boundary(s, 1) && !Boundary(s, 2) && !Boundary(s, 3);
    assert forall j :: 0 <= j < |s| ==> MatchAt(Fillers, s, j) == FillerAt(s, j);
    SubUnchangedIff(Fillers, s);
  }

  /** No alternative of the filler pattern fits at the start of "also". */
  lemma NoFillerAtStart(s: string)
    requires s == "also"
    ensures FirstFiller(s, 0, 0).None?
  {
    forall k | 0 <= k < |FillerWords| ensures !FillerFits(s, 0, k) {
      var w := FillerWords[k];
      if k == 3 {
        MismatchAt(s, 0, w, 1);
      } else if k == 8 {
        assert |w| > |s|;
      } else {
        assert w[0] != 'a';
        MismatchAt(s, 0, w, 0);
      }
    }
  }

  /** IGNORECASE folds the dotless ı with i, so "LıKE" is the filler "like"
      and is removed. */
  lemma FillersFoldDotlessI()
    ensures Sub(Fillers, "L\U{0131}KE") == ""
  {
    var s := "L\U{0131}KE";
    forall k | 0 <= k < 4 ensures !FillerFits(s, 0, k) {
      var w := FillerWords[k];
      assert Fold(s[0]) == 'l' != w[0];
      MismatchAt(s, 0, w, 0);
    }
    assert MatchesIgnoringCase(s, 0, FillerWords[4]);
    assert Boundary(s, 0) && Boundary(s, 4);
    assert FirstFiller(s, 0, 0) == Some(4);
    assert MatchAt(Fillers, s, 0) == Some(Match(4, ""));
  }

  lemma MismatchAt(s: string, i: nat, w: string, j: nat)
    requires j < |w| && i + j < |s| && Fold(s[i + j]) != Fold(w[j])
    ensures !MatchesIgnoringCase(s, i, w)
  {
  }

  /** Matches do not overlap: "the the the" loses only one repetition. */
  lemma StutterThreeTimes()
    ensures Sub(Stutter, "the the the") == "the the"
  {
    var s := "the the the";
    StutterAtStart(s);
    StutterNoneAfter(s);
    SubFromNoMatch(Stutter, s, 7);
    assert s[7..] == " the";
  }

  lemma StutterAtStart(s: string)
    requires s == "the the the"
    ensures MatchAt(Stutter, s, 0) == Some(Match(7, "the"))
  {
    assert s[4..7] == s[0..3] == "the";
    StutterMatchComplete(s, 0, 3, 1);
  }

  /** After the first match, no position of "the the the" starts another. */
  lemma StutterNoneAfter(s: string)
    requires s == "the the the"
    ensures NoMatchFrom(Stutter, s, 7)
  {
    assert WordRun(s, 7) == 0;
    assert SpaceRun(s, 11) == 0;
    WordRunExact(s, 8, 3);
    assert !Boundary(s, 9) && !Boundary(s, 10);
  }
}
