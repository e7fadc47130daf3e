/**
 * app/utils.py: the token filter of preprocess_text and the re-ranking in
 * predict_with_trained_model. Lemmatisation, the stopword list and the BM25
 * scores come from libraries and are parameters here; so is the ascending
 * argsort of each score array, whose order among equal scores numpy leaves
 * open.
 */
module Ranking {
  import opened Wrappers
  import opened Text
  import opened Lists

  /** string.punctuation. */
  const Punctuation: string := "!\"#$%&'()*+,-./:;<=>?@[\\]^_`{|}~"

  /** Python's `t in p` for strings: t occurs in p as a contiguous substring. */
  predicate SubstringOf(t: string, p: string)
    decreases |p|
  {
    t <= p || (|p| > 0 && SubstringOf(t, p[1..]))
  }

  /** The characters str.isdigit() accepts: those whose Unicode numeric type
      is Decimal or Digit (Unicode 15.0, the table of Python 3.12). Besides
      the decimal digits of every script this takes in superscripts such as
      '\U{B2}', circled digits such as '\U{2460}' and similar forms. */
  predicate IsDigitChar(c: char) {
    ('0' <= c <= '9') || ('\U{B2}' <= c <= '\U{B3}') || c == '\U{B9}' || ('\U{660}' <= c <= '\U{669}') ||
    ('\U{6F0}' <= c <= '\U{6F9}') || ('\U{7C0}' <= c <= '\U{7C9}') || ('\U{966}' <= c <= '\U{96F}') ||
    ('\U{9E6}' <= c <= '\U{9EF}') || ('\U{A66}' <= c <= '\U{A6F}') || ('\U{AE6}' <= c <= '\U{AEF}') ||
    ('\U{B66}' <= c <= '\U{B6F}') || ('\U{BE6}' <= c <= '\U{BEF}') || ('\U{C66}' <= c <= '\U{C6F}') ||
    ('\U{CE6}' <= c <= '\U{CEF}') || ('\U{D66}' <= c <= '\U{D6F}') || ('\U{DE6}' <= c <= '\U{DEF}') ||
    ('\U{E50}' <= c <= '\U{E59}') || ('\U{ED0}' <= c <= '\U{ED9}') || ('\U{F20}' <= c <= '\U{F29}') ||
    ('\U{1040}' <= c <= '\U{1049}') || ('\U{1090}' <= c <= '\U{1099}') || ('\U{1369}' <= c <= '\U{1371}') ||
    ('\U{17E0}' <= c <= '\U{17E9}') || ('\U{1810}' <= c <= '\U{1819}') || ('\U{1946}' <= c <= '\U{194F}') ||
    ('\U{19D0}' <= c <= '\U{19DA}') || ('\U{1A80}' <= c <= '\U{1A89}') || ('\U{1A90}' <= c <= '\U{1A99}') ||
    ('\U{1B50}' <= c <= '\U{1B59}') || ('\U{1BB0}' <= c <= '\U{1BB9}') || ('\U{1C40}' <= c <= '\U{1C49}') ||
    ('\U{1C50}' <= c <= '\U{1C59}') || c == '\U{2070}' || ('\U{2074}' <= c <= '\U{2079}') ||
    ('\U{2080}' <= c <= '\U{2089}') || ('\U{2460}' <= c <= '\U{2468}') || ('\U{2474}' <= c <= '\U{247C}') ||
    ('\U{2488}' <= c <= '\U{2490}') || c == '\U{24EA}' || ('\U{24F5}' <= c <= '\U{24FD}') ||
    c == '\U{24FF}' || ('\U{2776}' <= c <= '\U{277E}') || ('\U{2780}' <= c <= '\U{2788}') ||
    ('\U{278A}' <= c <= '\U{2792}') || ('\U{A620}' <= c <= '\U{A629}') || ('\U{A8D0}' <= c <= '\U{A8D9}') ||
    ('\U{A900}' <= c <= '\U{A909}') || ('\U{A9D0}' <= c <= '\U{A9D9}') || ('\U{A9F0}' <= c <= '\U{A9F9}') ||
    ('\U{AA50}' <= c <= '\U{AA59}') || ('\U{ABF0}' <= c <= '\U{ABF9}') || ('\U{FF10}' <= c <= '\U{FF19}') ||
    ('\U{104A0}' <= c <= '\U{104A9}') || ('\U{10A40}' <= c <= '\U{10A43}') ||
    ('\U{10D30}' <= c <= '\U{10D39}') || ('\U{10E60}' <= c <= '\U{10E68}') ||
    ('\U{11052}' <= c <= '\U{1105A}') || ('\U{11066}' <= c <= '\U{1106F}') ||
    ('\U{110F0}' <= c <= '\U{110F9}') || ('\U{11136}' <= c <= '\U{1113F}') ||
    ('\U{111D0}' <= c <= '\U{111D9}') || ('\U{112F0}' <= c <= '\U{112F9}') ||
    ('\U{11450}' <= c <= '\U{11459}') || ('\U{114D0}' <= c <= '\U{114D9}') ||
    ('\U{11650}' <= c <= '\U{11659}') || ('\U{116C0}' <= c <= '\U{116C9}') ||
    ('\U{11730}' <= c <= '\U{11739}') || ('\U{118E0}' <= c <= '\U{118E9}') ||
    ('\U{11950}' <= c <= '\U{11959}') || ('\U{11C50}' <= c <= '\U{11C59}') ||
    ('\U{11D50}' <= c <= '\U{11D59}') || ('\U{11DA0}' <= c <= '\U{11DA9}') ||
    ('\U{11F50}' <= c <= '\U{11F59}') || ('\U{16A60}' <= c <= '\U{16A69}') ||
    ('\U{16AC0}' <= c <= '\U{16AC9}') || ('\U{16B50}' <= c <= '\U{16B59}') ||
    ('\U{1D7CE}' <= c <= '\U{1D7FF}') || ('\U{1E140}' <= c <= '\U{1E149}') ||
    ('\U{1E2F0}' <= c <= '\U{1E2F9}') || ('\U{1E4F0}' <= c <= '\U{1E4F9}') ||
    ('\U{1E950}' <= c <= '\U{1E959}') || ('\U{1F100}' <= c <= '\U{1F10A}') ||
    ('\U{1FBF0}' <= c <= '\U{1FBF9}')
  }

  /** str.isdigit(): at least one character, and every character a digit. */
  predicate IsDigits(t: string) {
    |t| > 0 && forall k :: 0 <= k < |t| ==> IsDigitChar(t[k])
  }

  /** The condition of the comprehension in preprocess_text. */
  predicate KeepToken(t: string, stopwords: seq<string>) {
    && t !in stopwords
    && t != " "
    && !SubstringOf(Strip(t), Punctuation)
    && t != "https"
    && t != "://"
    && !IsDigits(t)
  }

  /** preprocess_text after lemmatisation: the tokens the condition keeps. */
  function PreprocessText(tokens: seq<string>, stopwords: seq<string>): seq<string> {
    Filter(t => KeepToken(t, stopwords), tokens)
  }

  /** The filter keeps exactly the tokens that pass the condition. */
  lemma {:induction false} PreprocessMembers(tokens: seq<string>, stopwords: seq<string>)
    ensures forall t :: t in PreprocessText(tokens, stopwords) <==> t in tokens && KeepToken(t, stopwords)
    ensures |PreprocessText(tokens, stopwords)| <= |tokens|
  {
    FilterMembers(t => KeepToken(t, stopwords), tokens);
  }

  /** The filter works token by token, so it keeps the relative order:
      filtering a concatenation concatenates the filtered parts. */
  lemma {:induction false} PreprocessAppend(a: seq<string>, b: seq<string>, stopwords: seq<string>)
    ensures PreprocessText(a + b, stopwords) == PreprocessText(a, stopwords) + PreprocessText(b, stopwords)
  {
    FilterAppend(t => KeepToken(t, stopwords), a, b);
  }

  /** Filtering twice is filtering once. */
  lemma {:induction false} PreprocessIdempotent(tokens: seq<string>, stopwords: seq<string>)
    ensures PreprocessText(PreprocessText(tokens, stopwords), stopwords) == PreprocessText(tokens, stopwords)
  {
    FilterIdempotent(t => KeepToken(t, stopwords), tokens);
  }

  /** A string found at position k of p is a substring of p. */
  lemma {:induction false} SubstringAt(t: string, p: string, k: nat)
    requires k <= |p| && t <= p[k..]
    ensures SubstringOf(t, p)
    decreases k
  {
    if k > 0 {
      assert p[1..][k - 1..] == p[k..];
      SubstringAt(t, p[1..], k - 1);
    }
  }

  /** A string containing a character that p lacks is not a substring of p. */
  lemma {:induction false} NotSubstringWithoutChar(t: string, p: string, c: char)
    requires c in t && c !in p
    ensures !SubstringOf(t, p)
    decreases |p|
  {
    var k :| 0 <= k < |t| && t[k] == c;
    assert k >= |p| || p[k] != c;
    if |p| > 0 {
      NotSubstringWithoutChar(t, p[1..], c);
    }
  }

  /** A whitespace-only token strips to "", which `in punctuation` finds, so
      it is dropped whatever the explicit test against " " says. */
  lemma WhitespaceTokenDropped(t: string, stopwords: seq<string>)
    requires AllSpace(t)
    ensures !KeepToken(t, stopwords)
  {
    StripEmptyIff(t);
    assert "" <= Punctuation;
  }

  /** isdigit() is not limited to ASCII: a superscript two, or Arabic-Indic
      digits, make a token that is dropped. */
  lemma UnicodeDigitTokenDropped(stopwords: seq<string>)
    ensures !KeepToken("\U{B2}", stopwords)
    ensures !KeepToken("\U{661}\U{662}", stopwords)
  {
    assert IsDigits("\U{B2}");
    assert IsDigits("\U{661}\U{662}");
  }

  /** The punctuation test is a substring test: a run of punctuation that
      occurs in string.punctuation, such as "()", is dropped. */
  lemma PunctuationRunDropped(stopwords: seq<string>)
    ensures !KeepToken("()", stopwords)
  {
    assert LStrip("()") == "()";
    assert RStrip("()") == "()";
    SubstringAt("()", Punctuation, 7);
  }

  /** A token holding a character that is neither whitespace nor
      punctuation passes the punctuation test, so only the other tests
      decide about it; "(a)" is such a token. */
  lemma PunctuationTestPasses(t: string, stopwords: seq<string>, c: char)
    requires c in t && !IsSpace(c) && c !in Punctuation
    ensures KeepToken(t, stopwords) <==> t !in stopwords && t != "https" && t != "://" && !IsDigits(t)
  {
    StripKeepsNonSpace(t, c);
    NotSubstringWithoutChar(Strip(t), Punctuation, c);
  }

  /** A candidate video: its score and its index in the score arrays. */
  datatype Scored = Scored(score: real, index: nat)

  datatype Link = Link(link: string, title: string)

  datatype RankError =
    | IndexOutOfRange   // IndexError: a candidate index past the end of the other array
    | MissingLink(index: nat)   // KeyError: no entry in links for a surviving index

  /** The threshold of line 69. The scores are doubles, and no double lies
      strictly between the double nearest 6.6 and the real 6.6 when compared
      with >, so the real number gives the same test. */
  const Threshold: real := 6.6

  const TopCount: nat := 3

  function Max(a: real, b: real): real {
    if a >= b then a else b
  }

  function Min(a: nat, b: nat): nat {
    if a <= b then a else b
  }

  /** order is an ascending argsort of scores: a permutation of the indices
      with non-decreasing scores; equal scores may come in any order. */
  ghost predicate IsArgsort(order: seq<nat>, scores: seq<real>) {
    && |order| == |scores|
    && NoDuplicates(order)
    && (forall p :: 0 <= p < |order| ==> order[p] < |scores|)
    && (forall j :: 0 <= j < |scores| ==> j in order)
    && (forall p, q :: 0 <= p <= q < |order| ==> scores[order[p]] <= scores[order[q]])
  }

  /** np.argsort(scores)[-3:]: the last (at most) three entries. */
  function Last3(order: seq<nat>): (r: seq<nat>)
    ensures |r| == Min(TopCount, |order|)
  {
    order[|order| - Min(TopCount, |order|)..]
  }

  /** The last three of an argsort are three indices with the highest scores:
      every index left out scores no higher than any index taken. */
  lemma Last3AreTop(order: seq<nat>, scores: seq<real>)
    requires IsArgsort(order, scores)
    ensures forall i :: i in Last3(order) ==> i < |scores|
    ensures forall i, j :: i in Last3(order) && 0 <= j < |scores| && j !in Last3(order) ==> scores[j] <= scores[i]
  {
    var n := |order| - Min(TopCount, |order|);
    forall i, j | i in Last3(order) && 0 <= j < |scores| && j !in Last3(order)
      ensures scores[j] <= scores[i]
    {
      var q :| n <= q < |order| && order[q] == i;
      assert j in order;
      var p :| 0 <= p < |order| && order[p] == j;
      assert forall p' :: n <= p' < |order| ==> order[p'] == Last3(order)[p' - n];
    }
  }

  /** index_desc + index_title: at most six candidate indices. */
  function Candidates(orderDesc: seq<nat>, orderTitle: seq<nat>): (r: seq<nat>)
    ensures |r| <= 2 * TopCount
  {
    Last3(orderDesc) + Last3(orderTitle)
  }

  /** Every candidate indexes both score arrays. */
  predicate InRange(candidates: seq<nat>, scoresDesc: seq<real>, scoresTitle: seq<real>) {
    forall k :: 0 <= k < |candidates| ==> candidates[k] < |scoresDesc| && candidates[k] < |scoresTitle|
  }

  /** The score of a candidate: the larger of its two BM25 scores. */
  function ScoreOf(i: nat, scoresDesc: seq<real>, scoresTitle: seq<real>): Scored
    requires i < |scoresDesc| && i < |scoresTitle|
  {
    Scored(Max(scoresDesc[i], scoresTitle[i]), i)
  }

  /** A candidate's pair depends on its index only, so an index both lists
      found gives two equal pairs, which the set collapses into one. */
  lemma SameIndexSamePair(i: nat, j: nat, scoresDesc: seq<real>, scoresTitle: seq<real>)
    requires i < |scoresDesc| && i < |scoresTitle| && j < |scoresDesc| && j < |scoresTitle|
    ensures ScoreOf(i, scoresDesc, scoresTitle) == ScoreOf(j, scoresDesc, scoresTitle) <==> i == j
    ensures ScoreOf(i, scoresDesc, scoresTitle).score >= scoresDesc[i]
    ensures ScoreOf(i, scoresDesc, scoresTitle).score >= scoresTitle[i]
  {
  }

  ghost predicate SortedDesc(xs: seq<Scored>) {
    forall p, q :: 0 <= p <= q < |xs| ==> xs[p].score >= xs[q].score
  }

  /** Inserts x before the first element with a score not above x's. */
  function InsertDesc(x: Scored, xs: seq<Scored>): seq<Scored> {
    if |xs| == 0 || x.score >= xs[0].score then [x] + xs
    else [xs[0]] + InsertDesc(x, xs[1..])
  }

  /** sorted(xs, key=score, reverse=True). */
  function SortDesc(xs: seq<Scored>): seq<Scored> {
    if |xs| == 0 then [] else InsertDesc(xs[0], SortDesc(xs[1..]))
  }

  lemma {:induction false} InsertDescMembers(x: Scored, xs: seq<Scored>)
    ensures forall e :: e in InsertDesc(x, xs) <==> e == x || e in xs
    ensures |InsertDesc(x, xs)| == |xs| + 1
    decreases |xs|
  {
    if |xs| > 0 && x.score < xs[0].score {
      InsertDescMembers(x, xs[1..]);
      assert xs == [xs[0]] + xs[1..];
    }
  }

  lemma {:induction false} InsertDescSorted(x: Scored, xs: seq<Scored>)
    requires SortedDesc(xs)
    ensures SortedDesc(InsertDesc(x, xs))
    decreases |xs|
  {
    if |xs| > 0 && x.score < xs[0].score {
      InsertDescSorted(x, xs[1..]);
      InsertDescMembers(x, xs[1..]);
      var r := InsertDesc(x, xs[1..]);
      assert forall e :: e in r ==> e.score <= xs[0].score by {
        forall e | e in r ensures e.score <= xs[0].score {
          if e != x {
            var p :| 0 <= p < |xs[1..]| && xs[1..][p] == e;
            assert xs[p + 1] == e;
          }
        }
      }
      assert forall q :: 0 <= q < |r| ==> r[q] in r;
    }
  }

  lemma {:induction false} InsertDescNoDuplicates(x: Scored, xs: seq<Scored>)
    requires NoDuplicates(xs) && x !in xs
    ensures NoDuplicates(InsertDesc(x, xs))
    decreases |xs|
  {
    if |xs| > 0 && x.score < xs[0].score {
      assert xs == [xs[0]] + xs[1..];
      InsertDescNoDuplicates(x, xs[1..]);
      InsertDescMembers(x, xs[1..]);
      var r := InsertDesc(x, xs[1..]);
      assert xs[0] !in r;
      assert forall q :: 0 <= q < |r| ==> r[q] in r;
    }
  }

  /** Sorting orders by score and keeps the elements. */
  lemma {:induction false} SortDescShape(xs: seq<Scored>)
    ensures SortedDesc(SortDesc(xs))
    ensures forall e :: e in SortDesc(xs) <==> e in xs
    ensures |SortDesc(xs)| == |xs|
    ensures NoDuplicates(xs) ==> NoDuplicates(SortDesc(xs))
    decreases |xs|
  {
    if |xs| > 0 {
      SortDescShape(xs[1..]);
      InsertDescMembers(xs[0], SortDesc(xs[1..]));
      InsertDescSorted(xs[0], SortDesc(xs[1..]));
      assert xs == [xs[0]] + xs[1..];
      if NoDuplicates(xs) {
        assert NoDuplicates(xs[1..]);
        InsertDescNoDuplicates(xs[0], SortDesc(xs[1..]));
      }
    }
  }

  /** sorted(list(set(score)), key=score, reverse=True)[:3]. */
  function TopThree(pool: seq<Scored>): seq<Scored> {
    var sorted := SortDesc(Dedup(pool));
    sorted[..Min(TopCount, |sorted|)]
  }

  /** top is three distinct pairs of pool with the highest scores (fewer when
      pool has fewer), in non-increasing score order: every pair left out
      scores no higher than any pair kept. Which of several equal-scored pairs
      make the cut is not fixed, as set order is not. */
  ghost predicate IsTopThree(pool: seq<Scored>, top: seq<Scored>) {
    && NoDuplicates(top)
    && SortedDesc(top)
    && (forall e :: e in top ==> e in pool)
    && |top| == Min(TopCount, |Elements(pool)|)
    && (forall e, f :: e in pool && e !in top && f in top ==> e.score <= f.score)
  }

  lemma TopThreeIsTop(pool: seq<Scored>)
    ensures IsTopThree(pool, TopThree(pool))
  {
    var u := Dedup(pool);
    var sorted := SortDesc(u);
    SortDescShape(u);
    NoDuplicatesCard(u);
    SortedPrefix(sorted, Min(TopCount, |sorted|));
    assert forall e :: e in pool <==> e in Elements(u);
  }

  /** A prefix of a sorted list without duplicates holds its highest scores. */
  lemma SortedPrefix(xs: seq<Scored>, n: nat)
    requires SortedDesc(xs) && NoDuplicates(xs) && n <= |xs|
    ensures NoDuplicates(xs[..n]) && SortedDesc(xs[..n])
    ensures forall e :: e in xs[..n] ==> e in xs
    ensures forall e, f :: e in xs && e !in xs[..n] && f in xs[..n] ==> e.score <= f.score
  {
    forall e, f | e in xs && e !in xs[..n] && f in xs[..n] ensures e.score <= f.score {
      var p :| 0 <= p < |xs| && xs[p] == e;
      var q :| 0 <= q < n && xs[..n][q] == f;
      assert forall p' :: 0 <= p' < n ==> xs[p'] in xs[..n];
    }
  }

  /** [item for item in score if item[0] > 6.6]. */
  function AboveThreshold(top: seq<Scored>): seq<Scored> {
    if |top| == 0 then []
    else AboveThreshold(top[..|top| - 1])
         + (if top[|top| - 1].score > Threshold then [top[|top| - 1]] else [])
  }

  /** The threshold filter keeps exactly the pairs scoring above 6.6, in
      order; since it runs after the cut to three, it may leave fewer than
      three pairs, or none. */
  lemma {:induction false} AboveThresholdShape(top: seq<Scored>)
    ensures forall e :: e in AboveThreshold(top) <==> e in top && e.score > Threshold
    ensures |AboveThreshold(top)| <= |top|
    ensures SortedDesc(top) ==> SortedDesc(AboveThreshold(top))
    decreases |top|
  {
    if |top| > 0 {
      var init := top[..|top| - 1];
      AboveThresholdShape(init);
      assert top == init + [top[|top| - 1]];
      if SortedDesc(top) {
        assert SortedDesc(init);
        var r := AboveThreshold(top);
        forall p, q | 0 <= p <= q < |r| ensures r[p].score >= r[q].score {
          assert r[p] in top && r[q] in top;
          if q == |r| - 1 && top[|top| - 1].score > Threshold {
            var p' :| 0 <= p' < |top| && top[p'] == r[p];
          }
        }
      }
    }
  }

  /** The video links of the surviving pairs, looked up in links. */
  function LinksOf(survivors: seq<Scored>, links: map<nat, Link>): (r: seq<Link>)
    requires forall e :: e in survivors ==> e.index in links
    ensures |r| == |survivors|
    ensures forall k :: 0 <= k < |r| ==> r[k] == links[survivors[k].index]
  {
    seq(|survivors|, k requires 0 <= k < |survivors| => links[survivors[k].index])
  }

  /** The candidates' (score, index) pairs. */
  function CandidateScores(candidates: seq<nat>, scoresDesc: seq<real>, scoresTitle: seq<real>): (r: seq<Scored>)
    requires InRange(candidates, scoresDesc, scoresTitle)
    ensures |r| == |candidates|
    ensures forall k :: 0 <= k < |r| ==> r[k] == ScoreOf(candidates[k], scoresDesc, scoresTitle)
  {
    seq(|candidates|, k requires 0 <= k < |candidates| => ScoreOf(candidates[k], scoresDesc, scoresTitle))
  }

  /** The loop of lines 63-65: each candidate scored in turn; an index past
      the end of either array raises IndexError. */
  method ScoreCandidates(index: seq<nat>, scoresDesc: seq<real>, scoresTitle: seq<real>)
    returns (r: Result<seq<Scored>, RankError>)
    ensures r.Ok? <==> InRange(index, scoresDesc, scoresTitle)
    ensures r.Ok? ==> r.value == CandidateScores(index, scoresDesc, scoresTitle)
    ensures r.Err? ==> r.error == IndexOutOfRange
  {
    var score: seq<Scored> := [];
    var i := 0;
    while i < |index|
      invariant 0 <= i <= |index| && |score| == i
      invariant forall k :: 0 <= k < i ==> index[k] < |scoresDesc| && index[k] < |scoresTitle|
      invariant forall k :: 0 <= k < i ==> score[k] == ScoreOf(index[k], scoresDesc, scoresTitle)
    {
      var ind := index[i];
      if ind >= |scoresDesc| || ind >= |scoresTitle| {
        return Err(IndexOutOfRange);
      }
      score := score + [Scored(Max(scoresDesc[ind], scoresTitle[ind]), ind)];
      i := i + 1;
    }
    return Ok(score);
  }

  /** The loop of lines 72-74: the link of each survivor in turn; an index
      missing from links raises KeyError. */
  method LookupLinks(survivors: seq<Scored>, links: map<nat, Link>) returns (r: Result<seq<Link>, RankError>)
    ensures r.Ok? <==> forall e :: e in survivors ==> e.index in links
    ensures r.Ok? ==> r.value == LinksOf(survivors, links)
    ensures r.Err? ==>
      r.error.MissingLink? && r.error.index !in links && exists e :: e in survivors && e.index == r.error.index
    ensures r.Err? ==> exists k :: 0 <= k < |survivors| && survivors[k].index == r.error.index
                                  && forall j :: 0 <= j < k ==> survivors[j].index in links
  {
    var result: seq<Link> := [];
    var i := 0;
    while i < |survivors|
      invariant 0 <= i <= |survivors| && |result| == i
      invariant forall k :: 0 <= k < i ==> survivors[k].index in links && result[k] == links[survivors[k].index]
    {
      var scr := survivors[i];
      if scr.index !in links {
        return Err(MissingLink(scr.index));
      }
      result := result + [links[scr.index]];
      i := i + 1;
    }
    return Ok(result);
  }

  /** predict_with_trained_model from the scores on: candidates, their
      scores, the set, the sort, the cut to three, the threshold and the
      lookup of each survivor's link. */
  method PredictWithTrainedModel(scoresDesc: seq<real>, orderDesc: seq<nat>,
                                 scoresTitle: seq<real>, orderTitle: seq<nat>,
                                 links: map<nat, Link>)
    returns (r: Result<seq<Link>, RankError>, ghost top: seq<Scored>)
    requires IsArgsort(orderDesc, scoresDesc) && IsArgsort(orderTitle, scoresTitle)
    ensures r == Err(IndexOutOfRange) <==> !InRange(Candidates(orderDesc, orderTitle), scoresDesc, scoresTitle)
    ensures InRange(Candidates(orderDesc, orderTitle), scoresDesc, scoresTitle) ==>
      IsTopThree(CandidateScores(Candidates(orderDesc, orderTitle), scoresDesc, scoresTitle), top)
    ensures r.Ok? <==> InRange(Candidates(orderDesc, orderTitle), scoresDesc, scoresTitle)
                       && forall e :: e in AboveThreshold(top) ==> e.index in links
    ensures r.Err? && r.error.MissingLink? ==>
      r.error.index !in links && exists e :: e in AboveThreshold(top) && e.index == r.error.index
    ensures r.Err? && r.error.MissingLink? ==>
      exists k :: 0 <= k < |AboveThreshold(top)| && AboveThreshold(top)[k].index == r.error.index
                  && forall j :: 0 <= j < k ==> AboveThreshold(top)[j].index in links
    ensures r.Ok? ==> |r.value| <= TopCount && r.value == LinksOf(AboveThreshold(top), links)
  {
    var index := Last3(orderDesc) + Last3(orderTitle);
    var score := ScoreCandidates(index, scoresDesc, scoresTitle);
    if score.Err? {
      return Err(IndexOutOfRange), [];
    }
    var ranked := TopThree(score.value);
    TopThreeIsTop(score.value);
    top := ranked;
    var survivors := AboveThreshold(ranked);
    AboveThresholdShape(ranked);
    r := LookupLinks(survivors, links);
  }
}
