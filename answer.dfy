/**
 * app/app.py: the text handling around the language model in `answer` and
 * in the tag handler: escape_html, the removal of the bot's mention, the
 * question taken from a replied-to answer, the block of video links and the
 * YES/NO choice of the answer template. What the retriever and the language
 * model return is given as parameters.
 */
module App {
  import opened Wrappers
  import opened Text
  import opened Lists
  import opened Regex
  import opened Ranking

  // ---------------------------------------------------------------------
  // escape_html

  /** The four characters escape_html replaces. */
  predicate IsSpecial(c: char) {
    c == '&' || c == '<' || c == '>' || c == '"'
  }

  /** The entity escape_html writes for a special character. */
  function Entity(c: char): string
    requires IsSpecial(c)
  {
    if c == '&' then "&amp;" else if c == '<' then "&lt;" else if c == '>' then "&gt;" else "&quot;"
  }

  /** escape_html: four str.replace calls, '&' first. */
  function EscapeHtml(text: string): string {
    Replace(Replace(Replace(Replace(text, "&", "&amp;"), "<", "&lt;"), ">", "&gt;"), "\"", "&quot;")
  }

  /** The reference reading: each character of S becomes its entity, every
      other character stays as it is. */
  function EncodeChars(s: string, S: set<char>): string
    requires forall c :: c in S ==> IsSpecial(c)
  {
    if |s| == 0 then ""
    else EncodeChar(s[0], S) + EncodeChars(s[1..], S)
  }

  const AllSpecials: set<char> := {'&', '<', '>', '"'}

  /** Replacing a one-character pattern works character by character. */
  lemma {:induction false} ReplaceCharAppend(x: string, y: string, c: char, rep: string)
    ensures Replace(x + y, [c], rep) == Replace(x, [c], rep) + Replace(y, [c], rep)
    decreases |x|
  {
    if |x| == 0 {
      assert x + y == y;
    } else {
      var s := x + y;
      assert s[0] == x[0];
      assert s[1..] == x[1..] + y;
      assert ([c] <= s) == (s[0] == c);
      assert ([c] <= x) == (x[0] == c);
      ReplaceCharAppend(x[1..], y, c, rep);
    }
  }

  lemma {:induction false} ReplaceAbsentChar(x: string, c: char, rep: string)
    requires c !in x
    ensures Replace(x, [c], rep) == x
    decreases |x|
  {
    if |x| > 0 {
      assert x[0] != c;
      ReplaceAbsentChar(x[1..], c, rep);
      assert x == [x[0]] + x[1..];
    }
  }

  /** The escaped form of one character. */
  function EncodeChar(d: char, S: set<char>): string
    requires forall c :: c in S ==> IsSpecial(c)
  {
    if d in S then Entity(d) else [d]
  }

  /** One character's part of a replace call of escape_html. */
  lemma EscapeStepHead(d: char, S: set<char>, c: char)
    requires forall e :: e in S ==> IsSpecial(e)
    requires IsSpecial(c) && c !in S && forall e :: e in S ==> c !in Entity(e)
    ensures Replace(EncodeChar(d, S), [c], Entity(c)) == EncodeChar(d, S + {c})
  {
    var head := EncodeChar(d, S);
    if d in S {
      ReplaceAbsentChar(head, c, Entity(c));
    } else if d == c {
      assert head[1..] == [] && [c] <= head;
      assert Replace(head, [c], Entity(c)) == Entity(c) + Replace([], [c], Entity(c));
    } else {
      assert head[1..] == [] && head[0] == d;
      assert Replace(head, [c], Entity(c)) == head + Replace([], [c], Entity(c));
    }
  }

  /** One replace call of escape_html adds one character to the escaped set,
      since the entities already written do not contain it. */
  lemma {:induction false} EscapeStep(s: string, S: set<char>, c: char)
    requires forall e :: e in S ==> IsSpecial(e)
    requires IsSpecial(c) && c !in S && forall e :: e in S ==> c !in Entity(e)
    ensures Replace(EncodeChars(s, S), [c], Entity(c)) == EncodeChars(s, S + {c})
    decreases |s|
  {
    if |s| > 0 {
      assert EncodeChars(s, S) == EncodeChar(s[0], S) + EncodeChars(s[1..], S);
      ReplaceCharAppend(EncodeChar(s[0], S), EncodeChars(s[1..], S), c, Entity(c));
      EscapeStep(s[1..], S, c);
      EscapeStepHead(s[0], S, c);
    }
  }

  lemma {:induction false} EncodeNothing(s: string)
    ensures EncodeChars(s, {}) == s
    decreases |s|
  {
    if |s| > 0 {
      EncodeNothing(s[1..]);
      assert s == [s[0]] + s[1..];
    }
  }

  /** escape_html replaces each special character by its entity and keeps
      every other character, in order. */
  lemma EscapeHtmlEncodes(text: string)
    ensures EscapeHtml(text) == EncodeChars(text, AllSpecials)
  {
    EncodeNothing(text);
    EscapeStep(text, {}, '&');
    assert {} + {'&'} == {'&'};
    EscapeStep(text, {'&'}, '<');
    assert {'&'} + {'<'} == {'&', '<'};
    EscapeStep(text, {'&', '<'}, '>');
    assert {'&', '<'} + {'>'} == {'&', '<', '>'};
    EscapeStep(text, {'&', '<', '>'}, '"');
    assert {'&', '<', '>'} + {'"'} == AllSpecials;
  }

  lemma {:induction false} EncodeCharsShape(s: string, S: set<char>)
    requires forall c :: c in S ==> IsSpecial(c)
    ensures forall c :: c in S && c != '&' ==> c !in EncodeChars(s, S)
    decreases |s|
  {
    if |s| > 0 {
      EncodeCharsShape(s[1..], S);
      assert EncodeChars(s, S) == EncodeChar(s[0], S) + EncodeChars(s[1..], S);
    }
  }

  /** The escaped text has no '<', '>' or '"' left. */
  lemma EscapeHtmlNoMarkup(text: string)
    ensures '<' !in EscapeHtml(text) && '>' !in EscapeHtml(text) && '"' !in EscapeHtml(text)
  {
    EscapeHtmlEncodes(text);
    EncodeCharsShape(text, AllSpecials);
  }

  /** Occurrences of c in s. */
  function Count(s: string, c: char): (n: nat)
    ensures n <= |s|
  {
    if |s| == 0 then 0 else (if s[0] == c then 1 else 0) + Count(s[1..], c)
  }

  /** Each '&' grows by 4 characters, each '<' and '>' by 3, each '"' by 5. */
  lemma {:induction false} EncodeLength(s: string)
    ensures |EncodeChars(s, AllSpecials)| ==
      |s| + 4 * Count(s, '&') + 3 * Count(s, '<') + 3 * Count(s, '>') + 5 * Count(s, '"')
    decreases |s|
  {
    if |s| > 0 {
      EncodeLength(s[1..]);
      assert EncodeChars(s, AllSpecials) == EncodeChar(s[0], AllSpecials) + EncodeChars(s[1..], AllSpecials);
    }
  }

  lemma EscapeHtmlLength(text: string)
    ensures |EscapeHtml(text)| ==
      |text| + 4 * Count(text, '&') + 3 * Count(text, '<') + 3 * Count(text, '>') + 5 * Count(text, '"')
  {
    EscapeHtmlEncodes(text);
    EncodeLength(text);
  }

  /** Undoing the escaping: &quot;, &gt;, &lt;, then &amp;. */
  function UnescapeHtml(text: string): string {
    Replace(Replace(Replace(Replace(text, "&quot;", "\""), "&gt;", ">"), "&lt;", "<"), "&amp;", "&")
  }

  /** Entities start with '&', have no other '&', and differ from each other
      already in their second character. */
  lemma EntityShape(d: char, c: char)
    requires IsSpecial(d) && IsSpecial(c)
    ensures |Entity(d)| >= 4 && Entity(d)[0] == '&' && '&' !in Entity(d)[1..]
    ensures d != c ==> Entity(d)[1] != Entity(c)[1]
  {
  }

  lemma UnescapeOwn(c: char, rest: string)
    requires IsSpecial(c)
    ensures Replace(Entity(c) + rest, Entity(c), [c]) == [c] + Replace(rest, Entity(c), [c])
  {
    var pat := Entity(c);
    EntityShape(c, c);
    assert pat <= pat + rest;
    assert (pat + rest)[|pat|..] == rest;
  }

  lemma UnescapeOther(d: char, c: char, rest: string)
    requires IsSpecial(d) && IsSpecial(c) && d != c
    ensures Replace(Entity(d) + rest, Entity(c), [c]) == Entity(d) + Replace(rest, Entity(c), [c])
  {
    var pat, head := Entity(c), Entity(d);
    EntityShape(d, c);
    EntityShape(c, c);
    assert (head + rest)[1] == head[1];
    assert !(pat <= head + rest);
    assert (head + rest)[1..] == head[1..] + rest;
    ReplaceSkips(head[1..], rest, pat, [c]);
    assert head == [head[0]] + head[1..];
  }

  lemma UnescapePlain(d: char, c: char, rest: string)
    requires IsSpecial(c) && d != '&'
    ensures Replace([d] + rest, Entity(c), [c]) == [d] + Replace(rest, Entity(c), [c])
  {
    EntityShape(c, c);
    ReplaceSkips([d], rest, Entity(c), [c]);
  }

  /** One character's part of an un-escaping replace call. */
  lemma UnescapeStepHead(d: char, S: set<char>, c: char, rest: string)
    requires forall e :: e in S ==> IsSpecial(e)
    requires '&' in S && c in S
    ensures Replace(EncodeChar(d, S) + rest, Entity(c), [c]) == EncodeChar(d, S - {c}) + Replace(rest, Entity(c), [c])
  {
    if d == c {
      UnescapeOwn(c, rest);
    } else if d in S {
      UnescapeOther(d, c, rest);
    } else {
      UnescapePlain(d, c, rest);
    }
  }

  /** Removing one entity, while '&' is still escaped, un-escapes exactly
      that character: every '&' of the text starts an entity, and no entity
      starts another. */
  lemma {:induction false} UnescapeStep(s: string, S: set<char>, c: char)
    requires forall d :: d in S ==> IsSpecial(d)
    requires '&' in S && c in S
    ensures Replace(EncodeChars(s, S), Entity(c), [c]) == EncodeChars(s, S - {c})
    decreases |s|
  {
    if |s| > 0 {
      UnescapeStep(s[1..], S, c);
      assert EncodeChars(s, S) == EncodeChar(s[0], S) + EncodeChars(s[1..], S);
      UnescapeStepHead(s[0], S, c, EncodeChars(s[1..], S));
    } else {
      EntityShape(c, c);
    }
  }

  /** escape_html round-trips: because '&' is replaced first, undoing the
      entities in the opposite order gives the text back. */
  lemma EscapeHtmlRoundTrip(text: string)
    ensures UnescapeHtml(EscapeHtml(text)) == text
  {
    EscapeHtmlEncodes(text);
    UnescapeStep(text, AllSpecials, '"');
    assert AllSpecials - {'"'} == {'&', '<', '>'};
    UnescapeStep(text, {'&', '<', '>'}, '>');
    assert {'&', '<', '>'} - {'>'} == {'&', '<'};
    UnescapeStep(text, {'&', '<'}, '<');
    assert {'&', '<'} - {'<'} == {'&'};
    UnescapeStep(text, {'&'}, '&');
    assert {'&'} - {'&'} == {};
    EncodeNothing(text);
  }

  // ---------------------------------------------------------------------
  // message_regex.sub('', message.text)

  /** The tag handler's user message: the text without the bot's mentions. */
  function StripMention(text: string): string {
    Sub(Mention, text)
  }

  /** The mention pattern looks at no character before its start, so it
      matches the same way inside a longer text. */
  lemma {:induction false} CommaSpaceRunShift(a: string, y: string, j: nat)
    requires j <= |y|
    ensures CommaSpaceRun(a + y, |a| + j) == CommaSpaceRun(y, j)
    decreases |y| - j
  {
    if j < |y| {
      assert (a + y)[|a| + j] == y[j];
      CommaSpaceRunShift(a, y, j + 1);
    }
  }

  lemma MentionMatchShift(a: string, y: string, j: nat)
    requires j <= |y|
    ensures MatchAt(Mention, a + y, |a| + j).Some? == MatchAt(Mention, y, j).Some?
    ensures MatchAt(Mention, y, j).Some? ==>
      MatchAt(Mention, a + y, |a| + j).value == Match(|a| + MatchAt(Mention, y, j).value.end, "")
  {
    assert (a + y)[|a| + j..] == y[j..];
    if BotMention <= y[j..] {
      CommaSpaceRunShift(a, y, j + |BotMention|);
    }
  }

  lemma {:induction false} MentionSubShift(a: string, y: string, j: nat)
    requires j <= |y|
    ensures SubFrom(Mention, a + y, |a| + j) == SubFrom(Mention, y, j)
    decreases |y| - j
  {
    if j < |y| {
      assert (a + y)[|a| + j] == y[j];
      MentionMatchShift(a, y, j);
      match MatchAt(Mention, y, j)
      case Some(m) =>
        MentionSubShift(a, y, m.end);
      case None =>
        MentionSubShift(a, y, j + 1);
    }
  }

  /** A stretch where no mention starts is copied by the mention scan. */
  lemma {:induction false} MentionCopies(s: string, i: nat, n: nat)
    requires i <= n <= |s|
    requires forall k :: i <= k < n ==> !(BotMention <= s[k..])
    ensures SubFrom(Mention, s, i) == s[i..n] + SubFrom(Mention, s, n)
    decreases n - i
  {
    if i < n {
      NoMentionAt(s, i);
      MentionCopies(s, i + 1, n);
      assert s[i..n] == [s[i]] + s[i + 1..n];
    }
  }

  /** A character where no mention starts is copied by the mention scan. */
  lemma NoMentionAt(s: string, i: nat)
    requires i < |s| && !(BotMention <= s[i..])
    ensures SubFrom(Mention, s, i) == [s[i]] + SubFrom(Mention, s, i + 1)
  {
    assert MatchAt(Mention, s, i) == MentionAt(s, i) == None;
  }

  /** No mention of the bot starts inside x, even one running on into a
      mention right after it. Other '@' signs, such as another user's name
      or an e-mail address, may occur. */
  predicate MentionFree(x: string) {
    forall i :: 0 <= i < |x| ==> !(BotMention <= (x + BotMention)[i..])
  }

  /** A text without '@' is free of mentions. */
  lemma NoAtMentionFree(x: string)
    requires '@' !in x
    ensures MentionFree(x)
  {
    forall i | 0 <= i < |x| ensures !(BotMention <= (x + BotMention)[i..]) {
      assert (x + BotMention)[i..][0] == x[i];
      assert x[i] in x;
    }
  }

  /** The run of commas and whitespace at the start of sep + y is sep, when
      y does not start with another one. */
  lemma CommaSpaceRunOf(sep: string, y: string)
    requires forall k :: 0 <= k < |sep| ==> sep[k] == ',' || IsSpace(sep[k])
    requires |y| > 0 ==> y[0] != ',' && !IsSpace(y[0])
    ensures CommaSpaceRun(sep + y, 0) == |sep|
  {
    var s := sep + y;
    CommaSpaceRunShape(s, 0);
    assert forall k :: 0 <= k < |sep| ==> s[k] == sep[k];
    assert |y| > 0 ==> s[|sep|] == y[0];
  }

  /** A text that starts with a mention and its run of length n is
      stripped like the rest after them. */
  lemma MentionDeletedAtStart(r: string, n: nat)
    requires BotMention <= r && |BotMention| + n <= |r|
    requires CommaSpaceRun(r, |BotMention|) == n
    ensures StripMention(r) == StripMention(r[|BotMention| + n..])
  {
    var e := |BotMention| + n;
    MentionAtZero(r, n);
    SubFromSkip(Mention, r, 0, e);
    MentionSubSuffix(r, e);
  }

  /** The mention scan from e on is the scan of the suffix from e. */
  lemma MentionSubSuffix(s: string, e: nat)
    requires e <= |s|
    ensures SubFrom(Mention, s, e) == Sub(Mention, s[e..])
  {
    var a, b := s[..e], s[e..];
    assert s == a + b;
    MentionSubShift(a, b, 0);
  }

  lemma MentionAtZero(r: string, n: nat)
    requires BotMention <= r && |BotMention| + n <= |r|
    requires CommaSpaceRun(r, |BotMention|) == n
    ensures MatchAt(Mention, r, 0) == Some(Match(|BotMention| + n, ""))
  {
    assert r[0..] == r;
  }

  /** A match deleted at i lets the scan resume at its end. */
  lemma SubFromSkip(p: Pattern, s: string, i: nat, e: nat)
    requires i < |s| && MatchAt(p, s, i) == Some(Match(e, ""))
    ensures SubFrom(p, s, i) == SubFrom(p, s, e)
  {
  }

  /** A mention at the start is deleted with the run after it. */
  lemma MentionAtStart(sep: string, y: string)
    requires forall k :: 0 <= k < |sep| ==> sep[k] == ',' || IsSpace(sep[k])
    requires |y| > 0 ==> y[0] != ',' && !IsSpace(y[0])
    ensures StripMention(BotMention + sep + y) == StripMention(y)
  {
    var r := BotMention + sep + y;
    assert r == BotMention + (sep + y);
    CommaSpaceRunOf(sep, y);
    CommaSpaceRunShift(BotMention, sep + y, 0);
    assert r[|BotMention| + |sep|..] == y;
    MentionDeletedAtStart(r, |sep|);
  }

  /** Text in which no mention starts is kept as it is. */
  lemma StripMentionPrefix(x: string, r: string)
    requires forall i :: 0 <= i < |x| ==> !(BotMention <= (x + r)[i..])
    ensures StripMention(x + r) == x + StripMention(r)
  {
    var s := x + r;
    assert forall k :: 0 <= k < |x| ==> s[k] == x[k];
    MentionCopies(s, 0, |x|);
    assert s[0..|x|] == x;
    MentionSubShift(x, r, 0);
  }

  /** A mention starting at i in a + b lies within a when a has room for it
      from i on. */
  lemma MentionPrefixOf(a: string, b: string, i: nat)
    requires i + |BotMention| <= |a|
    ensures BotMention <= (a + b)[i..] <==> BotMention <= a[i..]
  {
    assert (a + b)[i..][..|BotMention|] == a[i..][..|BotMention|];
  }

  /** A message that mentions another user before the bot keeps that part. */
  lemma StripMentionOtherUser()
    ensures StripMention("@alice " + BotMention + ", hi") == "@alice hi"
  {
    var x := "@alice ";
    forall i | 0 <= i < |x| ensures !(BotMention <= (x + BotMention)[i..]) {
      if i == 0 {
        assert (x + BotMention)[0..][1] == 'a' != BotMention[1];
      } else {
        assert (x + BotMention)[i..][0] == x[i] != '@';
      }
    }
    StripMentionDeletes(x, ", ", "hi");
    StripMentionNoAt("hi");
    assert x + BotMention + ", " + "hi" == "@alice " + BotMention + ", hi";
  }

  /** Mention stripping deletes the bot's name together with the commas and
      whitespace right after it, and keeps the text around it. */
  lemma StripMentionDeletes(x: string, sep: string, y: string)
    requires MentionFree(x)
    requires forall k :: 0 <= k < |sep| ==> sep[k] == ',' || IsSpace(sep[k])
    requires |y| > 0 ==> y[0] != ',' && !IsSpace(y[0])
    ensures StripMention(x + BotMention + sep + y) == x + StripMention(y)
  {
    var r := BotMention + sep + y;
    assert x + BotMention + sep + y == x + r;
    forall i | 0 <= i < |x| ensures !(BotMention <= (x + r)[i..]) {
      MentionPrefixOf(x + BotMention, sep + y, i);
      assert x + r == (x + BotMention) + (sep + y);
    }
    StripMentionPrefix(x, r);
    MentionAtStart(sep, y);
  }

  /** A message without '@' is left as it is. */
  lemma StripMentionNoAt(text: string)
    requires '@' !in text
    ensures StripMention(text) == text
  {
    forall k | 0 <= k < |text| ensures !(BotMention <= text[k..]) {
      assert text[k..][0] == text[k];
      assert text[k] in text;
    }
    MentionCopies(text, 0, |text|);
    assert text[0..|text|] == text;
  }

  // ---------------------------------------------------------------------
  // retrival_query_regex.findall(reply_to_message)[0]

  const QuestionMark: string := "Вопрос: "
  const QuestionEnd: string := " \n\n"

  /** p occurs in s at position i. */
  predicate OccursAt(s: string, p: string, i: nat) {
    i <= |s| && p <= s[i..]
  }

  /** The first position from i on at which p occurs. */
  function FindFrom(s: string, p: string, i: nat): (r: Option<nat>)
    requires i <= |s|
    ensures r.Some? ==> i <= r.value <= |s| && OccursAt(s, p, r.value)
    ensures forall j :: i <= j <= |s| && (r.None? || j < r.value) ==> !OccursAt(s, p, j)
    decreases |s| - i
  {
    if p <= s[i..] then Some(i)
    else if i == |s| then None
    else FindFrom(s, p, i + 1)
  }

  /** `Вопрос: (.*?) \n\n` matches at i with a capture of length k (DOTALL:
      the capture may hold any character). */
  ghost predicate QuestionMatch(s: string, i: nat, k: nat) {
    OccursAt(s, QuestionMark, i) && OccursAt(s, QuestionEnd, i + |QuestionMark| + k)
  }

  /** Where the first match starts and how long its capture is. */
  datatype Span = Span(start: nat, len: nat)

  /** The first match of the pattern: the leftmost start, and there the
      shortest capture, as the lazy `.*?` takes. */
  function FirstQuestionSpan(s: string): (r: Option<Span>)
    ensures r.Some? ==> QuestionMatch(s, r.value.start, r.value.len)
  {
    match FindFrom(s, QuestionMark, 0)
    case None => None
    case Some(i) =>
      if i + |QuestionMark| > |s| then None
      else match FindFrom(s, QuestionEnd, i + |QuestionMark|)
        case None => None
        case Some(j) => Some(Span(i, j - i - |QuestionMark|))
  }

  /** The span is exactly the one the regular-expression engine reports: no
      match starts further left, none at the same start has a shorter
      capture, and there is none at all when the span is missing. */
  lemma FirstQuestionSpanIsLeftmostLazy(s: string)
    ensures FirstQuestionSpan(s).None? ==> forall i: nat, k: nat :: !QuestionMatch(s, i, k)
    ensures FirstQuestionSpan(s).Some? ==> forall i: nat, k: nat :: QuestionMatch(s, i, k) ==>
      var sp := FirstQuestionSpan(s).value;
      sp.start < i || (sp.start == i && sp.len <= k)
  {
    forall i: nat, k: nat | QuestionMatch(s, i, k)
      ensures FirstQuestionSpan(s).Some?
      ensures var sp := FirstQuestionSpan(s).value; sp.start < i || (sp.start == i && sp.len <= k)
    {
      var first := FindFrom(s, QuestionMark, 0);
      assert first.Some?;
      var i0 := first.value;
      assert i0 <= i;
      assert i0 + |QuestionMark| <= |s|;
      var second := FindFrom(s, QuestionEnd, i0 + |QuestionMark|);
      assert second.Some? && second.value <= i + |QuestionMark| + k;
    }
  }

  /** The text of the first match's capture, or None where findall finds
      nothing and [0] raises IndexError. */
  function ExtractQuestion(reply: string): (r: Option<string>)
    ensures r.Some? <==> exists i: nat, k: nat :: QuestionMatch(reply, i, k)
    ensures r.Some? ==> var sp := FirstQuestionSpan(reply).value;
      && QuestionMatch(reply, sp.start, |r.value|)
      && r.value == reply[sp.start + |QuestionMark|..][..sp.len]
  {
    FirstQuestionSpanIsLeftmostLazy(reply);
    match FirstQuestionSpan(reply)
    case None => None
    case Some(sp) =>
      var from := sp.start + |QuestionMark|;
      Some(reply[from..from + sp.len])
  }

  /** The capture is the text right after "Вопрос: " up to the first " \n\n"
      after it: the capture and the terminator occur together, and the
      terminator does not occur earlier. */
  lemma ExtractQuestionShape(reply: string)
    requires ExtractQuestion(reply).Some?
    ensures exists i: nat :: OccursAt(reply, QuestionMark + ExtractQuestion(reply).value + QuestionEnd, i)
    ensures var t := ExtractQuestion(reply).value + QuestionEnd;
      forall j :: 0 <= j < |t| - |QuestionEnd| ==> !(QuestionEnd <= t[j..])
  {
    var sp := FirstQuestionSpan(reply).value;
    var q := ExtractQuestion(reply).value;
    var from := sp.start + |QuestionMark|;
    assert q == reply[from..from + sp.len];
    OccursInSequence(reply, QuestionMark, q, QuestionEnd, sp.start);
    NoEarlierEnd(reply, from, q);
  }

  /** Three pieces found one after the other form their concatenation. */
  lemma OccursInSequence(s: string, a: string, b: string, c: string, i: nat)
    requires OccursAt(s, a, i) && OccursAt(s, c, i + |a| + |b|)
    requires i + |a| + |b| <= |s| && s[i + |a|..i + |a| + |b|] == b
    ensures OccursAt(s, a + b + c, i)
  {
    var w := a + b + c;
    assert s[i..][..|w|] == w by {
      forall k | 0 <= k < |w| ensures s[i..][k] == w[k] {
        if k < |a| {
          assert s[i..][k] == s[i..][..|a|][k];
        } else if k < |a| + |b| {
          assert s[i..][k] == s[i + |a|..i + |a| + |b|][k - |a|];
        } else {
          assert s[i..][k] == s[i + |a| + |b|..][k - |a| - |b|];
          assert s[i + |a| + |b|..][..|c|][k - |a| - |b|] == c[k - |a| - |b|];
        }
      }
    }
  }

  /** The capture, found by FindFrom from position from, holds no earlier
      terminator. */
  lemma NoEarlierEnd(reply: string, from: nat, q: string)
    requires from + |q| <= |reply| && q == reply[from..from + |q|]
    requires OccursAt(reply, QuestionEnd, from + |q|)
    requires forall j :: from <= j < from + |q| ==> !OccursAt(reply, QuestionEnd, j)
    ensures forall j :: 0 <= j < |q| ==> !(QuestionEnd <= (q + QuestionEnd)[j..])
  {
    var t := q + QuestionEnd;
    assert t == reply[from..from + |t|] by {
      assert reply[from + |q|..][..|QuestionEnd|] == QuestionEnd;
    }
    forall j | 0 <= j < |q| ensures !(QuestionEnd <= t[j..]) {
      assert t[j..] == reply[from + j..from + |t|];
      assert !OccursAt(reply, QuestionEnd, from + j);
    }
  }

  datatype AnswerError =
    | NoQuestionInReply        // findall(...)[0] raises IndexError
    | RankingFailed(error: RankError)

  /** The query given to the retriever and to the ranking: the user message
      itself, or in reply mode the question of the replied-to answer followed
      by the escaped new message. */
  function RetrievalQuery(userMessage: string, replyTo: Option<string>): (r: Result<string, AnswerError>)
    ensures replyTo.None? ==> r == Ok(userMessage)
    ensures replyTo.Some? ==> (r.Err? <==> ExtractQuestion(replyTo.value).None?)
    ensures r.Err? ==> r.error == NoQuestionInReply
  {
    match replyTo
    case None => Ok(userMessage)
    case Some(reply) =>
      match ExtractQuestion(reply)
      case None => Err(NoQuestionInReply)
      case Some(q) => Ok(q + EscapeHtml(userMessage))
  }

  // ---------------------------------------------------------------------
  // The link block and the final template

  /** One retrieved node: its text and the url and title in its metadata. */
  datatype SourceNode = SourceNode(text: string, url: string, title: string)

  /** f'&#x25CF; <a href="{url}">{escape_html(title)}</a>'. */
  function LinkLine(url: string, title: string): string {
    "&#x25CF; <a href=\"" + url + "\">" + EscapeHtml(title) + "</a>"
  }

  function NodeLines(nodes: seq<SourceNode>): (r: seq<string>)
    ensures |r| == |nodes| && forall k :: 0 <= k < |r| ==> r[k] == LinkLine(nodes[k].url, nodes[k].title)
  {
    seq(|nodes|, k requires 0 <= k < |nodes| => LinkLine(nodes[k].url, nodes[k].title))
  }

  function RankedLines(links: seq<Link>): (r: seq<string>)
    ensures |r| == |links| && forall k :: 0 <= k < |r| ==> r[k] == LinkLine(links[k].link, links[k].title)
  {
    seq(|links|, k requires 0 <= k < |links| => LinkLine(links[k].link, links[k].title))
  }

  /** The lines of urls_rag_youtube_itmo | urls_cybertolya, each once. */
  function LinkLines(nodes: seq<SourceNode>, ranked: seq<Link>): seq<string> {
    Dedup(NodeLines(nodes) + RankedLines(ranked))
  }

  /** The link block is the union of both sets of lines, with no line twice. */
  lemma LinkLinesUnion(nodes: seq<SourceNode>, ranked: seq<Link>)
    ensures NoDuplicates(LinkLines(nodes, ranked))
    ensures Elements(LinkLines(nodes, ranked)) == Elements(NodeLines(nodes)) + Elements(RankedLines(ranked))
    ensures forall n :: n in nodes ==> LinkLine(n.url, n.title) in LinkLines(nodes, ranked)
    ensures forall l :: l in ranked ==> LinkLine(l.link, l.title) in LinkLines(nodes, ranked)
  {
    var a, b := NodeLines(nodes), RankedLines(ranked);
    assert Elements(a + b) == Elements(a) + Elements(b);
    forall n | n in nodes ensures LinkLine(n.url, n.title) in LinkLines(nodes, ranked) {
      var k :| 0 <= k < |nodes| && nodes[k] == n;
      assert a[k] in Elements(a);
    }
    forall l | l in ranked ensures LinkLine(l.link, l.title) in LinkLines(nodes, ranked) {
      var k :| 0 <= k < |ranked| && ranked[k] == l;
      assert b[k] in Elements(b);
    }
  }

  const Apology: string :=
    "К сожалению, я не могу ответить на этот вопрос, основываясь на роликах с YouTube-канала, но могу сам ответить на него.\n"

  const MoreHeader: string := "<b>Подробнее здесь:</b> \n\n"

  /** The verdict the evaluation call must give for the retrieved context to
      be used. */
  predicate ContextIsValid(verdict: string) {
    Strip(verdict) == "YES"
  }

  /** The opening of every answer: the escaped question. */
  function Heading(userMessage: string): string {
    "<b>Вопрос:</b> <i>" + EscapeHtml(userMessage) + "</i> \n\n" + "<b>Ответ:</b> "
  }

  /** The template of the final answer around the main response and the
      extended part. */
  function Template(userMessage: string, main: string, extended: string): string {
    Heading(userMessage) + main + " \n\n" + extended
  }

  /** answer(): verdict is the evaluation call's reply, contextReply and
      plainReply the replies to the context prompt and to the bare message;
      nodes are the retriever's source nodes and ranked the re-ranking's
      result: what Ranking.PredictWithTrainedModel returns for the nodes
      retrieved with the query RetrievalQuery gives (a method, so it enters
      here as its result). */
  function Answer(userMessage: string, replyTo: Option<string>, nodes: seq<SourceNode>,
                  ranked: Result<seq<Link>, RankError>, verdict: string,
                  contextReply: string, plainReply: string): Result<string, AnswerError>
  {
    match RetrievalQuery(userMessage, replyTo)
    case Err(e) => Err(e)
    case Ok(_) =>
      match ranked
      case Err(e) => Err(RankingFailed(e))
      case Ok(links) =>
        var block := Join(LinkLines(nodes, links), "\n");
        if ContextIsValid(verdict) then Ok(Template(userMessage, contextReply, MoreHeader + block))
        else Ok(Template(userMessage, Apology + plainReply, ""))
  }

  /** Links and the context answer are used only when the verdict is YES;
      otherwise the answer is the apology and the plain reply, whatever was
      retrieved. */
  lemma AnswerIgnoresContextUnlessYes(userMessage: string, replyTo: Option<string>,
                                      nodes1: seq<SourceNode>, nodes2: seq<SourceNode>,
                                      links1: seq<Link>, links2: seq<Link>, verdict: string,
                                      contextReply1: string, contextReply2: string, plainReply: string)
    requires !ContextIsValid(verdict)
    ensures Answer(userMessage, replyTo, nodes1, Ok(links1), verdict, contextReply1, plainReply)
         == Answer(userMessage, replyTo, nodes2, Ok(links2), verdict, contextReply2, plainReply)
    ensures RetrievalQuery(userMessage, replyTo).Ok? ==>
      var r := Answer(userMessage, replyTo, nodes1, Ok(links1), verdict, contextReply1, plainReply);
      && r.Ok?
      && r.value == Heading(userMessage) + Apology + plainReply + " \n\n"
  {
  }

  /** With a YES verdict the plain reply is not used, and the answer ends
      with the header and every link line. */
  lemma AnswerWithContext(userMessage: string, replyTo: Option<string>, nodes: seq<SourceNode>,
                          links: seq<Link>, verdict: string, contextReply: string,
                          plainReply1: string, plainReply2: string)
    requires ContextIsValid(verdict) && RetrievalQuery(userMessage, replyTo).Ok?
    ensures Answer(userMessage, replyTo, nodes, Ok(links), verdict, contextReply, plainReply1)
         == Answer(userMessage, replyTo, nodes, Ok(links), verdict, contextReply, plainReply2)
    ensures var r := Answer(userMessage, replyTo, nodes, Ok(links), verdict, contextReply, plainReply1);
      && r.Ok?
      && r.value == Heading(userMessage) + contextReply + " \n\n" + MoreHeader + Join(LinkLines(nodes, links), "\n")
  {
  }

  /** The answer is missing exactly when the reply has no question in it or
      the ranking raised. */
  lemma AnswerErrors(userMessage: string, replyTo: Option<string>, nodes: seq<SourceNode>,
                     ranked: Result<seq<Link>, RankError>, verdict: string,
                     contextReply: string, plainReply: string)
    ensures Answer(userMessage, replyTo, nodes, ranked, verdict, contextReply, plainReply).Err?
      <==> (replyTo.Some? && ExtractQuestion(replyTo.value).None?) || ranked.Err?
  {
  }
}
