/**
 * Python's string primitives as the modelled scripts use them: whitespace,
 * str.split() with no separator, str.strip(), str.join(), str.replace(),
 * str.startswith() and str.endswith().
 */
module Text {

  /** str.isspace() for one character. Python's str.split(), str.strip() and
      the regular-expression class \s all use this set. */
  predicate IsSpace(c: char) {
    c == ' ' || ('\t' <= c <= '\r') || ('\U{1C}' <= c <= '\U{1F}')
    || c == '\U{85}' || c == '\U{A0}' || c == '\U{1680}'
    || ('\U{2000}' <= c <= '\U{200A}') || c == '\U{2028}' || c == '\U{2029}'
    || c == '\U{202F}' || c == '\U{205F}' || c == '\U{3000}'
  }

  /** A non-empty string without whitespace: what str.split() yields. */
  predicate IsWord(w: string) {
    |w| > 0 && forall k :: 0 <= k < |w| ==> !IsSpace(w[k])
  }

  predicate AllSpace(s: string) {
    forall k :: 0 <= k < |s| ==> IsSpace(s[k])
  }

  /** Length of the run of non-whitespace characters at the front of s. */
  function WordLen(s: string): (n: nat)
    ensures n <= |s|
    ensures forall k :: 0 <= k < n ==> !IsSpace(s[k])
    ensures n < |s| ==> IsSpace(s[n])
  {
    if |s| == 0 || IsSpace(s[0]) then 0 else 1 + WordLen(s[1..])
  }

  /** s.split(): the maximal runs of non-whitespace characters, in order. */
  function Words(s: string): seq<string>
    decreases |s|
  {
    if |s| == 0 then []
    else if IsSpace(s[0]) then Words(s[1..])
    else
      var n := WordLen(s);
      [s[..n]] + Words(s[n..])
  }

  /** Every piece s.split() returns is a non-empty run of non-whitespace
      characters of s. */
  lemma {:induction false} WordsAreWords(s: string)
    ensures forall w :: w in Words(s) ==> IsWord(w)
    ensures forall w, c :: w in Words(s) && c in w ==> c in s
    decreases |s|
  {
    if |s| == 0 {
    } else if IsSpace(s[0]) {
      WordsAreWords(s[1..]);
    } else {
      var n := WordLen(s);
      WordsAreWords(s[n..]);
      forall w, c | w in Words(s) && c in w ensures c in s {
        if w == s[..n] {
          assert c in s[..n];
        } else {
          assert w in Words(s[n..]);
          assert c in s[n..];
        }
      }
    }
  }

  /** Splitting a whitespace-only string yields nothing. */
  lemma {:induction false} WordsOfSpace(s: string)
    requires AllSpace(s)
    ensures Words(s) == []
    decreases |s|
  {
    if |s| > 0 {
      WordsOfSpace(s[1..]);
    }
  }

  /** A word splits into itself. */
  lemma WordsOfWord(w: string)
    requires IsWord(w)
    ensures Words(w) == [w]
  {
    WordLenOfWord(w);
    assert w[..|w|] == w;
    assert w[|w|..] == [];
  }

  lemma {:induction false} WordLenOfWord(w: string)
    requires forall k :: 0 <= k < |w| ==> !IsSpace(w[k])
    ensures WordLen(w) == |w|
    decreases |w|
  {
    if |w| > 0 {
      WordLenOfWord(w[1..]);
    }
  }

  /** a and b cannot share a word when they are concatenated. */
  predicate Separated(a: string, b: string) {
    |a| == 0 || |b| == 0 || IsSpace(a[|a| - 1]) || IsSpace(b[0])
  }

  lemma {:induction false} WordLenAppend(a: string, b: string)
    requires |a| > 0 && Separated(a, b)
    ensures WordLen(a + b) == WordLen(a)
    decreases |a|
  {
    assert (a + b)[0] == a[0];
    if !IsSpace(a[0]) {
      assert (a + b)[1..] == a[1..] + b;
      if |a| > 1 {
        WordLenAppend(a[1..], b);
      }
    }
  }

  /** Splitting distributes over a concatenation whose seam is whitespace. */
  lemma {:induction false} WordsAppend(a: string, b: string)
    requires Separated(a, b)
    ensures Words(a + b) == Words(a) + Words(b)
    decreases |a|
  {
    if |a| == 0 {
      assert a + b == b;
    } else if IsSpace(a[0]) {
      SpaceAppend(a, b);
      WordsAppend(a[1..], b);
    } else {
      var n := WordLen(a);
      WordAppend(a, b);
      WordsAppend(a[n..], b);
      WordsOfWordStart(a);
      Regroup(Words(a + b), a[..n], Words(a[n..]), Words(b), Words(a));
    }
  }

  /** Leading whitespace of a is leading whitespace of a + b. */
  lemma SpaceAppend(a: string, b: string)
    requires |a| > 0 && IsSpace(a[0]) && Separated(a, b)
    ensures Words(a + b) == Words(a[1..] + b) && Words(a) == Words(a[1..])
    ensures Separated(a[1..], b)
  {
    assert (a + b)[0] == a[0];
    assert (a + b)[1..] == a[1..] + b;
  }

  /** The first word of a is the first word of a + b. */
  lemma WordAppend(a: string, b: string)
    requires |a| > 0 && !IsSpace(a[0]) && Separated(a, b)
    ensures WordLen(a) > 0
    ensures Words(a + b) == [a[..WordLen(a)]] + Words(a[WordLen(a)..] + b)
    ensures Separated(a[WordLen(a)..], b)
  {
    var n := WordLen(a);
    WordLenAppend(a, b);
    assert (a + b)[0] == a[0];
    assert (a + b)[..n] == a[..n];
    assert (a + b)[n..] == a[n..] + b;
  }

  /** A string that starts with a word splits into that word and the rest. */
  lemma WordsOfWordStart(s: string)
    requires |s| > 0 && !IsSpace(s[0])
    ensures Words(s) == [s[..WordLen(s)]] + Words(s[WordLen(s)..])
  {
  }

  lemma Regroup<T>(x: seq<T>, w: T, ws: seq<T>, vs: seq<T>, y: seq<T>)
    requires x == [w] + (ws + vs) && y == [w] + ws
    ensures x == y + vs
  {
  }

  /** Appending " " + t to any string appends the words of t. */
  lemma WordsAppendSpaced(a: string, t: string)
    ensures Words(a + (" " + t)) == Words(a) + Words(t)
  {
    WordsAppend(a, " " + t);
    assert (" " + t)[1..] == t;
  }

  /** str.lstrip(): drops leading whitespace. */
  function LStrip(s: string): string {
    if |s| > 0 && IsSpace(s[0]) then LStrip(s[1..]) else s
  }

  /** str.rstrip(): drops trailing whitespace. */
  function RStrip(s: string): string {
    if |s| > 0 && IsSpace(s[|s| - 1]) then RStrip(s[..|s| - 1]) else s
  }

  /** str.strip(): drops leading and trailing whitespace. */
  function Strip(s: string): string {
    RStrip(LStrip(s))
  }

  /** lstrip() removes a whitespace-only prefix and nothing else. */
  lemma {:induction false} LStripShape(s: string)
    ensures |LStrip(s)| <= |s| && LStrip(s) == s[|s| - |LStrip(s)|..]
    ensures |LStrip(s)| > 0 ==> !IsSpace(LStrip(s)[0])
    ensures AllSpace(s[..|s| - |LStrip(s)|])
    decreases |s|
  {
    if |s| > 0 && IsSpace(s[0]) {
      LStripShape(s[1..]);
      var r := LStrip(s);
      assert s[1..][..|s| - 1 - |r|] == s[1..|s| - |r|];
    }
  }

  /** rstrip() removes a whitespace-only suffix and nothing else. */
  lemma {:induction false} RStripShape(s: string)
    ensures |RStrip(s)| <= |s| && RStrip(s) == s[..|RStrip(s)|]
    ensures |RStrip(s)| > 0 ==> !IsSpace(RStrip(s)[|RStrip(s)| - 1])
    ensures AllSpace(s[|RStrip(s)|..])
    decreases |s|
  {
    if |s| > 0 && IsSpace(s[|s| - 1]) {
      var init := s[..|s| - 1];
      RStripShape(init);
      var n := |RStrip(init)|;
      assert s[n..] == init[n..] + [s[|s| - 1]];
      assert forall k :: 0 <= k < |s| - n ==> s[n..][k] == if k < |init| - n then init[n..][k] else s[|s| - 1];
    }
  }

  /** strip() leaves no whitespace at either end. */
  lemma StripShape(s: string)
    ensures |Strip(s)| <= |s|
    ensures |Strip(s)| > 0 ==> !IsSpace(Strip(s)[0]) && !IsSpace(Strip(s)[|Strip(s)| - 1])
  {
    LStripShape(s);
    RStripShape(LStrip(s));
  }

  /** strip() removes only whitespace. */
  lemma StripKeepsNonSpace(s: string, c: char)
    requires c in s && !IsSpace(c)
    ensures c in Strip(s)
  {
    var l := LStrip(s);
    LStripShape(s);
    RStripShape(l);
    var k :| 0 <= k < |s| && s[k] == c;
    var d := |s| - |l|;
    assert k >= d by {
      assert forall j :: 0 <= j < d ==> s[..d][j] == s[j];
    }
    var r := RStrip(l);
    assert k - d < |r| by {
      assert forall j :: |r| <= j < |l| ==> l[|r|..][j - |r|] == l[j];
    }
    assert r[k - d] == c;
  }

  /** Stripping twice is stripping once. */
  lemma StripIdempotent(s: string)
    ensures Strip(Strip(s)) == Strip(s)
  {
    StripShape(s);
  }

  lemma {:induction false} LStripEmptyIff(s: string)
    ensures LStrip(s) == "" <==> AllSpace(s)
    decreases |s|
  {
    if |s| > 0 && IsSpace(s[0]) {
      LStripEmptyIff(s[1..]);
    }
  }

  /** Exactly the whitespace-only strings strip to "". */
  lemma StripEmptyIff(s: string)
    ensures Strip(s) == "" <==> AllSpace(s)
  {
    var l := LStrip(s);
    LStripEmptyIff(s);
    LStripShape(s);
    RStripShape(l);
    if l != "" {
      assert l[0..] == l;
    }
  }

  lemma {:induction false} WordsLStrip(s: string)
    ensures Words(LStrip(s)) == Words(s)
    decreases |s|
  {
    if |s| > 0 && IsSpace(s[0]) {
      WordsLStrip(s[1..]);
    }
  }

  lemma {:induction false} WordsRStrip(s: string)
    ensures Words(RStrip(s)) == Words(s)
    decreases |s|
  {
    if |s| > 0 && IsSpace(s[|s| - 1]) {
      var p := s[..|s| - 1];
      assert s == p + [s[|s| - 1]];
      WordsAppend(p, [s[|s| - 1]]);
      WordsOfSpace([s[|s| - 1]]);
      WordsRStrip(p);
    }
  }

  /** Stripping never changes the words of a string. */
  lemma WordsStrip(s: string)
    ensures Words(Strip(s)) == Words(s)
  {
    WordsLStrip(s);
    WordsRStrip(LStrip(s));
  }

  /** sep.join(ws). */
  function Join(ws: seq<string>, sep: string): string {
    if |ws| == 0 then ""
    else if |ws| == 1 then ws[0]
    else ws[0] + sep + Join(ws[1..], sep)
  }

  /** Joining words with single spaces and splitting again gives the words back. */
  lemma {:induction false} WordsOfJoin(ws: seq<string>)
    requires forall w :: w in ws ==> IsWord(w)
    ensures Words(Join(ws, " ")) == ws
    decreases |ws|
  {
    if |ws| == 1 {
      WordsOfWord(ws[0]);
    } else if |ws| > 1 {
      var rest := Join(ws[1..], " ");
      assert Join(ws, " ") == ws[0] + (" " + rest);
      WordsAppendSpaced(ws[0], rest);
      WordsOfWord(ws[0]);
      WordsOfJoin(ws[1..]);
      assert ws == [ws[0]] + ws[1..];
    }
  }

  /** s.startswith(p). */
  predicate StartsWith(s: string, p: string) {
    p <= s
  }

  /** s.endswith(p). */
  predicate EndsWith(s: string, p: string) {
    |p| <= |s| && s[|s| - |p|..] == p
  }

  /** s.replace(pat, rep) for a non-empty pat: every occurrence of pat, found
      left to right without overlap, is replaced by rep. */
  function Replace(s: string, pat: string, rep: string): string
    requires |pat| > 0
    decreases |s|
  {
    if |s| == 0 then ""
    else if pat <= s then rep + Replace(s[|pat|..], pat, rep)
    else [s[0]] + Replace(s[1..], pat, rep)
  }

  /** Characters before the first occurrence of a pattern character are
      copied unchanged by Replace. */
  lemma {:induction false} ReplaceSkips(x: string, y: string, pat: string, rep: string)
    requires |pat| > 0 && pat[0] !in x
    ensures Replace(x + y, pat, rep) == x + Replace(y, pat, rep)
    decreases |x|
  {
    if |x| > 0 {
      assert (x + y)[0] == x[0];
      assert !(pat <= x + y);
      assert (x + y)[1..] == x[1..] + y;
      ReplaceSkips(x[1..], y, pat, rep);
    } else {
      assert x + y == y;
    }
  }
}
