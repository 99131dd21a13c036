/**
 * The handful of Python `str` operations dcj relies on, over ASCII:
 * `isspace`, `strip`/`lstrip`/`rstrip`, `lower`, `isalnum`, `startswith`,
 * `endswith`, `split("=", 1)` and `replace`.
 */
module Text {

  /** Python's `str.isspace` on ASCII: tab, line feed, vertical tab, form feed,
      carriage return, the four information separators (0x1C-0x1F) and space. */
  predicate IsSpace(c: char) {
    9 <= c as int <= 13 || 28 <= c as int <= 32
  }

  /** Python's `str.isalnum` on ASCII. */
  predicate IsAlnum(c: char) {
    'a' <= c <= 'z' || 'A' <= c <= 'Z' || '0' <= c <= '9'
  }

  predicate StartsWith(s: string, prefix: string) {
    |prefix| <= |s| && s[..|prefix|] == prefix
  }

  predicate EndsWith(s: string, suffix: string) {
    |suffix| <= |s| && s[|s| - |suffix|..] == suffix
  }

  /** `s.lstrip()`: the suffix of `s` left after dropping leading whitespace. */
  function LStrip(s: string): (r: string)
    ensures |r| <= |s| && r == s[|s| - |r|..]
    ensures r == [] || !IsSpace(r[0])
    ensures forall i :: 0 <= i < |s| - |r| ==> IsSpace(s[i])
    decreases |s|
  {
    if s != [] && IsSpace(s[0]) then LStrip(s[1..]) else s
  }

  /** `s.rstrip()`: the prefix of `s` left after dropping trailing whitespace. */
  function RStrip(s: string): (r: string)
    ensures |r| <= |s| && r == s[..|r|]
    ensures r == [] || !IsSpace(r[|r| - 1])
    ensures forall i :: |r| <= i < |s| ==> IsSpace(s[i])
    decreases |s|
  {
    if s != [] && IsSpace(s[|s| - 1]) then RStrip(s[..|s| - 1]) else s
  }

  predicate AllSpace(s: string) {
    forall i :: 0 <= i < |s| ==> IsSpace(s[i])
  }

  /** `s.strip()`. */
  function Strip(s: string): string {
    RStrip(LStrip(s))
  }

  /** `lstrip` removes exactly a leading run of whitespace. */
  lemma LStripExact(sp: string, t: string)
    requires AllSpace(sp) && (t == [] || !IsSpace(t[0]))
    ensures LStrip(sp + t) == t
  {
    var s := sp + t;
    var r := LStrip(s);
    assert forall i :: 0 <= i < |sp| ==> s[i] == sp[i];
    assert t != [] ==> s[|sp|] == t[0];
    assert s[|sp|..] == t;
  }

  /** `rstrip` removes exactly a trailing run of whitespace. */
  lemma RStripExact(t: string, sp: string)
    requires AllSpace(sp) && (t == [] || !IsSpace(t[|t| - 1]))
    ensures RStrip(t + sp) == t
  {
    var s := t + sp;
    var r := RStrip(s);
    assert forall i :: |t| <= i < |s| ==> s[i] == sp[i - |t|];
    assert t != [] ==> s[|t| - 1] == t[|t| - 1];
    assert s[..|t|] == t;
  }

  /** `strip` removes exactly the whitespace around a text that neither starts
      nor ends with whitespace. */
  lemma StripExact(sp1: string, t: string, sp2: string)
    requires AllSpace(sp1) && AllSpace(sp2)
    requires t == [] || (!IsSpace(t[0]) && !IsSpace(t[|t| - 1]))
    ensures Strip(sp1 + t + sp2) == t
  {
    if t == [] {
      assert sp1 + t + sp2 == (sp1 + sp2) + [];
      LStripExact(sp1 + sp2, []);
    } else {
      assert sp1 + t + sp2 == sp1 + (t + sp2);
      assert (t + sp2)[0] == t[0];
      LStripExact(sp1, t + sp2);
      RStripExact(t, sp2);
    }
  }

  /** A text that neither starts nor ends with whitespace is its own `strip`. */
  lemma StripKeeps(t: string)
    requires t != [] && !IsSpace(t[0]) && !IsSpace(t[|t| - 1])
    ensures Strip(t) == t
  {
  }

  lemma StripTrailing(t: string, sp: string)
    requires t != [] && !IsSpace(t[0]) && !IsSpace(t[|t| - 1]) && AllSpace(sp)
    ensures Strip(t + sp) == t
  {
    assert (t + sp)[0] == t[0];
    RStripExact(t, sp);
  }

  lemma StripLeading(sp: string, t: string)
    requires t != [] && !IsSpace(t[0]) && !IsSpace(t[|t| - 1]) && AllSpace(sp)
    ensures Strip(sp + t) == t
  {
    LStripExact(sp, t);
  }

  /** `c.lower()` on ASCII. */
  function LowerChar(c: char): char {
    if 'A' <= c <= 'Z' then (c as int + 32) as char else c
  }

  /** `s.lower()` on ASCII: same length, each character lowered. */
  function Lower(s: string): string {
    seq(|s|, i requires 0 <= i < |s| => LowerChar(s[i]))
  }

  /** Index of the first `c` in `s`, or `|s|` when `s` holds none. */
  function IndexOf(s: string, c: char): (k: nat)
    ensures k <= |s|
    ensures k < |s| ==> s[k] == c
    ensures forall j :: 0 <= j < k ==> s[j] != c
    decreases |s|
  {
    if s == [] then 0 else if s[0] == c then 0 else 1 + IndexOf(s[1..], c)
  }

  /** `s.split(c, 1)[1]`: what follows the first `c` (empty when there is none,
      a case dcj never reaches). */
  function AfterFirst(s: string, c: char): string {
    var k := IndexOf(s, c);
    if k < |s| then s[k + 1..] else []
  }

  /** A token `flag + "=" + v` splits back into `v`, as long as the flag holds no `=`. */
  lemma AfterFirstJoined(flag: string, v: string)
    requires '=' !in flag
    ensures AfterFirst(flag + "=" + v, '=') == v
  {
    var s := flag + "=" + v;
    assert s[|flag|] == '=';
    assert forall j :: 0 <= j < |flag| ==> s[j] == flag[j];
    assert IndexOf(s, '=') == |flag|;
    assert s[|flag| + 1..] == v;
  }

  /** A token that starts with `flag + "="` is `flag + "=" + AfterFirst(tok, '=')`. */
  lemma JoinedSplits(tok: string, flag: string)
    requires '=' !in flag && StartsWith(tok, flag + "=")
    ensures tok == flag + "=" + AfterFirst(tok, '=')
  {
    assert tok[..|flag| + 1] == flag + "=";
    assert tok[|flag|] == '=';
    assert forall j :: 0 <= j < |flag| ==> tok[j] == flag[j];
    assert IndexOf(tok, '=') == |flag|;
    assert tok == tok[..|flag| + 1] + tok[|flag| + 1..];
  }

  /** `s.replace(pat, rep)`: left to right, non-overlapping occurrences. */
  function Replace(s: string, pat: string, rep: string): (r: string)
    requires pat != []
    ensures pat[0] !in s ==> r == s
    ensures |rep| <= |pat| ==> |r| <= |s|
    decreases |s|
  {
    if |s| < |pat| then s
    else if s[..|pat|] == pat then rep + Replace(s[|pat|..], pat, rep)
    else [s[0]] + Replace(s[1..], pat, rep)
  }

  /** A first character that cannot start the pattern is copied. */
  lemma ReplaceSkip(s: string, pat: string, rep: string)
    requires pat != [] && s != [] && s[0] != pat[0]
    ensures Replace(s, pat, rep) == [s[0]] + Replace(s[1..], pat, rep)
  {
    if |s| >= |pat| {
      assert s[..|pat|][0] == s[0];
    }
  }

  /** The inductive step of `ReplaceNoStart`. */
  lemma ReplaceNoStartStep(a: string, b: string, pat: string, rep: string)
    requires pat != [] && a != [] && a[0] != pat[0]
    requires Replace(a[1..] + b, pat, rep) == a[1..] + Replace(b, pat, rep)
    ensures Replace(a + b, pat, rep) == a + Replace(b, pat, rep)
  {
    var s := a + b;
    var r := Replace(b, pat, rep);
    assert s[0] == a[0];
    assert s[1..] == a[1..] + b;
    ReplaceSkip(s, pat, rep);
    assert Replace(s, pat, rep) == [a[0]] + (a[1..] + r);
    assert [a[0]] + (a[1..] + r) == ([a[0]] + a[1..]) + r;
    assert [a[0]] + a[1..] == a;
  }

  /** A prefix without the pattern's first character is copied unchanged. */
  lemma {:induction false} ReplaceNoStart(a: string, b: string, pat: string, rep: string)
    requires pat != [] && pat[0] !in a
    ensures Replace(a + b, pat, rep) == a + Replace(b, pat, rep)
    decreases |a|
  {
    if a == [] {
      assert a + b == b;
    } else {
      assert a[0] in a;
      assert forall x :: x in a[1..] ==> x in a;
      ReplaceNoStart(a[1..], b, pat, rep);
      ReplaceNoStartStep(a, b, pat, rep);
    }
  }

  /** The pattern at the front is replaced, and the pass goes on after it. */
  lemma ReplaceHit(b: string, pat: string, rep: string)
    requires pat != []
    ensures Replace(pat + b, pat, rep) == rep + Replace(b, pat, rep)
  {
    var s := pat + b;
    assert s[..|pat|] == pat && s[|pat|..] == b;
  }

  /** A two-character piece that starts like the pattern but is not it, and whose
      second character cannot start a match, is copied unchanged. */
  lemma ReplaceMiss(y: string, b: string, pat: string, rep: string)
    requires |pat| == 2 && |y| == 2 && y != pat && y[1] != pat[0]
    ensures Replace(y + b, pat, rep) == y + Replace(b, pat, rep)
  {
    var s := y + b;
    assert s[..2] == y && s[1..] == [y[1]] + b;
    ReplaceNoStart([y[1]], b, pat, rep);
    assert y == [y[0]] + [y[1]];
  }

  /** A piece `y` free of the pattern's first character is copied, and the pass goes
      on over `b`. */
  lemma ReplaceFreePiece(a: string, y: string, b: string, pat: string, rep: string)
    requires pat != [] && pat[0] !in a && pat[0] !in y
    ensures Replace(a + (y + b), pat, rep) == a + (y + Replace(b, pat, rep))
  {
    ReplaceNoStart(y, b, pat, rep);
    ReplaceNoStart(a, y + b, pat, rep);
  }

  /** A two-character piece `y` is replaced when it is the pattern and copied
      otherwise, and the pass goes on over `b`. */
  lemma ReplacePairPiece(a: string, y: string, b: string, pat: string, rep: string)
    requires |pat| == 2 && pat[0] !in a && |y| == 2 && y[1] != pat[0]
    ensures Replace(a + (y + b), pat, rep) == a + ((if y == pat then rep else y) + Replace(b, pat, rep))
  {
    if y == pat {
      ReplaceHit(b, pat, rep);
    } else {
      ReplaceMiss(y, b, pat, rep);
    }
    ReplaceNoStart(a, y + b, pat, rep);
  }
}
