/** The string operations the services rely on: Java's `trim`, Spring's
    `StringUtils.hasText`, ASCII lower-casing, `contains`, `startsWith` and
    `lastIndexOf`.

    Blank characters follow Java's `String.trim`: every char at or below
    U+0020. Lower-casing maps only 'A'..'Z'.
 */
module Text {
  import opened Wrappers

  /** A character `String.trim` removes. */
  predicate IsBlank(c: char) {
    c <= ' '
  }

  predicate AllBlank(s: string) {
    forall i :: 0 <= i < |s| ==> IsBlank(s[i])
  }

  /** Spring's `StringUtils.hasText`: not null, and some character is not blank. */
  predicate HasText(s: Option<string>) {
    s.Some? && !AllBlank(s.value)
  }

  /** Neither end of `s` is blank. */
  predicate Trimmed(s: string) {
    |s| == 0 || (!IsBlank(s[0]) && !IsBlank(s[|s| - 1]))
  }

  /** `r` is `s` without its blank prefix. */
  predicate StartTrimmed(s: string, r: string) {
    |r| <= |s| && r == s[|s| - |r|..] && (r == [] || !IsBlank(r[0])) && AllBlank(s[..|s| - |r|])
  }

  /** `r` is `s` without its blank suffix. */
  predicate EndTrimmed(s: string, r: string) {
    |r| <= |s| && r == s[..|r|] && (r == [] || !IsBlank(r[|r| - 1])) && AllBlank(s[|r|..])
  }

  /** `s` drops the blank prefix of `s`. */
  function TrimStart(s: string): (r: string)
    ensures StartTrimmed(s, r)
  {
    if |s| > 0 && IsBlank(s[0]) then
      var r := TrimStart(s[1..]);
      BlankHeadStep(s, r);
      r
    else
      s
  }

  /** A blank first character joins the blank prefix of the rest. */
  lemma BlankHeadStep(s: string, r: string)
    requires |s| > 0 && IsBlank(s[0])
    requires StartTrimmed(s[1..], r)
    ensures StartTrimmed(s, r)
  {
    assert s[..|s| - |r|] == [s[0]] + s[1..][..|s| - 1 - |r|];
  }

  /** `s` drops the blank suffix of `s`. */
  function TrimEnd(s: string): (r: string)
    ensures EndTrimmed(s, r)
  {
    if |s| > 0 && IsBlank(s[|s| - 1]) then
      var r := TrimEnd(s[..|s| - 1]);
      BlankLastStep(s, r);
      r
    else
      s
  }

  /** A blank last character joins the blank suffix of the rest. */
  lemma BlankLastStep(s: string, r: string)
    requires |s| > 0 && IsBlank(s[|s| - 1])
    requires EndTrimmed(s[..|s| - 1], r)
    ensures EndTrimmed(s, r)
  {
    assert s[|r|..] == s[..|s| - 1][|r|..] + [s[|s| - 1]];
  }

  /** `s` is `r` with the blank runs `s[..i]` and `s[i + |r|..]` around it. */
  predicate Surrounds(s: string, r: string, i: int) {
    0 <= i <= i + |r| <= |s| && r == s[i..i + |r|] && AllBlank(s[..i]) && AllBlank(s[i + |r|..])
  }

  /** Java's `String.trim`. */
  function Trim(s: string): (r: string)
    ensures Trimmed(r)
    ensures Surrounds(s, r, |s| - |TrimStart(s)|)
  {
    TrimComposes(s);
    TrimEnd(TrimStart(s))
  }

  /** The two passes of `Trim` leave a trimmed core with blank runs around it. */
  lemma TrimComposes(s: string)
    ensures Trimmed(TrimEnd(TrimStart(s)))
    ensures Surrounds(s, TrimEnd(TrimStart(s)), |s| - |TrimStart(s)|)
  {
    var t := TrimStart(s);
    TrimParts(s, t, TrimEnd(t));
  }

  /** Slicing a suffix of `s` is slicing `s`. */
  lemma SuffixSlices(s: string, i: nat, n: nat)
    requires i + n <= |s|
    ensures s[i..][..n] == s[i..i + n]
    ensures s[i..][n..] == s[i + n..]
  {
  }

  /** Why `Trim` meets its contract: the two passes compose. */
  lemma TrimParts(s: string, t: string, r: string)
    requires StartTrimmed(s, t) && EndTrimmed(t, r)
    ensures Trimmed(r) && Surrounds(s, r, |s| - |t|)
  {
    var i := |s| - |t|;
    assert r == s[i..i + |r|] by {
      SuffixSlices(s, i, |r|);
    }
    assert AllBlank(s[i + |r|..]) by {
      SuffixSlices(s, i, |r|);
      assert t[|r|..] == s[i + |r|..];
    }
    assert Trimmed(r) by {
      if r != [] {
        assert r[0] == t[0];
      }
    }
  }

  /** A trimmed string is its own trim. */
  lemma {:induction false} TrimOfTrimmed(s: string)
    requires Trimmed(s)
    ensures Trim(s) == s
  {
    assert TrimStart(s) == s;
    assert TrimEnd(s) == s;
  }

  /** Trimming twice is trimming once. */
  lemma TrimIdempotent(s: string)
    ensures Trim(Trim(s)) == Trim(s)
  {
    TrimOfTrimmed(Trim(s));
  }

  /** `hasText` holds exactly when the trimmed string is non-empty. */
  lemma HasTextIffTrimNonEmpty(s: string)
    ensures HasText(Some(s)) <==> Trim(s) != []
  {
    SurroundedEmpty(s, Trim(s), |s| - |TrimStart(s)|);
  }

  /** A trimmed core with blank runs around it is empty iff the whole string is blank. */
  lemma SurroundedEmpty(s: string, r: string, i: int)
    requires Trimmed(r) && Surrounds(s, r, i)
    ensures r == [] <==> AllBlank(s)
  {
    if r == [] {
      forall j | 0 <= j < |s|
        ensures IsBlank(s[j])
      {
        if j < i {
          assert s[j] == s[..i][j];
        } else {
          assert s[j] == s[i..][j - i];
        }
      }
    } else {
      assert s[i] == r[0];
    }
  }

  /** ASCII lower-casing of one character. */
  function LowerChar(c: char): (d: char)
    ensures 'A' <= c <= 'Z' ==> 'a' <= d <= 'z' && d as int - c as int == 32
    ensures !('A' <= c <= 'Z') ==> d == c
  {
    if 'A' <= c <= 'Z' then (c as int + 32) as char else c
  }

  /** ASCII `toLowerCase`. */
  function Lower(s: string): (r: string)
    ensures |r| == |s|
    ensures forall i :: 0 <= i < |s| ==> r[i] == LowerChar(s[i])
  {
    if s == [] then [] else [LowerChar(s[0])] + Lower(s[1..])
  }

  /** Lower-casing is idempotent. */
  lemma LowerIdempotent(s: string)
    ensures Lower(Lower(s)) == Lower(s)
  {
  }

  /** `equalsIgnoreCase` restricted to ASCII letters. */
  predicate EqualsIgnoreCase(a: string, b: string) {
    Lower(a) == Lower(b)
  }

  /** `s` begins with `p`, character for character. */
  predicate StartsWith(s: string, p: string) {
    |p| <= |s| && s[..|p|] == p
  }

  /** `sub` occurs in `s` at offset `i`. */
  predicate OccursAt(s: string, sub: string, i: int) {
    0 <= i && i + |sub| <= |s| && s[i..i + |sub|] == sub
  }

  /** Java's `String.contains`, by a left-to-right scan. */
  function Contains(s: string, sub: string): (b: bool)
    ensures b <==> exists i :: OccursAt(s, sub, i)
    decreases |s|
  {
    if |sub| > |s| then
      assert forall i :: !OccursAt(s, sub, i);
      false
    else if s[..|sub|] == sub then
      assert OccursAt(s, sub, 0);
      true
    else
      ShiftOccurrence(s, sub);
      Contains(s[1..], sub)
  }

  /** An occurrence past the first position is an occurrence in the tail. */
  lemma ShiftOccurrence(s: string, sub: string)
    requires |s| > 0
    requires !OccursAt(s, sub, 0)
    ensures (exists i :: OccursAt(s, sub, i)) <==> (exists i :: OccursAt(s[1..], sub, i))
  {
    if i :| OccursAt(s, sub, i) {
      assert i > 0;
      assert s[1..][i - 1..i - 1 + |sub|] == s[i..i + |sub|];
      assert OccursAt(s[1..], sub, i - 1);
    }
    if i :| OccursAt(s[1..], sub, i) {
      assert s[1..][i..i + |sub|] == s[i + 1..i + 1 + |sub|];
      assert OccursAt(s, sub, i + 1);
    }
  }

  /** A string occurs in any string it is a middle part of. */
  lemma ContainsMiddle(a: string, m: string, b: string)
    ensures Contains(a + m + b, m)
  {
    assert (a + m + b)[|a|..|a| + |m|] == m;
    assert OccursAt(a + m + b, m, |a|);
  }

  /** Java's `String.join(sep, xs)`. */
  function JoinWith(xs: seq<string>, sep: string): string {
    if xs == [] then ""
    else if |xs| == 1 then xs[0]
    else xs[0] + sep + JoinWith(xs[1..], sep)
  }

  /** Java's `lastIndexOf(c)`: the last position holding `c`, or -1. */
  function LastIndexOf(s: string, c: char): (r: int)
    ensures -1 <= r < |s|
    ensures r >= 0 ==> s[r] == c
    ensures forall k :: r < k < |s| ==> s[k] != c
  {
    if |s| == 0 then -1
    else if s[|s| - 1] == c then |s| - 1
    else LastIndexOf(s[..|s| - 1], c)
  }

  /** `s.substring(s.lastIndexOf(c) + 1)`: the text after the last `c`, or all of `s`. */
  function AfterLast(s: string, c: char): (r: string)
    ensures c !in r
    ensures |r| <= |s| && r == s[|s| - |r|..]
    ensures c in s <==> |r| < |s|
    ensures |r| < |s| ==> s[|s| - |r| - 1] == c
  {
    var i := LastIndexOf(s, c);
    if i < 0 then
      assert c !in s;
      s
    else
      s[i + 1..]
  }

  /** Text after the last separator of `prefix + [c] + id` is `id` when `id` holds no separator. */
  lemma AfterLastOfJoin(prefix: string, c: char, id: string)
    requires c !in id
    ensures AfterLast(prefix + [c] + id, c) == id
  {
    var s := prefix + [c] + id;
    var r := AfterLast(s, c);
    assert s[|prefix|] == c;
    assert s[|s| - |id|..] == id;
  }
}
