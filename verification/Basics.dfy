/** Shared vocabulary: options, byte strings, substring search and decimal numbers. */
module Basics {

  datatype Option<+T> = None | Some(value: T)

  type byte = x: int | 0 <= x < 256

  // ---- Substring search ----

  /** `pat` occurs in `s` at `j`. */
  ghost predicate At<T>(s: seq<T>, pat: seq<T>, j: int) {
    0 <= j <= j + |pat| <= |s| && s[j..j + |pat|] == pat
  }

  /** The first occurrence at or after `i`. */
  function FindFrom<T(==)>(s: seq<T>, pat: seq<T>, i: nat): (r: Option<nat>)
    ensures r.Some? ==> i <= r.value && At(s, pat, r.value) && forall j :: i <= j < r.value ==> !At(s, pat, j)
    ensures r.None? ==> forall j :: i <= j ==> !At(s, pat, j)
    decreases |s| - i
  {
    if i + |pat| > |s| then None
    else if s[i..i + |pat|] == pat then Some(i)
    else FindFrom(s, pat, i + 1)
  }

  function Find<T(==)>(s: seq<T>, pat: seq<T>): (r: Option<nat>)
    ensures r.Some? ==> At(s, pat, r.value) && forall j :: 0 <= j < r.value ==> !At(s, pat, j)
    ensures r.None? ==> forall j :: 0 <= j ==> !At(s, pat, j)
  {
    FindFrom(s, pat, 0)
  }

  lemma AtElement<T>(s: seq<T>, pat: seq<T>, j: int, k: nat)
    requires k < |pat|
    ensures At(s, pat, j) ==> 0 <= j + k < |s| && s[j + k] == pat[k]
  {
    if At(s, pat, j) {
      assert s[j..j + |pat|][k] == s[j + k];
    }
  }

  /** A string that lacks the first element of the pattern lacks the pattern. */
  lemma FindLacks<T>(s: seq<T>, pat: seq<T>)
    requires pat != [] && pat[0] !in s
    ensures Find(s, pat).None?
  {
    forall j | 0 <= j ensures !At(s, pat, j) {
      AtElement(s, pat, j, 0);
    }
  }

  /** The first occurrence, once known, is the answer. */
  lemma FindIs<T>(s: seq<T>, pat: seq<T>, j: nat)
    requires At(s, pat, j) && forall i :: 0 <= i < j ==> !At(s, pat, i)
    ensures Find(s, pat) == Some(j)
  {
  }

  /** A first occurrence survives whatever is appended. */
  lemma FindInPrefix<T>(s: seq<T>, more: seq<T>, pat: seq<T>)
    ensures Find(s, pat).Some? ==> Find(s + more, pat) == Find(s, pat)
    ensures forall j :: At(s + more, pat, j) && j + |pat| <= |s| ==> At(s, pat, j)
  {
    forall j | At(s + more, pat, j) && j + |pat| <= |s| ensures At(s, pat, j) {
      assert (s + more)[j..j + |pat|] == s[j..j + |pat|];
    }
    if Find(s, pat).Some? {
      var k := Find(s, pat).value;
      assert (s + more)[k..k + |pat|] == s[k..k + |pat|];
      forall i | 0 <= i < k ensures !At(s + more, pat, i) {
        assert At(s + more, pat, i) ==> At(s, pat, i);
      }
      FindIs(s + more, pat, k);
    }
  }

  // ---- Selections ----

  ghost predicate Rising(idx: seq<nat>) {
    forall i, j :: 0 <= i < j < |idx| ==> idx[i] < idx[j]
  }

  /** The indices `idx` pick, in order, exactly the elements of `s` that `keeps`. */
  ghost predicate Picks<T>(s: seq<T>, idx: seq<nat>, keeps: T -> bool) {
    && Rising(idx)
    && (forall i :: 0 <= i < |idx| ==> idx[i] < |s|)
    && (forall j: nat :: j < |s| ==> (keeps(s[j]) <==> j in idx))
  }

  lemma PickSnoc<T>(s: seq<T>, idx: seq<nat>, keeps: T -> bool)
    requires s != [] && Picks(s[..|s| - 1], idx, keeps)
    ensures Picks(s, if keeps(s[|s| - 1]) then idx + [|s| - 1] else idx, keeps)
  {
    var n := |s| - 1;
    forall i | 0 <= i < |idx| ensures idx[i] != n {
      assert idx[i] < |s[..n]|;
    }
  }

  /** `r` are the elements of `s` that `keeps`, in their order. */
  ghost predicate Picked<T>(s: seq<T>, idx: seq<nat>, r: seq<T>, keeps: T -> bool) {
    && Picks(s, idx, keeps) && |r| == |idx|
    && forall i :: 0 <= i < |idx| ==> idx[i] < |s| && r[i] == s[idx[i]]
  }

  lemma PickedSnoc<T>(s: seq<T>, idx: seq<nat>, r: seq<T>, keeps: T -> bool) returns (idx': seq<nat>)
    requires s != [] && Picked(s[..|s| - 1], idx, r, keeps)
    ensures Picked(s, idx', if keeps(s[|s| - 1]) then r + [s[|s| - 1]] else r, keeps)
  {
    hide Picks;
    idx' := if keeps(s[|s| - 1]) then idx + [|s| - 1] else idx;
    PickSnoc(s, idx, keeps);
  }

  /** The same, with an image of each. */
  ghost predicate PickedImages<T, U>(s: seq<T>, idx: seq<nat>, r: seq<U>, keeps: T -> bool, image: T -> U) {
    && Picks(s, idx, keeps) && |r| == |idx|
    && forall i :: 0 <= i < |idx| ==> idx[i] < |s| && r[i] == image(s[idx[i]])
  }

  lemma PickedImagesSnoc<T, U>(s: seq<T>, idx: seq<nat>, r: seq<U>, keeps: T -> bool, image: T -> U)
    returns (idx': seq<nat>)
    requires s != [] && PickedImages(s[..|s| - 1], idx, r, keeps, image)
    ensures PickedImages(s, idx', if keeps(s[|s| - 1]) then r + [image(s[|s| - 1])] else r, keeps, image)
  {
    hide Picks;
    idx' := if keeps(s[|s| - 1]) then idx + [|s| - 1] else idx;
    PickSnoc(s, idx, keeps);
  }

  /** What is left when one element is taken out. */
  lemma TakenOut<T>(s: seq<T>, i: nat)
    requires i < |s|
    ensures var r := s[..i] + s[i + 1..];
            |r| == |s| - 1 && forall j :: 0 <= j < |r| ==> r[j] == s[if j < i then j else j + 1]
  {
  }

  // ---- Trimming, as JavaScript's `String.prototype.trim` does it ----

  predicate IsJsSpace(c: char) {
    || '\t' <= c <= '\r' || c in {' ', '\U{A0}', '\U{1680}', '\U{2028}', '\U{2029}'}
    || c in {'\U{202F}', '\U{205F}', '\U{3000}', '\U{FEFF}'}
    || '\U{2000}' <= c <= '\U{200A}'
  }

  function JsTrim(s: string): string {
    if s != "" && IsJsSpace(s[0]) then JsTrim(s[1..])
    else if s != "" && IsJsSpace(s[|s| - 1]) then JsTrim(s[..|s| - 1])
    else s
  }

  /** What is between the spaces, whatever the spaces are. */
  lemma {:induction false} JsTrimIs(lead: string, t: string, trail: string)
    requires forall c :: c in lead + trail ==> IsJsSpace(c)
    requires t == "" || (!IsJsSpace(t[0]) && !IsJsSpace(t[|t| - 1]))
    ensures JsTrim(lead + t + trail) == t
    decreases |lead| + |trail|
  {
    hide IsJsSpace;
    var s := lead + t + trail;
    if lead != "" {
      assert lead[0] in lead + trail && s[1..] == lead[1..] + t + trail;
      assert forall c :: c in lead[1..] + trail ==> c in lead + trail;
      JsTrimIs(lead[1..], t, trail);
    } else if trail != "" && t == "" {
      assert trail[0] in lead + trail && s[1..] == lead + t + trail[1..];
      assert forall c :: c in lead + trail[1..] ==> c in lead + trail;
      JsTrimIs(lead, t, trail[1..]);
    } else if trail != "" {
      var rest := trail[..|trail| - 1];
      assert trail[|trail| - 1] in lead + trail && s[..|s| - 1] == lead + t + rest;
      assert forall c :: c in lead + rest ==> c in lead + trail;
      JsTrimIs(lead, t, rest);
    } else {
      assert s == t;
    }
  }

  // ---- ASCII lower case ----

  function Lower(c: char): char {
    if 'A' <= c <= 'Z' then c - 'A' + 'a' else c
  }

  function LowerAll(s: string): (r: string)
    ensures |r| == |s| && forall i :: 0 <= i < |s| ==> r[i] == Lower(s[i])
  {
    seq(|s|, i requires 0 <= i < |s| => Lower(s[i]))
  }

  // ---- Decimal numbers ----

  function Digit(d: nat): char
    requires d < 10
  {
    '0' + d as char
  }

  function Decimal(n: nat): (s: string)
    ensures s != "" && forall i :: 0 <= i < |s| ==> '0' <= s[i] <= '9'
  {
    if n < 10 then [Digit(n)] else Decimal(n / 10) + [Digit(n % 10)]
  }

  /** The value of a string of digits. */
  function Value(s: string): nat
    requires forall i :: 0 <= i < |s| ==> '0' <= s[i] <= '9'
  {
    if s == "" then 0 else 10 * Value(s[..|s| - 1]) + (s[|s| - 1] - '0') as nat
  }

  lemma {:induction false} ValueOfDecimal(n: nat)
    ensures Value(Decimal(n)) == n
  {
    if n < 10 {
      assert Decimal(n)[..0] == "";
    } else {
      ValueOfDecimal(n / 10);
      assert Decimal(n)[..|Decimal(n)| - 1] == Decimal(n / 10);
    }
  }

  /** A name, a separator and a number. */
  function Numbered(name: string, sep: char, n: nat): string {
    name + [sep] + Decimal(n)
  }

  lemma LastSeparator(name: string, sep: char, n: nat, i: nat)
    requires !('0' <= sep <= '9') && |name| <= i < |Numbered(name, sep, n)|
    ensures Numbered(name, sep, n)[i] == sep <==> i == |name|
  {
    assert i > |name| ==> Numbered(name, sep, n)[i] == Decimal(n)[i - |name| - 1];
  }

  /** They can be told apart again. */
  lemma NumberedInjective(a: string, m: nat, b: string, n: nat, sep: char)
    requires !('0' <= sep <= '9') && Numbered(a, sep, m) == Numbered(b, sep, n)
    ensures a == b && m == n
  {
    LastSeparator(a, sep, m, if |a| < |b| then |b| else |a|);
    LastSeparator(b, sep, n, if |a| < |b| then |b| else |a|);
    assert |a| == |b| by {
      LastSeparator(a, sep, m, |a|);
      LastSeparator(b, sep, n, |b|);
    }
    NumberedParts(a, sep, m);
    NumberedParts(b, sep, n);
    DecimalInjective(m, n);
  }

  lemma NumberedParts(name: string, sep: char, n: nat)
    ensures var s := Numbered(name, sep, n); |s| > |name| && s[..|name|] == name && s[|name| + 1..] == Decimal(n)
  {
  }

  lemma DecimalInjective(m: nat, n: nat)
    requires Decimal(m) == Decimal(n)
    ensures m == n
  {
    ValueOfDecimal(m);
    ValueOfDecimal(n);
  }
}
