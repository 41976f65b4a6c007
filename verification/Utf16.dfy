/** JavaScript strings as sequences of UTF-16 code units, with the byte length `TextEncoder` gives them. */
module Utf16 {
  type Unit = u: int | 0 <= u < 0x1_0000
  type Text = seq<Unit>

  const NUL: Unit := 0x00
  const TAB: Unit := 0x09
  const LF: Unit := 0x0A
  const CR: Unit := 0x0D
  const SPACE: Unit := 0x20
  const QUOTE: Unit := 0x22
  const COLON: Unit := 0x3A
  const BACKSLASH: Unit := 0x5C
  const BOM: Unit := 0xFEFF

  predicate IsHigh(u: Unit) { 0xD800 <= u < 0xDC00 }

  predicate IsLow(u: Unit) { 0xDC00 <= u < 0xE000 }

  predicate IsDigit(u: Unit) { 0x30 <= u <= 0x39 }

  /** A surrogate pair starts at the head of the text. */
  predicate StartsPair(s: Text) {
    |s| >= 2 && IsHigh(s[0]) && IsLow(s[1])
  }

  function UnitBytes(u: Unit): (n: nat)
    ensures 1 <= n <= 3
  {
    if u < 0x80 then 1 else if u < 0x800 then 2 else 3
  }

  /** Bytes of the UTF-8 encoding: four for a surrogate pair, three for a lone surrogate (it becomes U+FFFD). */
  function Utf8Length(s: Text): nat {
    if |s| == 0 then 0
    else if StartsPair(s) then 4 + Utf8Length(s[2..])
    else UnitBytes(s[0]) + Utf8Length(s[1..])
  }

  /** Every surrogate is part of a pair: what a `TextDecoder` returns. */
  predicate WellFormed(s: Text) {
    if |s| == 0 then true
    else if StartsPair(s) then WellFormed(s[2..])
    else !IsHigh(s[0]) && !IsLow(s[0]) && WellFormed(s[1..])
  }

  /** Cutting at `k` does not separate the two halves of a surrogate pair. */
  predicate CutsBetweenCodePoints(s: Text, k: nat)
    requires k <= |s|
  {
    0 < k < |s| ==> !(IsHigh(s[k - 1]) && IsLow(s[k]))
  }

  // No code unit takes less than a byte.
  lemma {:induction false} UnitsAtMostBytes(s: Text)
    ensures |s| <= Utf8Length(s)
  {
    if |s| != 0 {
      if StartsPair(s) { UnitsAtMostBytes(s[2..]); } else { UnitsAtMostBytes(s[1..]); }
    }
  }

  // Byte counts add up across a boundary between code points.
  lemma {:induction false} Utf8LengthConcat(a: Text, b: Text)
    requires WellFormed(a)
    ensures Utf8Length(a + b) == Utf8Length(a) + Utf8Length(b)
  {
    if |a| == 0 {
      assert a + b == b;
    } else if StartsPair(a) {
      assert (a + b)[2..] == a[2..] + b;
      Utf8LengthConcat(a[2..], b);
    } else {
      assert (a + b)[1..] == a[1..] + b;
      Utf8LengthConcat(a[1..], b);
    }
  }

  lemma {:induction false} WellFormedConcat(a: Text, b: Text)
    requires WellFormed(a)
    ensures WellFormed(a + b) == WellFormed(b)
  {
    if |a| == 0 {
      assert a + b == b;
    } else if StartsPair(a) {
      assert (a + b)[2..] == a[2..] + b;
      WellFormedConcat(a[2..], b);
    } else {
      assert (a + b)[1..] == a[1..] + b;
      WellFormedConcat(a[1..], b);
    }
  }

  // Any longer text needs at least as many bytes, wherever it is cut.
  lemma {:induction false} Utf8LengthMonotone(a: Text, b: Text)
    ensures Utf8Length(a) <= Utf8Length(a + b)
  {
    if |a| == 0 {
    } else if StartsPair(a) {
      assert (a + b)[2..] == a[2..] + b;
      Utf8LengthMonotone(a[2..], b);
    } else if |a| == 1 {
      assert a[1..] == [];
    } else {
      assert (a + b)[1..] == a[1..] + b;
      Utf8LengthMonotone(a[1..], b);
    }
  }

  // A cut between code points leaves two well-formed halves.
  lemma {:induction false} WellFormedSplit(s: Text, k: nat)
    requires WellFormed(s) && k <= |s| && CutsBetweenCodePoints(s, k)
    ensures WellFormed(s[..k]) && WellFormed(s[k..])
    decreases |s|
  {
    if k == 0 {
      assert s[0..] == s;
    } else if StartsPair(s) {
      WellFormedSplit(s[2..], k - 2);
      assert s[..k][2..] == s[2..][..k - 2];
      assert s[k..] == s[2..][k - 2..];
    } else {
      WellFormedSplit(s[1..], k - 1);
      assert s[..k][1..] == s[1..][..k - 1];
      assert s[k..] == s[1..][k - 1..];
    }
  }

  /** The concatenation of the pieces of a text. */
  function Join(pieces: seq<Text>): Text {
    if |pieces| == 0 then [] else Join(pieces[..|pieces| - 1]) + pieces[|pieces| - 1]
  }

  lemma JoinPush(a: seq<Text>, last: Text)
    ensures Join(a + [last]) == Join(a) + last
  {
    assert (a + [last])[..|a|] == a;
  }

  function Repeat(u: Unit, n: nat): Text {
    if n == 0 then [] else Repeat(u, n - 1) + [u]
  }

  /** The first index at or after `from` whose unit is `u`, or the length of the text: `indexOf` with -1 replaced. */
  function IndexOf(s: Text, u: Unit, from: nat): (k: nat)
    requires from <= |s|
    ensures from <= k <= |s| && (k < |s| ==> s[k] == u)
    decreases |s| - from
  {
    if from == |s| || s[from] == u then from else IndexOf(s, u, from + 1)
  }

  lemma {:induction false} IndexOfFirst(s: Text, u: Unit, from: nat, k: nat)
    requires from <= k <= |s|
    requires forall i :: from <= i < k ==> s[i] != u
    requires k < |s| ==> s[k] == u
    ensures IndexOf(s, u, from) == k
    decreases k - from
  {
    if from < k { IndexOfFirst(s, u, from + 1, k); }
  }
}
