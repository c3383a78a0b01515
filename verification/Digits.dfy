// Bytes read as base-256 digits of a fraction, and the zero-byte stuffing of entropy-coded
// segments (an FF byte is followed by a 00 byte).
module Digits {
  import opened Powers

  type byte = x: int | 0 <= x < 256

  /** s followed by n copies of x. */
  ghost function AppendN(s: seq<byte>, x: byte, n: nat): seq<byte> {
    if n == 0 then s else AppendN(s, x, n - 1) + [x]
  }

  lemma {:induction false} AppendNLength(s: seq<byte>, x: byte, n: nat)
    ensures |AppendN(s, x, n)| == |s| + n
  {
    if n > 0 {
      AppendNLength(s, x, n - 1);
    }
  }

  /** The i-th digit of d followed by zeros for ever. */
  function Digit(d: seq<byte>, i: nat): byte {
    if i < |d| then d[i] else 0
  }

  /** d and e name the same fraction: they differ only in zeros at the end. */
  ghost predicate SameDigits(d: seq<byte>, e: seq<byte>) {
    forall i: nat :: Digit(d, i) == Digit(e, i)
  }

  lemma {:induction false} ZerosAtEnd(d: seq<byte>, n: nat)
    ensures SameDigits(AppendN(d, 0, n), d)
  {
    if n > 0 {
      ZerosAtEnd(d, n - 1);
      assert SameDigits(AppendN(d, 0, n - 1), d);
      forall i: nat
        ensures Digit(AppendN(d, 0, n), i) == Digit(d, i)
      {
        assert Digit(AppendN(d, 0, n), i) == Digit(AppendN(d, 0, n - 1), i);
      }
    }
  }

  /** The first m digits of d (followed by zeros) as a number. */
  function Prefix(d: seq<byte>, m: nat): nat {
    if m == 0 then 0 else 256 * Prefix(d, m - 1) + Digit(d, m - 1)
  }

  function Value(d: seq<byte>): nat {
    Prefix(d, |d|)
  }

  lemma {:induction false} PrefixAgree(d: seq<byte>, e: seq<byte>, m: nat)
    requires forall i :: 0 <= i < m ==> Digit(d, i) == Digit(e, i)
    ensures Prefix(d, m) == Prefix(e, m)
  {
    if m > 0 {
      PrefixAgree(d, e, m - 1);
    }
  }

  lemma ValueAppend(d: seq<byte>, x: byte)
    ensures Value(d + [x]) == 256 * Value(d) + x
  {
    PrefixAgree(d + [x], d, |d|);
  }

  lemma RefineBounds(lo: nat, v: nat, hi: nat, x: byte)
    requires lo <= v < hi
    ensures 256 * lo <= 256 * v + x < 256 * hi
  {
  }

  /** Reading more digits refines the prefix: it appends low-order digits and changes nothing else. */
  lemma {:induction false} PrefixSplit(d: seq<byte>, m: nat, k: nat)
    ensures Prefix(d, m) * Pow2(8 * k) <= Prefix(d, m + k) < (Prefix(d, m) + 1) * Pow2(8 * k)
  {
    if k > 0 {
      PrefixSplit(d, m, k - 1);
      var p, q := Pow2(8 * (k - 1)), Prefix(d, m);
      Pow2Byte(k - 1);
      MulAssociate(q, 256, p);
      MulAssociate(q + 1, 256, p);
      RefineBounds(q * p, Prefix(d, m + k - 1), (q + 1) * p, Digit(d, m + k - 1));
    }
  }

  lemma {:induction false} PrefixBound(d: seq<byte>, m: nat)
    ensures Prefix(d, m) < Pow2(8 * m)
  {
    PrefixSplit(d, 0, m);
    assert (Prefix(d, 0) + 1) * Pow2(8 * m) == Pow2(8 * m);
  }

  /** Past the end of d the digits are zeros. */
  lemma {:induction false} PrefixPastEnd(d: seq<byte>, k: nat)
    ensures Prefix(d, |d| + k) == Value(d) * Pow2(8 * k)
  {
    if k > 0 {
      PrefixPastEnd(d, k - 1);
      Pow2Byte(k - 1);
      MulAssociate(Value(d), 256, Pow2(8 * (k - 1)));
    }
  }

  /** Adding one to x b FF..FF carries into b and clears the FF digits. */
  lemma {:induction false} CarryThroughStack(x: seq<byte>, b: byte, n: nat)
    requires b < 255
    ensures Value(AppendN(x + [b + 1], 0, n)) == Value(AppendN(x + [b], 255, n)) + 1
  {
    if n == 0 {
      ValueAppend(x, b);
      ValueAppend(x, b + 1);
    } else {
      CarryThroughStack(x, b, n - 1);
      ValueAppend(AppendN(x + [b + 1], 0, n - 1), 0);
      ValueAppend(AppendN(x + [b], 255, n - 1), 255);
    }
  }

  lemma CarryAndAppend(x: seq<byte>, b: byte, n: nat, t: byte)
    requires b < 255
    ensures |AppendN(x + [b + 1], 0, n) + [t]| == |AppendN(x + [b], 255, n)| + 1
    ensures Value(AppendN(x + [b + 1], 0, n) + [t]) == 256 * (Value(AppendN(x + [b], 255, n)) + 1) + t
  {
    CarryThroughStack(x, b, n);
    AppendNLength(x + [b + 1], 0, n);
    AppendNLength(x + [b], 255, n);
    ValueAppend(AppendN(x + [b + 1], 0, n), t);
  }

  lemma {:induction false} ValueAllOnes(n: nat)
    ensures Value(AppendN([], 255, n)) == Pow2(8 * n) - 1
  {
    if n > 0 {
      ValueAllOnes(n - 1);
      ValueAppend(AppendN([], 255, n - 1), 255);
      Pow2Byte(n - 1);
    }
  }

  // ----- byte stuffing

  function Stuff1(x: byte): seq<byte> {
    if x == 255 then [255, 0] else [x]
  }

  function Stuff(d: seq<byte>): seq<byte> {
    if d == [] then [] else Stuff1(d[0]) + Stuff(d[1..])
  }

  lemma {:induction false} StuffConcat(d: seq<byte>, e: seq<byte>)
    ensures Stuff(d + e) == Stuff(d) + Stuff(e)
  {
    if d == [] {
      assert d + e == e;
    } else {
      StuffConcat(d[1..], e);
      assert (d + e)[1..] == d[1..] + e;
    }
  }

  lemma StuffAppend(d: seq<byte>, x: byte)
    ensures Stuff(d + [x]) == Stuff(d) + Stuff1(x)
  {
    StuffConcat(d, [x]);
    assert Stuff([x]) == Stuff1(x) + Stuff([]);
  }

  /** In a stuffed segment every FF is followed by 00: no marker can appear in it. */
  lemma {:induction false} StuffedHasNoMarker(d: seq<byte>, i: nat)
    requires i < |Stuff(d)| && Stuff(d)[i] == 255
    ensures i + 1 < |Stuff(d)| && Stuff(d)[i + 1] == 0
  {
    var k := |Stuff1(d[0])|;
    if i >= k {
      StuffedHasNoMarker(d[1..], i - k);
    }
  }
}
