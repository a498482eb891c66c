/**
The XOR distance of Kademlia. The lookup computes it byte by byte and compares the results as
byte arrays; here it is shown to be the exclusive or of the two keys as 160-bit numbers, compared
as numbers, and a metric.
*/
module XorMetric {
  import opened Basics
  import opened Radix

  /** Bitwise exclusive or of two natural numbers. */
  function Xor(a: nat, b: nat): nat
    decreases a + b
  {
    if a == 0 && b == 0 then 0 else 2 * Xor(a / 2, b / 2) + (if a % 2 != b % 2 then 1 else 0)
  }

  lemma {:induction false} XorBound(a: nat, b: nat, k: nat)
    requires a < Pow(2, k) && b < Pow(2, k)
    ensures Xor(a, b) < Pow(2, k)
  {
    if k > 0 { XorBound(a / 2, b / 2, k - 1); }
  }

  function XorByte(a: byte, b: byte): byte {
    assert Pow(2, 8) == 256;
    XorBound(a, b, 8);
    Xor(a, b)
  }

  /** `xor_distance`. */
  method XorDistanceLoop(a: seq<byte>, b: seq<byte>) returns (d: seq<byte>)
    requires |a| == |b| == 20
    ensures d == XorDistance(a, b)
  {
    d := seq(20, _ => 0);
    for i := 0 to 20
      invariant |d| == 20
      invariant forall k :: 0 <= k < i ==> d[k] == XorByte(a[k], b[k])
    {
      d := d[i := XorByte(a[i], b[i])];
    }
  }

  function XorDistance(a: seq<byte>, b: seq<byte>): (d: seq<byte>)
    requires |a| == |b|
    ensures |d| == |a|
    ensures forall i :: 0 <= i < |a| ==> d[i] == XorByte(a[i], b[i])
  {
    seq(|a|, i requires 0 <= i < |a| => XorByte(a[i], b[i]))
  }

  function Key(a: seq<byte>): nat { Num(a, 256) }

  /** `x` shifted left by `k` bits. */
  ghost function Shl(x: nat, k: nat): nat {
    if k == 0 then x else 2 * Shl(x, k - 1)
  }

  lemma ShlByte(x: nat)
    ensures Shl(x, 8) == 256 * x
  {
    assert Shl(x, 1) == 2 * x;
    assert Shl(x, 2) == 4 * x;
    assert Shl(x, 3) == 8 * x;
    assert Shl(x, 4) == 16 * x;
    assert Shl(x, 5) == 32 * x;
    assert Shl(x, 6) == 64 * x;
    assert Shl(x, 7) == 128 * x;
  }

  /** Exclusive or works on high and low parts separately. */
  lemma {:induction false} XorParts(x: nat, a: nat, y: nat, b: nat, k: nat)
    requires a < Shl(1, k) && b < Shl(1, k)
    ensures Xor(Shl(x, k) + a, Shl(y, k) + b) == Shl(Xor(x, y), k) + Xor(a, b)
    decreases k
  {
    if k > 0 {
      XorParts(x, a / 2, y, b / 2, k - 1);
      XorBit(Shl(x, k - 1) + a / 2, a % 2, Shl(y, k - 1) + b / 2, b % 2);
      XorHalf(a, b);
    }
  }

  lemma XorBit(u: nat, i: nat, v: nat, j: nat)
    requires i < 2 && j < 2
    ensures Xor(2 * u + i, 2 * v + j) == 2 * Xor(u, v) + (if i != j then 1 else 0)
  {
    XorHalf(2 * u + i, 2 * v + j);
  }

  lemma XorHalf(a: nat, b: nat)
    ensures Xor(a, b) == 2 * Xor(a / 2, b / 2) + (if a % 2 != b % 2 then 1 else 0)
  {}

  lemma XorBytes(x: nat, a: nat, y: nat, b: nat)
    requires a < 256 && b < 256
    ensures Xor(256 * x + a, 256 * y + b) == 256 * Xor(x, y) + Xor(a, b)
  {
    ShlByte(1);
    ShlByte(x);
    ShlByte(y);
    ShlByte(Xor(x, y));
    XorParts(x, a, y, b, 8);
  }

  /** The distance, read as a number, is the exclusive or of the keys read as numbers. */
  lemma {:induction false} DistanceIsXor(a: seq<byte>, b: seq<byte>)
    requires |a| == |b|
    ensures Key(XorDistance(a, b)) == Xor(Key(a), Key(b))
  {
    if a != [] {
      var n := |a| - 1;
      DistanceIsXor(a[..n], b[..n]);
      assert XorDistance(a, b)[..n] == XorDistance(a[..n], b[..n]);
      XorBytes(Key(a[..n]), a[n], Key(b[..n]), b[n]);
    }
  }

  /** Comparing two distances as arrays, as the lookup does, compares them as numbers. */
  lemma DistanceOrder(a: seq<byte>, b: seq<byte>, target: seq<byte>)
    requires |a| == |b| == |target|
    ensures LexLess(XorDistance(a, target), XorDistance(b, target)) <==>
            Xor(Key(a), Key(target)) < Xor(Key(b), Key(target))
  {
    DistanceIsXor(a, target);
    DistanceIsXor(b, target);
    LexIsNumeric(XorDistance(a, target), XorDistance(b, target), 256);
  }

  // ----- the distance is a metric ---------------------------------------------------

  lemma {:induction false} XorSymmetric(a: nat, b: nat)
    ensures Xor(a, b) == Xor(b, a)
    decreases a + b
  {
    if a != 0 || b != 0 { XorSymmetric(a / 2, b / 2); }
  }

  lemma {:induction false} XorZero(a: nat, b: nat)
    ensures Xor(a, b) == 0 <==> a == b
    decreases a + b
  {
    if a != 0 || b != 0 { XorZero(a / 2, b / 2); }
  }

  lemma {:induction false} XorTriangle(a: nat, b: nat, c: nat)
    ensures Xor(a, c) <= Xor(a, b) + Xor(b, c)
    decreases a + b + c
  {
    if a != 0 || b != 0 || c != 0 {
      XorTriangle(a / 2, b / 2, c / 2);
      XorHalf(a, b);
      XorHalf(b, c);
      XorHalf(a, c);
    }
  }

  /** Only one key is at a given distance from a given key. */
  lemma {:induction false} XorUnidirectional(a: nat, b: nat, c: nat)
    requires Xor(a, b) == Xor(a, c)
    ensures b == c
    decreases a + b + c
  {
    if a != 0 || b != 0 || c != 0 {
      XorHalf(a, b);
      XorHalf(a, c);
      XorUnidirectional(a / 2, b / 2, c / 2);
    }
  }

  /** Distances of keys: zero only from the key itself, the same both ways, and never longer through a third key. */
  lemma DistanceIsAMetric(a: seq<byte>, b: seq<byte>, c: seq<byte>)
    requires |a| == |b| == |c|
    ensures Key(XorDistance(a, b)) == 0 <==> a == b
    ensures XorDistance(a, b) == XorDistance(b, a)
    ensures Key(XorDistance(a, c)) <= Key(XorDistance(a, b)) + Key(XorDistance(b, c))
    ensures XorDistance(a, b) == XorDistance(a, c) ==> b == c
  {
    DistanceIsXor(a, b);
    DistanceIsXor(b, a);
    DistanceIsXor(b, c);
    DistanceIsXor(a, c);
    XorSymmetric(Key(a), Key(b));
    XorZero(Key(a), Key(b));
    XorTriangle(Key(a), Key(b), Key(c));
    SameNumSameDigits(XorDistance(a, b), XorDistance(b, a), 256);
    if Key(a) == Key(b) { SameNumSameDigits(a, b, 256); }
    if XorDistance(a, b) == XorDistance(a, c) {
      XorUnidirectional(Key(a), Key(b), Key(c));
      SameNumSameDigits(b, c, 256);
    }
  }
}
