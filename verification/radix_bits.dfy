/**
 Bytes and bits as lib/radix.c sees them: bit `i` of a key is bit `7 - i % 8` of byte `i / 8`,
 tested with `rn_bmask & v[rn_off]`.
 */
module RadixBits {
  import opened Basics

  /** Bit `j` of `x`, counted from the least significant one. */
  predicate BitOf(x: nat, j: nat)
    decreases j
  {
    if j == 0 then x % 2 == 1 else BitOf(x / 2, j - 1)
  }

  function Xor(x: nat, y: nat): nat
    decreases x + y
  {
    if x == 0 && y == 0 then 0
    else (if x % 2 != y % 2 then 1 else 0) + 2 * Xor(x / 2, y / 2)
  }

  function And(x: nat, y: nat): nat {
    if x == 0 || y == 0 then 0
    else (if x % 2 == 1 && y % 2 == 1 then 1 else 0) + 2 * And(x / 2, y / 2)
  }

  lemma {:induction false} XorBits(x: nat, y: nat, j: nat)
    ensures BitOf(Xor(x, y), j) == (BitOf(x, j) != BitOf(y, j))
    decreases j
  {
    if x == 0 && y == 0 {
      ZeroBits(j);
    } else if j > 0 {
      assert Xor(x, y) / 2 == Xor(x / 2, y / 2);
      XorBits(x / 2, y / 2, j - 1);
    }
  }

  lemma {:induction false} AndBits(x: nat, y: nat, j: nat)
    ensures BitOf(And(x, y), j) == (BitOf(x, j) && BitOf(y, j))
    decreases j
  {
    if x == 0 || y == 0 {
      ZeroBits(j);
    } else if j > 0 {
      assert And(x, y) / 2 == And(x / 2, y / 2);
      AndBits(x / 2, y / 2, j - 1);
    }
  }

  lemma {:induction false} ZeroBits(j: nat)
    ensures !BitOf(0, j)
  {
    if j > 0 { ZeroBits(j - 1); }
  }

  lemma {:induction false} NonZero(x: nat)
    requires x > 0
    ensures exists j :: BitOf(x, j)
  {
    if x % 2 == 1 {
      assert BitOf(x, 0);
    } else {
      NonZero(x / 2);
      var j: nat :| BitOf(x / 2, j);
      assert BitOf(x, j + 1);
    }
  }

  lemma {:induction false} SameBits(x: nat, y: nat)
    requires forall j: nat :: BitOf(x, j) == BitOf(y, j)
    ensures x == y
    decreases x + y
  {
    if x != 0 || y != 0 {
      assert BitOf(x, 0) == BitOf(y, 0);
      forall j: nat ensures BitOf(x / 2, j) == BitOf(y / 2, j) {
        assert BitOf(x, j + 1) == BitOf(y, j + 1);
      }
      SameBits(x / 2, y / 2);
    }
  }

  lemma {:induction false} HighBitsZero(x: nat, n: nat, j: nat)
    requires x < Pow2(n) && n <= j
    ensures !BitOf(x, j)
    decreases n, j
  {
    if n == 0 {
      ZeroBits(j);
    } else {
      HighBitsZero(x / 2, n - 1, j - 1);
    }
  }

  lemma XorByte(x: Byte, y: Byte)
    ensures Xor(x, y) == 0 <==> x == y
    ensures Xor(x, y) < 256
  {
    if Xor(x, y) == 0 {
      forall j: nat ensures BitOf(x, j) == BitOf(y, j) { XorBits(x, y, j); ZeroBits(j); }
      SameBits(x, y);
    } else if x == y {
      NonZero(Xor(x, y));
      var j: nat :| BitOf(Xor(x, y), j);
      XorBits(x, y, j);
    }
    XorBelow(x, y, 8);
  }

  lemma {:induction false} XorBelow(x: nat, y: nat, n: nat)
    requires x < Pow2(n) && y < Pow2(n)
    ensures Xor(x, y) < Pow2(n)
    decreases n
  {
    if n > 0 { XorBelow(x / 2, y / 2, n - 1); }
  }

  /** Bit `i` of a key. */
  predicate Bit(v: seq<Byte>, i: nat)
    requires i < 8 * |v|
  {
    BitOf(v[i / 8], 7 - i % 8)
  }

  lemma Powers()
    ensures Pow2(7) == 128
  {
    assert Pow2(3) == 8;
  }

  /** `x` is `z` shifted right by `k` bits. */
  ghost predicate ShiftedDown(x: nat, z: nat, k: nat) {
    forall j: nat :: BitOf(x, j) == BitOf(z, j + k)
  }

  lemma NotShifted(z: nat)
    ensures ShiftedDown(z, z, 0)
  {
  }

  lemma ShiftMore(x: nat, z: nat, k: nat)
    requires ShiftedDown(x, z, k)
    ensures ShiftedDown(x / 2, z, k + 1)
  {
    forall j: nat ensures BitOf(x / 2, j) == BitOf(z, j + (k + 1)) {
      BitHalf(x, j);
      assert BitOf(x, j + 1) == BitOf(z, (j + 1) + k);
    }
  }

  lemma OnlyBit(z: nat, k: nat)
    requires ShiftedDown(1, z, k)
    ensures BitOf(z, k) && forall j :: k < j < 8 ==> !BitOf(z, j)
  {
    hide BitOf;
    OneBit(0);
    assert BitOf(1, 0) == BitOf(z, 0 + k);
    forall j | k < j < 8 ensures !BitOf(z, j) {
      assert BitOf(1, j - k) == BitOf(z, (j - k) + k);
      OneBit(j - k);
    }
  }

  lemma HalfBelow(x: nat, c: nat)
    requires 0 < x < Pow2(c)
    ensures c > 0 && x / 2 < Pow2(c - 1)
  {
  }

  lemma BitHalf(x: nat, j: nat)
    ensures BitOf(x / 2, j) == BitOf(x, j + 1)
  {
  }

  lemma OneBit(j: nat)
    ensures BitOf(1, j) <==> j == 0
  {
    if j > 0 { ZeroBits(j - 1); }
  }

  /**
   Position, from the most significant bit, of the highest bit of `z`
   (the shift loops of squid_rn_match and squid_rn_insert).
   */
  method TopBit(z: Byte) returns (b: nat)
    requires z != 0
    ensures b < 8 && BitOf(z, 7 - b)
    ensures forall j :: 7 - b < j < 8 ==> !BitOf(z, j)
  {
    hide *;
    var c := 7;
    ghost var prev: nat := z;
    var test: nat := z / 2;
    Powers();
    NotShifted(z);
    while test > 0
      invariant 0 <= c <= 7 && prev > 0 && test == prev / 2 && test < Pow2(c) && ShiftedDown(prev, z, 7 - c)
      decreases test
    {
      HalfBelow(test, c);
      ShiftMore(prev, z, 7 - c);
      prev, test, c := test, test / 2, c - 1;
    }
    assert prev == 1;
    OnlyBit(z, 7 - c);
    b := c;
  }

  ghost predicate SameBitsUpTo(v: seq<Byte>, k: seq<Byte>, lo: nat, hi: nat)
    requires hi <= 8 * |v| && hi <= 8 * |k|
  {
    forall i :: lo <= i < hi ==> Bit(v, i) == Bit(k, i)
  }

  lemma SameByteSameBits(v: seq<Byte>, k: seq<Byte>, c: nat)
    requires c < |v| && c < |k| && v[c] == k[c]
    ensures SameBitsUpTo(v, k, 8 * c, 8 * c + 8)
  {
  }

  /**
   The first bit at which two keys differ, comparing bytes `from` up to `lim`:
   skip equal bytes, then find the highest bit of the exclusive or.
   */
  method FirstDifference(v: seq<Byte>, k: seq<Byte>, from: nat, lim: nat) returns (differ: bool, at: nat, b: nat)
    requires lim <= |v| && lim <= |k|
    ensures !differ ==> forall c :: from <= c < lim ==> v[c] == k[c]
    ensures !differ ==> SameBitsUpTo(v, k, 8 * from, 8 * lim)
    ensures differ ==> from <= at < lim && at == b / 8
    ensures differ ==> Bit(v, b) != Bit(k, b) && SameBitsUpTo(v, k, 8 * from, b)
    ensures differ ==> forall c :: from <= c < at ==> v[c] == k[c]
  {
    var c := from;
    while c < lim && v[c] == k[c]
      invariant from <= c && (if from <= lim then c <= lim else c == from)
      invariant forall d :: from <= d < c ==> v[d] == k[d]
      invariant c <= lim ==> SameBitsUpTo(v, k, 8 * from, 8 * c)
    {
      SameByteSameBits(v, k, c);
      c := c + 1;
    }
    if c >= lim { return false, 0, 0; }
    XorByte(v[c], k[c]);
    var z := Xor(v[c], k[c]);
    var h := TopBit(z);
    XorBits(v[c], k[c], 7 - h);
    forall i | 8 * c <= i < 8 * c + h ensures Bit(v, i) == Bit(k, i) {
      XorBits(v[c], k[c], 7 - i % 8);
    }
    return true, c, 8 * c + h;
  }
}
