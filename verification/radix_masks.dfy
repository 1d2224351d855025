/**
 Masks in lib/radix.c: comparing two interned masks, and interning a mask in the mask tree while
 computing its index and whether it is normal.
 */
module RadixMasks {
  import opened Basics
  import opened RadixBits
  import opened RadixTrie
  import opened RadixGrowth
  import opened RadixImage
  import opened Radix
  import opened RadixRoutes

  /** A byte with `n` leading ones: the table normal_chars. */
  function Ones(n: nat): Byte
    requires n <= 8
  {
    [0, 0x80, 0xc0, 0xe0, 0xf0, 0xf8, 0xfc, 0xfe, 0xff][n]
  }

  lemma {:induction false} OnesBits(n: nat, j: nat)
    requires n <= 8 && j < 8
    ensures BitOf(Ones(n), j) <==> 8 <= n + j
  {
    OnesHalf(n, 8, j);
    OnesAre(n);
  }

  lemma OnesAre(n: nat)
    requires n <= 8
    ensures Pow2(8 - n) <= Pow2(8) && Ones(n) == Pow2(8) - Pow2(8 - n)
  {
    assert Pow2(8) == 256 && Pow2(7) == 128 && Pow2(6) == 64 && Pow2(5) == 32;
    assert Pow2(4) == 16 && Pow2(3) == 8 && Pow2(2) == 4 && Pow2(1) == 2 && Pow2(0) == 1;
  }

  /** `2^s - 2^(s-n)` has exactly the bits `s-n .. s-1`. */
  lemma {:induction false} OnesHalf(n: nat, s: nat, j: nat)
    requires n <= s <= 8 && j < s
    ensures Pow2(s) >= Pow2(s - n)
    ensures BitOf(Pow2(s) - Pow2(s - n), j) <==> s <= n + j
    decreases s
  {
    hide Pow2;
    PowStep(s);
    if n == 0 {
      ZeroBits(j);
    } else if n == s {
      AllOnes(s, j);
    } else {
      PowStep(s - n);
      var x := Pow2(s - 1) - Pow2(s - 1 - n);
      OnesHalf(n, s - 1, if j == 0 then 0 else j - 1);
      assert Pow2(s) - Pow2(s - n) == 2 * x && 2 * x / 2 == x;
    }
  }

  lemma PowStep(s: nat)
    ensures s > 0 ==> Pow2(s) == 2 * Pow2(s - 1)
    ensures Pow2(0) == 1
  {
  }

  lemma {:induction false} AllOnes(s: nat, j: nat)
    requires j < s
    ensures BitOf(Pow2(s) - 1, j)
    decreases s
  {
    PowStep(s);
    if j > 0 {
      AllOnes(s - 1, j - 1);
      assert (Pow2(s) - 1) / 2 == Pow2(s - 1) - 1;
    }
  }

  /** How many ones a mask with index `p` has in byte `c`. */
  function OnesIn(p: nat, c: nat): (n: nat)
    ensures n <= 8
  {
    if p <= 8 * c then 0 else if 8 * c + 8 <= p then 8 else p - 8 * c
  }

  lemma {:induction false} MaskByte(m: seq<Byte>, p: nat, c: nat)
    requires MaskIs(m, p) && 1 <= c < |m|
    ensures m[c] == Ones(OnesIn(p, c))
  {
    var n := OnesIn(p, c);
    forall j: nat ensures BitOf(m[c], j) == BitOf(Ones(n), j) {
      if j < 8 {
        assert Bit(m, 8 * c + 7 - j) == (8 * c + 7 - j < p);
        OnesBits(n, j);
      } else {
        HighBitsZero(m[c], 8, j);
        HighBitsZero(Ones(n), 8, j);
      }
    }
    SameBits(m[c], Ones(n));
  }

  lemma {:induction false} NotBits(y: nat, s: nat, j: nat)
    requires y < Pow2(s) && j < s
    ensures BitOf(Pow2(s) - 1 - y, j) == !BitOf(y, j)
    decreases s
  {
    if j > 0 {
      assert (Pow2(s) - 1 - y) / 2 == Pow2(s - 1) - 1 - y / 2;
      NotBits(y / 2, s - 1, j - 1);
    }
  }

  // ---------- comparing masks ----------

  /** A mask as it is stored: its length in byte 0, then bytes of which the last is not zero. */
  ghost predicate Stored(m: seq<Byte>) {
    m != [] && m[0] <= |m| && (m[0] == 0 || (2 <= m[0] && m[m[0] - 1] != 0))
  }

  /** Byte `c` of a mask, zero beyond its length. */
  ghost function At(m: seq<Byte>, c: nat): Byte {
    if 1 <= c < |m| && c < m[0] then m[c] else 0
  }

  ghost predicate MaskBit(m: seq<Byte>, i: nat) {
    BitOf(At(m, i / 8), 7 - i % 8)
  }

  /** Every one of `n` is a one of `m`. */
  ghost predicate Includes(m: seq<Byte>, n: seq<Byte>) {
    forall i: nat :: MaskBit(n, i) ==> MaskBit(m, i)
  }

  /** `x & ~y` is zero iff every one of `x` is a one of `y`. */
  lemma {:induction false} NoneOutside(x: Byte, y: Byte)
    ensures And(x, 255 - y) == 0 <==> forall j: nat :: j < 8 && BitOf(x, j) ==> BitOf(y, j)
  {
    hide And, BitOf;
    assert Pow2(8) == 256;
    var z := And(x, 255 - y);
    if z != 0 {
      NonZero(z);
      var j: nat :| BitOf(z, j);
      AndBits(x, 255 - y, j);
      if j < 8 { NotBits(y, 8, j); } else { HighBitsZero(x, 8, j); }
    } else {
      forall j: nat | j < 8 && BitOf(x, j) ensures BitOf(y, j) {
        AndBits(x, 255 - y, j);
        NotBits(y, 8, j);
        ZeroBits(j);
      }
    }
  }

  lemma BitInside(x: Byte, y: Byte, j: nat)
    requires And(x, 255 - y) == 0 && j < 8 && BitOf(x, j)
    ensures BitOf(y, j)
  {
    hide And, BitOf;
    NoneOutside(x, y);
  }

  lemma {:induction false} IncludesBytes(m: seq<Byte>, n: seq<Byte>)
    requires forall c: nat :: And(At(n, c), 255 - At(m, c)) == 0
    ensures Includes(m, n)
  {
    hide And, BitOf, At;
    forall i: nat | MaskBit(n, i) ensures MaskBit(m, i) {
      var (c, j) := (i / 8, 7 - i % 8);
      assert And(At(n, c), 255 - At(m, c)) == 0;
      BitInside(At(n, c), At(m, c), j);
    }
  }

  lemma {:induction false} NotIncluded(m: seq<Byte>, n: seq<Byte>, c: nat)
    requires And(At(n, c), 255 - At(m, c)) != 0
    ensures !Includes(m, n)
  {
    hide And, BitOf, At;
    NoneOutside(At(n, c), At(m, c));
    var j: nat :| j < 8 && BitOf(At(n, c), j) && !BitOf(At(m, c), j);
    var i := 8 * c + 7 - j;
    assert i / 8 == c && i % 8 == 7 - j;
    assert MaskBit(n, i) && !MaskBit(m, i);
  }

  /** Masks that include each other have the same bytes. */
  lemma {:induction false} BothInclude(m: seq<Byte>, n: seq<Byte>, c: nat)
    requires Includes(m, n) && Includes(n, m)
    ensures At(m, c) == At(n, c)
  {
    hide BitOf, At;
    assert Pow2(8) == 256;
    var (x, y) := (At(m, c), At(n, c));
    forall j: nat ensures BitOf(x, j) == BitOf(y, j) {
      if j < 8 {
        var i := 8 * c + 7 - j;
        assert i / 8 == c && i % 8 == 7 - j;
        assert MaskBit(n, i) == MaskBit(m, i);
      } else {
        HighBitsZero(x, 8, j);
        HighBitsZero(y, 8, j);
      }
    }
    SameBits(x, y);
  }

  lemma ZeroOutside(y: Byte)
    ensures And(0, 255 - y) == 0
  {
  }

  lemma SelfOutside(x: Byte, y: Byte)
    ensures x == y ==> And(x, 255 - y) == 0
    ensures y == 0 && x != 0 ==> And(x, 255 - y) != 0
  {
    hide And, BitOf;
    assert Pow2(8) == 256;
    NoneOutside(x, y);
    if y == 0 && x != 0 {
      NonZero(x);
      var j: nat :| BitOf(x, j);
      if j >= 8 { HighBitsZero(x, 8, j); }
      ZeroBits(j);
    }
  }

  /** Byte by byte: the first `i` bytes fit, and `n` has nothing from there on. */
  lemma {:induction false} AllFit(m: seq<Byte>, n: seq<Byte>, i: nat)
    requires forall c: nat :: c < i ==> And(At(n, c), 255 - At(m, c)) == 0
    requires forall c: nat :: i <= c ==> At(n, c) == 0
    ensures Includes(m, n)
  {
    hide And, At;
    forall c: nat ensures And(At(n, c), 255 - At(m, c)) == 0 {
      if i <= c { ZeroOutside(At(m, c)); }
    }
    IncludesBytes(m, n);
  }

  lemma {:induction false} SameMask(m: seq<Byte>, n: seq<Byte>)
    requires forall c: nat :: At(m, c) == At(n, c)
    ensures Includes(m, n) && Includes(n, m)
  {
    hide At;
  }

  /** squid_rn_refines: `m` has all the ones of `n` and more. */
  method Refines(m: seq<Byte>, n: seq<Byte>) returns (r: bool)
    requires Stored(m) && Stored(n)
    ensures r <==> Includes(m, n) && !Includes(n, m)
  {
    hide And, BitOf, Includes;
    var (mlen, nlen) := (m[0], n[0]);
    var lim := if nlen < mlen then nlen else mlen;
    var equal := true;
    var i := 1;
    ZeroOutside(0);
    while i < lim
      invariant 1 <= i && (if 1 <= lim then i <= lim else i == 1)
      invariant forall c: nat :: c < i ==> And(At(n, c), 255 - At(m, c)) == 0
      invariant equal <==> forall c: nat :: c < i ==> At(m, c) == At(n, c)
    {
      assert At(m, i) == m[i] && At(n, i) == n[i];
      if And(n[i], 255 - m[i]) != 0 {
        NotIncluded(m, n, i);
        return false;
      }
      if n[i] != m[i] { equal := false; }
      i := i + 1;
    }
    var j := i;
    while j < nlen
      invariant i <= j && (i <= nlen ==> j <= nlen)
      invariant forall c: nat :: i <= c < j ==> At(n, c) == 0
    {
      if n[j] != 0 {
        SelfOutside(n[j], 0);
        NotIncluded(m, n, j);
        return false;
      }
      j := j + 1;
    }
    AllFit(m, n, i);
    if equal && nlen < mlen {
      var e := i;
      while e < i + (mlen - nlen)
        invariant i <= e < mlen
        invariant forall c :: i <= c < e ==> m[c] == 0
      {
        if m[e] != 0 {
          if Includes(n, m) {
            BothInclude(m, n, e);
            assert false;
          }
          return true;
        }
        e := e + 1;
      }
    }
    if equal {
      SameMask(m, n);
    } else {
      ghost var c: nat :| c < i && At(m, c) != At(n, c);
      if Includes(n, m) {
        BothInclude(m, n, c);
        assert false;
      }
    }
    return !equal;
  }

  lemma {:induction false} RunBit(m: seq<Byte>, p: nat, i: nat)
    requires MaskIs(m, p)
    ensures MaskBit(m, i) <==> 8 <= i < p
  {
    hide BitOf;
    var c := i / 8;
    if 1 <= c < |m| {
      assert Bit(m, i) == (i < p);
      if c >= m[0] { ZeroBits(7 - i % 8); }
    } else {
      ZeroBits(7 - i % 8);
    }
  }

  /** For contiguous masks, to refine is to be longer. */
  lemma {:induction false} RefinesRuns(m: seq<Byte>, n: seq<Byte>, p: nat, q: nat)
    requires MaskIs(m, p) && MaskIs(n, q) && |m| == |n|
    ensures Stored(m) && Stored(n)
    ensures Includes(m, n) && !Includes(n, m) <==> p > q
  {
    hide BitOf, MaskBit, MaskIs;
    RunStored(m, p);
    RunStored(n, q);
    MaskLength(m, p);
    MaskLength(n, q);
    forall i: nat ensures MaskBit(m, i) <==> 8 <= i < p { RunBit(m, p, i); }
    forall i: nat ensures MaskBit(n, i) <==> 8 <= i < q { RunBit(n, q, i); }
    if p > q { assert MaskBit(m, p - 1) && !MaskBit(n, p - 1); }
  }

  lemma {:induction false} RunStored(m: seq<Byte>, p: nat)
    requires MaskIs(m, p)
    ensures Stored(m)
  {
    hide BitOf;
    if p > 0 {
      assert Bit(m, p - 1);
      ZeroBits(7 - (p - 1) % 8);
    }
  }

  lemma MaskLength(m: seq<Byte>, p: nat)
    requires MaskIs(m, p)
    ensures m != [] && (p == 0 || 8 < p) && m[0] == (p + 7) / 8 <= |m|
  {
  }

  lemma MoreOnes(p: nat, q: nat, c: nat)
    ensures q <= p ==> OnesIn(q, c) <= OnesIn(p, c)
  {
  }

  lemma OnesOrder(a: nat, b: nat)
    requires a <= 8 && b <= 8
    ensures Ones(a) > Ones(b) <==> a > b
  {
  }

  /** rn_lexobetter: for contiguous masks, also exactly "strictly longer". */
  method LexoBetter(m: seq<Byte>, n: seq<Byte>, ghost p: nat, ghost q: nat) returns (r: bool)
    requires MaskIs(m, p) && MaskIs(n, q) && |m| == |n|
    ensures r <==> p > q
  {
    hide OnesIn, MaskIs, Ones;
    MaskLength(m, p);
    MaskLength(n, q);
    if m[0] > n[0] { return true; }
    if m[0] == n[0] {
      var i := 0;
      while i < m[0]
        invariant 0 <= i <= m[0]
        invariant forall c :: 1 <= c < i ==> OnesIn(p, c) <= OnesIn(q, c)
      {
        if i > 0 {
          MaskByte(m, p, i);
          MaskByte(n, q, i);
          MoreOnes(q, p, i);
          OnesOrder(OnesIn(p, i), OnesIn(q, i));
        }
        if m[i] > n[i] { return true; }
        i := i + 1;
      }
      SameLengthOrder(p, q);
    }
    return false;
  }

  lemma SameLengthOrder(p: nat, q: nat)
    requires (p == 0 || 8 < p) && (q == 0 || 8 < q) && (p + 7) / 8 == (q + 7) / 8
    requires forall c :: 1 <= c < (p + 7) / 8 ==> OnesIn(p, c) <= OnesIn(q, c)
    ensures p <= q
  {
    if p > 0 { ghost var d := OnesIn(p, (p + 7) / 8 - 1); }
  }

  // ---------- interning ----------

  /** A mask trimmed of trailing zero bytes, with its length in byte 0 and zero padding. */
  ghost predicate Trimmed(k: seq<Byte>) {
    && k != [] && 1 <= k[0] <= |k|
    && forall i :: 1 <= i < |k| && k[0] <= i ==> k[i] == 0
  }

  /** From bit `8 * skip` on, the mask has ones up to bit `p` and zeros after it. */
  ghost predicate Contiguous(mask: seq<Byte>, skip: nat, p: nat)
    requires mask != [] && mask[0] <= |mask|
  {
    forall i :: 8 * skip <= i < 8 * (mask[0] as int) ==> Bit(mask, i) == (i < p)
  }

  /** Masks are marked normal unless a signed char meets a partial byte; the zero mask never is. */
  predicate NormalFlag(p: nat, signedChar: bool) {
    p > 0 && (p % 8 == 0 || !signedChar)
  }

  function Skip(skip: nat): nat {
    if skip == 0 then 1 else skip
  }

  lemma SkipIs(skip: nat)
    ensures Skip(skip) == if skip == 0 then 1 else skip
  {
  }

  /** The mask tree squid_mask_rnhead with the buffer addmask_key. */
  class MaskTable {
    const head: Head
    const signedChar: bool
    const buf: array<Byte>
    var lastZeroed: nat

    ghost predicate Valid()
      reads this, head, head.nodes, buf
    {
      && head.Valid() && head.off == 0 && 2 <= head.len < 255 && buf.Length == head.len
      && lastZeroed <= buf.Length && (forall i :: 1 <= i < buf.Length && lastZeroed <= i ==> buf[i] == 0)
      && (forall e :: e in head.tree.Entries() && !e.root ==> e.n in head.nodes && MaskLeaf(e.n))
      && (forall e :: e in head.tree.Entries() && e.root ==> e.key == ZeroKey(head.len) || e.key == OneKey(head.len, 0))
      && Entry(head.zeroLeaf, ZeroKey(head.len), Host, true) in head.tree.Entries()
      && head.zeroLeaf in head.nodes && head.zeroLeaf.b == -1 && !head.zeroLeaf.normal
      && head.zeroLeaf.key == Repeat(0, head.len)
    }

    /** squid_rn_init: an empty mask tree and a zeroed buffer. */
    constructor (len: nat, signedChar: bool)
      requires 2 <= len < 255
      ensures Valid() && fresh(head) && fresh(head.nodes) && fresh(buf) && head.len == len
      ensures this.signedChar == signedChar
    {
      hide Patricia, Distinct, ImageOf, ZeroKey, OneKey, Holds, Tree.Entries, Empty;
      head := new Head(len, 0);
      this.signedChar := signedChar;
      buf := new Byte[len](_ => 0);
      lastZeroed := 0;
      new;
      EmptyRoutes(len, 0, head.top, head.zeroLeaf, head.oneLeaf);
    }

    /** A leaf of the mask tree remembers the index of its mask. */
    ghost predicate MaskLeaf(x: Node)
      reads x
    {
      && Trimmed(x.key) && |x.key| == head.len
      && forall p: nat :: MaskIs(x.key, p) ==> x.b == -1 - p && x.normal == NormalFlag(p, signedChar)
    }

    /** Copy the mask into the buffer, trim it and zero what an earlier mask left behind. */
    method Fill(mask: seq<Byte>, skip: nat, mlen: nat) returns (n: nat)
      requires buf.Length >= 2 && 1 <= skip < mlen <= |mask| && mlen <= buf.Length < 256
      requires lastZeroed <= buf.Length && forall i :: 1 <= i < buf.Length && lastZeroed <= i ==> buf[i] == 0
      modifies this`lastZeroed, buf
      ensures n <= mlen && lastZeroed <= buf.Length && (forall i :: 1 <= i < buf.Length && lastZeroed <= i ==> buf[i] == 0)
      ensures forall i :: n <= i < mlen && skip <= i ==> mask[i] == 0
      ensures skip < n ==> buf[0] == n && mask[n - 1] != 0 && forall i :: n <= i < buf.Length ==> buf[i] == 0
      ensures skip < n ==> forall i :: 1 <= i < n ==> buf[i] == if i < skip then 255 else mask[i]
    {
      var i := 1;
      while i < skip
        invariant 1 <= i <= skip && lastZeroed == old(lastZeroed)
        invariant forall j :: 1 <= j < i ==> buf[j] == 255
        invariant forall j :: i <= j < buf.Length ==> buf[j] == old(buf[j])
      {
        buf[i] := 255;
        i := i + 1;
      }
      while i < mlen
        invariant skip <= i <= mlen && lastZeroed == old(lastZeroed)
        invariant forall j :: 1 <= j < i ==> buf[j] == if j < skip then 255 else mask[j]
        invariant forall j :: i <= j < buf.Length ==> buf[j] == old(buf[j])
      {
        buf[i] := mask[i];
        i := i + 1;
      }
      n := mlen;
      while n > 0 && buf[n - 1] == 0
        invariant 0 <= n <= mlen
        invariant forall j :: n <= j < mlen ==> buf[j] == 0
      {
        n := n - 1;
      }
      if n <= skip {
        if mlen >= lastZeroed { lastZeroed := n; }
        return;
      }
      i := mlen;
      while i < lastZeroed
        invariant mlen <= i && (i <= lastZeroed || i == mlen) && lastZeroed == old(lastZeroed)
        invariant forall j :: 1 <= j < mlen ==> buf[j] == if j < skip then 255 else mask[j]
        invariant forall j :: mlen <= j < i ==> buf[j] == 0
        invariant forall j :: i <= j < buf.Length ==> buf[j] == old(buf[j])
      {
        buf[i] := 0;
        i := i + 1;
      }
      buf[0] := n;
      lastZeroed := n;
    }

    /** The index of a mask, and whether the comparison with normal_chars finds it normal. */
    method Index(key: seq<Byte>, skip: nat, n: nat, ghost p: nat) returns (b: nat, normal: bool)
      requires MaskIs(key, p) && 1 <= skip && 8 * skip < p && n == key[0]
      ensures b == p && normal == NormalFlag(p, signedChar)
    {
      hide BitOf, And, MaskIs;
      MaskLength(key, p);
      var c := skip;
      while c < n && key[c] == 255
        invariant skip <= c <= n && 8 * c <= p
      {
        MaskByte(key, p, c);
        c := c + 1;
      }
      if c == n { return 8 * n, true; }
      MaskByte(key, p, c);
      var ones := LeadingOnes(key[c], OnesIn(p, c));
      var signed: int := if signedChar && key[c] >= 128 then key[c] as int - 256 else key[c];
      normal := signed == Ones(ones) && c == n - 1;
      return 8 * c + ones, normal;
    }

    /** The loop that counts the leading ones of a byte. */
    method LeadingOnes(x: Byte, ghost n: nat) returns (b: nat)
      requires n < 8 && x == Ones(n)
      ensures b == n
    {
      hide And, BitOf;
      var j: nat := 0x80;
      b := 0;
      OnesTest(n, 0);
      while And(j, x) != 0
        invariant 0 <= b <= n && j == Pow2(7 - b)
        invariant And(j, x) != 0 <==> b < n
        decreases n - b
      {
        j := j / 2;
        b := b + 1;
        OnesTest(n, b);
      }
    }

    /** The filled buffer is the interned form of a contiguous mask. */
    lemma FilledIs(mask: seq<Byte>, skip: nat, mlen: nat, n: nat, p: nat, key: seq<Byte>)
      requires 1 <= skip < n <= mlen <= |mask| && mlen <= |key| < 255 && mlen <= mask[0] <= |mask|
      requires Contiguous(mask, skip, p) && p <= 8 * mlen
      requires key[0] == n && mask[n - 1] != 0
      requires forall i :: n <= i < mlen && skip <= i ==> mask[i] == 0
      requires forall i :: n <= i < |key| ==> key[i] == 0
      requires forall i :: 1 <= i < n ==> key[i] == if i < skip then 255 else mask[i]
      ensures MaskIs(key, p) && 8 * skip < p && Trimmed(key)
    {
      hide BitOf;
      LastNonZero(mask, skip, n, p);
      forall i | 8 <= i < 8 * |key| ensures Bit(key, i) == (i < p) {
        var c := i / 8;
        if c < skip {
          Byte255(7 - i % 8);
        } else if c < n {
          assert Bit(mask, i) == (i < p);
        } else {
          ZeroBits(7 - i % 8);
          if c < mlen { assert Bit(mask, i) == (i < p); }
        }
      }
    }

    lemma LastNonZero(mask: seq<Byte>, skip: nat, n: nat, p: nat)
      requires 1 <= skip < n <= |mask| && n <= mask[0] <= |mask| && Contiguous(mask, skip, p)
      requires mask[n - 1] != 0 && p <= 8 * (mask[0] as int)
      requires forall i :: n <= i < mask[0] && 8 * i < p ==> mask[i] == 0
      ensures 8 * n - 8 < p <= 8 * n
    {
      hide BitOf;
      var x := mask[n - 1];
      NonZero(x);
      var j: nat :| BitOf(x, j);
      if j >= 8 { HighBitsZero(x, 8, j); }
      assert Bit(mask, 8 * (n - 1) + 7 - j);
      if p > 8 * n && n < mask[0] {
        assert Bit(mask, 8 * n);
        ZeroBits(7);
      }
    }

    /** In the mask tree, comparing the stored length of bytes decides equality. */
    lemma {:induction false} MaskKeysDecide(v: seq<Byte>)
      requires Valid() && |v| == head.len && Trimmed(v)
      ensures head.LengthDecides(v)
      ensures forall i :: 0 <= i < 8 * head.len ==> Bits(v, 0)[i] == Bit(v, i)
    {
      hide Patricia, Distinct, ImageOf, Holds, BitOf, MaskIs;
      forall k | k in head.tree.Keys() && |k| == 8 * head.len && Agree(k, Bits(v, 0), 8 * (v[0] as int))
        ensures k == Bits(v, 0)
      {
        KeyOwner(k);
        var e :| e in head.tree.Entries() && e.key == k;
        LeafBytes(e);
        if e.root {
          SentinelByte(e.key, v);
        } else {
          SameTrimmed(e.n.key, v);
        }
      }
    }

    lemma {:induction false} KeyOwner(k: Key)
      requires head.Shape() && k in head.tree.Keys()
      ensures exists e :: e in head.tree.Entries() && e.key == k
    {
      KeyHasEntry(head.tree, k);
    }

    lemma {:induction false} LeafBytes(e: Entry)
      requires head.Valid() && e in head.tree.Entries()
      ensures e.n in head.nodes && Bits(e.n.key, head.off) == e.key && |e.n.key| == head.len
    {
      head.EntryLinks(e);
    }

    lemma SentinelByte(k: Key, v: seq<Byte>)
      requires |v| == head.len && Trimmed(v) && |v| < 255 && 2 <= |v|
      requires k == ZeroKey(head.len) || k == OneKey(head.len, 0)
      ensures !Agree(k, Bits(v, 0), 8 * (v[0] as int))
    {
      hide BitOf;
      if Agree(k, Bits(v, 0), 8 * (v[0] as int)) {
        var x: Byte := if k == ZeroKey(head.len) then 0 else 255;
        forall j: nat ensures BitOf(v[0], j) == BitOf(x, j) {
          if j < 8 {
            assert k[7 - j] == Bits(v, 0)[7 - j];
            ZeroBits(j);
            Byte255(j);
          } else {
            HighBitsZero(v[0], 8, j);
            HighBitsZero(x, 8, j);
          }
        }
        SameBits(v[0], x);
      }
    }

    /** `x` is the one leaf that stands for the contiguous mask with index `q`. */
    ghost predicate IsInterned(x: Node, q: nat)
      reads x, head
    {
      && x in head.nodes && |x.key| == head.len && MaskIs(x.key, q)
      && x.b == -1 - q && x.normal == NormalFlag(q, signedChar)
      && head.Shape() && head.off == 0 && x == Found(head.tree, Bits(x.key, 0)).chain[0].n
    }

    lemma {:induction false} ZeroLeafInterned()
      requires Valid()
      ensures IsInterned(head.zeroLeaf, 0)
    {
      hide Distinct, ImageOf, Holds, BitOf;
      ZerosOnes(head.len, 0);
      HostFirst(head.tree, 8 * head.len, Entry(head.zeroLeaf, ZeroKey(head.len), Host, true));
      forall i | 8 <= i < 8 * head.len ensures !Bit(head.zeroLeaf.key, i) { ZeroBits(7 - i % 8); }
    }

    /** A leaf whose first bytes equal the buffer is the interned mask. */
    lemma {:induction false} HitInterned(key: seq<Byte>, x: Node, n: nat, p: nat)
      requires Valid() && |key| == head.len && Trimmed(key) && MaskIs(key, p) && n == key[0] && p > 8
      requires x == Found(head.tree, Bits(key, 0)).chain[0].n && |x.key| == head.len
      requires SameBitsUpTo(key, x.key, 0, 8 * n)
      ensures IsInterned(x, p)
    {
      hide Distinct, ImageOf, Holds, BitOf, MaskIs;
      var k := Bits(key, 0);
      var e := Found(head.tree, k).chain[0];
      FoundInside(head.tree, k);
      head.EntryLinks(e);
      assert Agree(e.key, k, 8 * n);
      if e.root {
        SentinelByte(e.key, key);
      } else {
        SameTrimmed(x.key, key);
      }
    }

    /** Fill the buffer for a contiguous mask; the mask tree is not touched. */
    method Prepare(mask: seq<Byte>, skip: nat, mlen: nat, ghost p: nat) returns (n: nat)
      requires Valid() && mask != [] && mask[0] <= |mask| && 1 <= skip < mlen
      requires mlen == (if mask[0] > head.len then head.len else mask[0]) && p <= 8 * mlen && Contiguous(mask, skip, p)
      modifies this`lastZeroed, buf
      ensures Valid()
      ensures n <= skip ==> p <= 8 * skip
      ensures skip < n ==> buf[0] == n && MaskIs(buf[..], p) && 8 * skip < p && Trimmed(buf[..])
    {
      hide Head.Valid, MaskIs, Trimmed, MaskLeaf, IsInterned, BitOf;
      n := Fill(mask, skip, mlen);
      if skip < n {
        FilledIs(mask, skip, mlen, n, p, buf[..]);
      } else if 8 * skip < p {
        assert Bit(mask, 8 * skip);
        ZeroBits(7);
      }
    }

    /** Search the mask tree for the filled buffer. */
    method Lookup(key: seq<Byte>, n: nat, ghost p: nat) returns (x: Node?)
      requires Valid() && |key| == head.len && Trimmed(key) && MaskIs(key, p) && n == key[0] && p > 8
      ensures x != null ==> IsInterned(x, p)
      ensures x == null ==> Bits(key, 0) !in head.tree.Keys()
    {
      hide Distinct, ImageOf, Holds, BitOf, Patricia, MaskIs, Trimmed, MaskLeaf, Agree, Found, Bit;
      var t := head.Search(key);
      head.FoundHere(Bits(key, 0));
      TrimmedLength(key);
      var differ, at, b := FirstDifference(key, t.key, 0, n);
      if !differ {
        HitInterned(key, t, n, p);
        return t;
      }
      if Bits(key, 0) in head.tree.Keys() {
        SearchReachesStored(head.tree, Bits(key, 0));
      }
      return null;
    }

    /** Hang a new leaf for `key` into the tree. */
    method EnterKey(key: seq<Byte>) returns (leaf: Node, ghost e: Entry)
      requires Valid() && |key| == head.len && Trimmed(key) && Bits(key, 0) !in head.tree.Keys()
      modifies head`tree, head`nodes, head.nodes`l, head.nodes`r, head.nodes`p
      ensures head.Valid() && head.Shape() && old(head.nodes) <= head.nodes && fresh(head.nodes - old(head.nodes))
      ensures e == Entry(leaf, Bits(key, 0), Host, false) && leaf in head.nodes && fresh(leaf)
      ensures leaf.b == -1 && leaf.key == key && !leaf.root
      ensures head.tree.Entries() == old(head.tree.Entries()) + {e} && head.tree.Keys() == old(head.tree.Keys()) + {e.key}
      ensures Found(head.tree, e.key).chain == [e]
    {
      hide Distinct, ImageOf, Holds, BitOf, Patricia, Trimmed, Agree, Found, Bit, Graft, Head.Valid, Head.Shape;
      hide Tree.Entries, Tree.Keys, Tree.Nodes, ZeroKey, OneKey, Repeat, NormalFlag, Bits, Differs, Head.LengthDecides, MaskLeaf;
      head.IsShape();
      leaf := new Node();
      var inner := new Node();
      e := Entry(leaf, Bits(key, 0), Host, false);
      MaskKeysDecide(key);
      TrimmedLength(key);
      ghost var t0 := head.tree;
      var y, dup, b := head.Insert(key, leaf, inner, e);
      NewLeaf(t0, e, b, inner);
      head.IsShape();
    }

    /** Add a leaf for a mask that is not in the tree. */
    method Enter(key: seq<Byte>, skip: nat, n: nat, ghost p: nat) returns (x: Node)
      requires Valid() && |key| == head.len && Trimmed(key) && MaskIs(key, p) && n == key[0] && 1 <= skip && 8 * skip < p
      requires Bits(key, 0) !in head.tree.Keys()
      modifies head`tree, head`nodes, head.nodes`l, head.nodes`r, head.nodes`p
      ensures Valid() && old(head.nodes) <= head.nodes && fresh(head.nodes - old(head.nodes)) && IsInterned(x, p)
      ensures forall k :: k in old(head.tree.Keys()) ==> k in head.tree.Keys()
    {
      hide MaskIs, Trimmed, Found, Head.Valid, Head.Shape, Patricia;
      hide Tree.Entries, Tree.Keys, ZeroKey, OneKey, Repeat, NormalFlag, Bits;
      var leaf, e := EnterKey(key);
      var idx, normal := Index(key, skip, n, p);
      head.SetMask(leaf, -1 - (idx as int), None, normal);
      x := leaf;
      OnlyIndex(key, p);
      assert MaskLeaf(leaf);
    }

    /** squid_rn_addmask: the leaf that stands for a mask, added if it is not there and not just searched for. */
    method AddMask(mask: seq<Byte>, search: bool, skipArg: nat, ghost p: nat) returns (x: Node?)
      requires Valid() && mask != [] && mask[0] <= |mask| && p <= 8 * head.len && p <= 8 * (mask[0] as int)
      requires Contiguous(mask, Skip(skipArg), p)
      modifies this`lastZeroed, buf, head`tree, head`nodes, head.nodes`l, head.nodes`r, head.nodes`p
      ensures Valid() && old(head.nodes) <= head.nodes && fresh(head.nodes - old(head.nodes))
      ensures !search ==> x != null
      ensures x != null ==> IsInterned(x, if p <= 8 * Skip(skipArg) then 0 else p)
      ensures x == null ==> forall y :: y in head.nodes ==> !IsInterned(y, p)
      ensures search ==> head.tree == old(head.tree)
      ensures forall k :: k in old(head.tree.Keys()) ==> k in head.tree.Keys()
    {
      hide *;
      var mlen: nat := if mask[0] > head.len then head.len else mask[0];
      var skip := if skipArg == 0 then 1 else skipArg;
      SkipIs(skipArg);
      ZeroLeafInterned();
      if mlen <= skip { return head.zeroLeaf; }
      ValidLength();
      var n := Prepare(mask, skip, mlen, p);
      if n <= skip {
        ZeroLeafInterned();
        return head.zeroLeaf;
      }
      var key := buf[..];
      x := Lookup(key, n, p);
      if x != null { return; }
      if search {
        forall y | y in head.nodes ensures !IsInterned(y, p) { NotInterned(key, y, p); }
        return;
      }
      x := Enter(key, skip, n, p);
    }

    lemma ValidLength()
      requires Valid()
      ensures buf.Length == head.len < 255
    {
    }

    /** Interning is unique: another leaf for the same mask would have been found. */
    lemma {:induction false} NotInterned(key: seq<Byte>, y: Node, p: nat)
      requires Valid() && |key| == head.len && MaskIs(key, p) && Bits(key, 0) !in head.tree.Keys() && y in head.nodes
      ensures !IsInterned(y, p)
    {
      hide Distinct, ImageOf, Holds, BitOf, MaskIs;
      if IsInterned(y, p) {
        MaskIsUnique(key, y.key, p, p);
        head.FoundHere(Bits(key, 0));
        FoundInside(head.tree, Bits(key, 0));
      }
    }

    lemma {:induction false} NewLeaf(t: Tree, e: Entry, b: nat, inner: Node)
      requires Patricia(t, |e.key|) && Differs(t, e.key, b) && e.Fits(|e.key|)
      ensures var g := Graft(t, e.key, b, inner, e);
              && Patricia(g, |e.key|) && g.Entries() == t.Entries() + {e} && g.Keys() == t.Keys() + {e.key}
              && Found(g, e.key).chain == [e]
    {
      GraftPatricia(t, e.key, b, inner, e);
      GraftKeys(t, e.key, b, inner, e);
      FoundInside(t, e.key);
      GraftKeepsFound(t, e.key, b, inner, e, FoundKey(t, e.key));
    }

    lemma OnlyIndex(key: seq<Byte>, p: nat)
      requires MaskIs(key, p)
      ensures forall q: nat :: MaskIs(key, q) ==> q == p
    {
      forall q: nat | MaskIs(key, q) ensures q == p { MaskIsUnique(key, key, p, q); }
    }

    lemma TrimmedLength(key: seq<Byte>)
      requires Trimmed(key)
      ensures key != [] && key[0] <= |key|
    {
    }

  }

  /** Testing one bit of a run of leading ones. */
  lemma {:induction false} OnesTest(n: nat, b: nat)
    requires n <= 8 && b < 8
    ensures And(Pow2(7 - b), Ones(n)) != 0 <==> b < n
    ensures Pow2(7) == 128 && (b > 0 ==> Pow2(8 - b) / 2 == Pow2(7 - b))
  {
    var z := And(Pow2(7 - b), Ones(n));
    OnesBits(n, 7 - b);
    AndBits(Pow2(7 - b), Ones(n), 7 - b);
    PowBit(7 - b, 7 - b);
    ZeroBits(7 - b);
    if z != 0 {
      NonZero(z);
      var j: nat :| BitOf(z, j);
      AndBits(Pow2(7 - b), Ones(n), j);
      PowBit(7 - b, j);
    }
  }

  lemma {:induction false} PowBit(n: nat, j: nat)
    ensures BitOf(Pow2(n), j) <==> j == n
    decreases n
  {
    if n > 0 && j > 0 { PowBit(n - 1, j - 1); } else if n == 0 && j > 0 { ZeroBits(j - 1); }
  }

  lemma {:induction false} KeyHasEntry(t: Tree, k: Key)
    requires k in t.Keys()
    ensures exists e :: e in t.Entries() && e.key == k
  {
    if t.Inner? {
      if k in t.left.Keys() { KeyHasEntry(t.left, k); } else { KeyHasEntry(t.right, k); }
    }
  }

  lemma BytesFromBits(v: seq<Byte>, k: seq<Byte>, n: nat)
    requires n <= |v| && n <= |k| && Agree(Bits(k, 0), Bits(v, 0), 8 * n)
    ensures forall c :: 0 <= c < n ==> v[c] == k[c]
  {
    forall c | 0 <= c < n ensures v[c] == k[c] {
      forall j: nat ensures BitOf(v[c], j) == BitOf(k[c], j) {
        if j < 8 {
          assert Bits(k, 0)[8 * c + 7 - j] == Bits(v, 0)[8 * c + 7 - j];
        } else {
          HighBitsZero(v[c], 8, j);
          HighBitsZero(k[c], 8, j);
        }
      }
      SameBits(v[c], k[c]);
    }
  }

  lemma SameTrimmed(k: seq<Byte>, v: seq<Byte>)
    requires |k| == |v| && Trimmed(k) && Trimmed(v) && Agree(Bits(k, 0), Bits(v, 0), 8 * (v[0] as int))
    ensures k == v
  {
    BytesFromBits(v, k, v[0]);
  }
}
