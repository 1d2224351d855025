/**
 lib/md5.c: buffering, counting and padding around the MD5 compression function, which is kept abstract.
 The 64-byte block is modelled by its bytes; its words are those bytes read in little-endian order.
 */
module Md5 {
  import opened Basics
  import opened Arithmetic

  /** The four words of the state. */
  datatype Hash = Hash(a: nat, b: nat, c: nat, d: nat)

  const INITIAL := Hash(0x67452301, 0xefcdab89, 0x98badcfe, 0x10325476)

  const WORD: nat := 0x1_0000_0000
  const LONG: nat := 0x1_0000_0000_0000_0000

  // ---------- sections 3.1 and 3.2 of RFC 1321 ----------

  function Zeros(n: nat): (z: seq<Byte>)
    ensures |z| == n
  {
    seq(n, _ => 0)
  }

  /** Zero bytes between the 0x80 byte and the length: enough to make the length congruent to 56 modulo 64. */
  function Gap(n: nat): (k: nat)
    ensures k < 64 && (n + 1 + k) % 64 == 56
  {
    var r := n % 64;
    assert n == n / 64 * 64 + r;
    if r <= 55 then 55 - r else 119 - r
  }

  /** No smaller number of them would do. */
  lemma {:induction false} GapLeast(n: nat, j: nat)
    requires j < Gap(n)
    ensures (n + 1 + j) % 64 != 56
  {
    var (q, x) := (n / 64, n % 64 + 1 + j);
    if x < 64 {
      DivMod(n + 1 + j, 64, q, x);
    } else {
      DivMod(n + 1 + j, 64, q + 1, x - 64);
    }
  }

  /** The four bytes of a word, least significant first. */
  function Little(w: nat): (b: seq<Byte>)
    ensures |b| == 4
  {
    [w % 256, w / 256 % 256, w / 65536 % 256, w / 16777216 % 256]
  }

  /** The number whose bytes these are, least significant first. */
  function FromLittle(b: seq<Byte>): nat {
    if b == [] then 0 else b[0] + 256 * FromLittle(b[1..])
  }

  lemma FromFour(b: seq<Byte>)
    requires |b| == 4
    ensures FromLittle(b) == b[0] as int + 256 * (b[1] as int) + 65536 * (b[2] as int) + 16777216 * (b[3] as int)
  {
    var (x, y, z) := (b[1..], b[2..], b[3..]);
    assert x[1..] == y && y[1..] == z && z[1..] == [];
    assert FromLittle(z) == b[3];
    assert FromLittle(y) == b[2] + 256 * FromLittle(z);
  }

  /** The bytes of a word are its value in base 256. */
  lemma {:induction false} LittleValue(w: nat)
    requires w < WORD
    ensures FromLittle(Little(w)) == w
  {
    var (x, y, z) := (w / 256, w / 65536, w / 16777216);
    DivTwice(w, 256, 256);
    DivTwice(w, 65536, 256);
    assert w == 256 * x + w % 256 && x == 256 * y + x % 256 && y == 256 * z + y % 256 && z < 256;
    FromFour(Little(w));
  }

  lemma {:induction false} LittleJoined(a: seq<Byte>, b: seq<Byte>)
    requires |a| == 4
    ensures FromLittle(a + b) == FromLittle(a) + WORD * FromLittle(b)
  {
    FromFour(a);
    var s := a + b;
    assert s[1..][1..] == s[2..] && s[2..][1..] == s[3..] && s[3..][1..] == b;
    assert FromLittle(s[3..]) == a[3] + 256 * FromLittle(b);
    assert FromLittle(s[2..]) == a[2] + 256 * FromLittle(s[3..]);
    assert FromLittle(s[1..]) == a[1] + 256 * FromLittle(s[2..]);
  }

  /** A 64-bit count as two words, low word first. */
  function Count(bits: nat): (b: seq<Byte>)
    ensures |b| == 8
  {
    Little(bits % WORD) + Little(bits / WORD % WORD)
  }

  /** The padded message. */
  function Padded(m: seq<Byte>): seq<Byte> {
    m + [0x80] + Zeros(Gap(|m|)) + Count(8 * |m| % LONG)
  }

  lemma {:induction false} CountValue(bits: nat)
    requires bits < LONG
    ensures FromLittle(Count(bits)) == bits
  {
    hide FromLittle, Little;
    var (lo, hi) := (bits % WORD, bits / WORD);
    assert hi < WORD && hi % WORD == hi;
    LittleValue(lo);
    LittleValue(hi);
    LittleJoined(Little(lo), Little(hi));
  }

  /** The message, one bit set and then clear bits, and the number of bits of the message modulo 2^64. */
  lemma {:induction false} PaddedParts(m: seq<Byte>)
    ensures var (p, n) := (Padded(m), |Padded(m)|);
            && n >= |m| + 9 && p[..|m|] == m && p[|m|] == 0x80 && (forall i :: |m| < i < n - 8 ==> p[i] == 0)
            && FromLittle(p[n - 8..]) == 8 * |m| % LONG
  {
    hide Gap, Count, FromLittle;
    var count := Count(8 * |m| % LONG);
    CountValue(8 * |m| % LONG);
    assert Padded(m)[|Padded(m)| - 8..] == count;
  }

  lemma {:induction false} PaddedLength(m: seq<Byte>)
    ensures |Padded(m)| == |m| + 1 + Gap(|m|) + 8 && |Padded(m)| % 64 == 0
  {
    hide Gap;
    var x := |m| + 1 + Gap(|m|);
    DivMod(x + 8, 64, x / 64 + 1, 0);
  }

  /** The state after a whole number of blocks. */
  function Absorb(f: (Hash, seq<Byte>) -> Hash, h: Hash, s: seq<Byte>): Hash
    requires |s| % 64 == 0
  {
    if s == [] then h else f(Absorb(f, h, s[..|s| - 64]), s[|s| - 64..])
  }

  lemma AbsorbMore(f: (Hash, seq<Byte>) -> Hash, h: Hash, s: seq<Byte>, b: seq<Byte>)
    requires |s| % 64 == 0 && |b| == 64
    ensures |s + b| % 64 == 0 && Absorb(f, h, s + b) == f(Absorb(f, h, s), b)
  {
    assert (s + b)[..|s|] == s && (s + b)[|s|..] == b;
  }

  /** The blocks are taken in order: those of `s`, then those of `t` from the state reached. */
  lemma {:induction false} AbsorbJoined(f: (Hash, seq<Byte>) -> Hash, h: Hash, s: seq<Byte>, t: seq<Byte>)
    requires |s| % 64 == 0 && |t| % 64 == 0
    ensures |s + t| % 64 == 0 && Absorb(f, h, s + t) == Absorb(f, Absorb(f, h, s), t)
    decreases |t|
  {
    if t == [] {
      assert s + t == s;
    } else {
      var (u, b) := (t[..|t| - 64], t[|t| - 64..]);
      AbsorbJoined(f, h, s, u);
      AbsorbMore(f, h, s + u, b);
      assert s + t == s + u + b;
    }
  }

  // ---------- the two-word byte counter ----------

  /** Adding to the low word carries into the high one exactly when it wraps. */
  lemma {:induction false} Carry(n: nat, len: nat)
    requires len < WORD
    ensures var (lo, hi) := (n % WORD, n / WORD % WORD);
            var lo' := (lo + len) % WORD;
            && lo' == (n + len) % WORD
            && (if lo' < lo then (hi + 1) % WORD else hi) == (n + len) / WORD % WORD
  {
    var (q, lo) := (n / WORD, n % WORD);
    assert n == q * WORD + lo;
    if lo + len < WORD {
      DivMod(n + len, WORD, q, lo + len);
      DivMod(lo + len, WORD, 0, lo + len);
    } else {
      DivMod(n + len, WORD, q + 1, lo + len - WORD);
      DivMod(lo + len, WORD, 1, lo + len - WORD);
      NextHigh(q);
    }
  }

  lemma {:induction false} NextHigh(q: nat)
    ensures (q % WORD + 1) % WORD == (q + 1) % WORD
  {
    var (k, r) := (q / WORD, q % WORD);
    assert q == k * WORD + r;
    if r + 1 < WORD {
      DivMod(q + 1, WORD, k, r + 1);
    } else {
      DivMod(q + 1, WORD, k + 1, 0);
    }
  }

  /** The byte count shifted left by three bits, as the code writes its two words. */
  function Shifted(lo: nat, hi: nat): seq<Byte> {
    Little(lo * 8 % WORD) + Little((hi * 8 % WORD + lo / 0x2000_0000) % WORD)
  }

  /** Eight times a two-word number, word by word. */
  lemma EightTimes(k: nat, hi: nat, lo: nat, c: nat, low: nat, e: nat, high: nat)
    requires 8 * lo == c * WORD + low && 8 * hi + c == e * WORD + high
    ensures 8 * (k * LONG + hi * WORD + lo) == (8 * k + e) * LONG + (high * WORD + low)
  {
  }

  lemma {:induction false} LowWord(lo: nat)
    requires lo < WORD
    ensures 8 * lo == lo / 0x2000_0000 * WORD + lo * 8 % WORD && lo / 0x2000_0000 < 8
  {
    var (c, r) := (lo / 0x2000_0000, lo % 0x2000_0000);
    DivMod(lo * 8, WORD, c, 8 * r);
  }

  lemma {:induction false} HighWord(hi: nat, c: nat)
    ensures (hi * 8 % WORD + c) % WORD == (8 * hi + c) % WORD
  {
    var (q, r) := (hi * 8 / WORD, hi * 8 % WORD);
    DivMod(8 * hi + c, WORD, q + (r + c) / WORD, (r + c) % WORD);
  }

  /** Shifting the two-word byte count gives the bit count modulo 2^64. */
  lemma {:induction false} BitCount(n: nat)
    ensures Shifted(n % WORD, n / WORD % WORD) == Count(8 * n % LONG)
  {
    hide Little, Count;
    var (lo, hi, k) := (n % WORD, n / WORD % WORD, n / WORD / WORD);
    var (c, low) := (lo / 0x2000_0000, lo * 8 % WORD);
    LowWord(lo);
    HighWord(hi, c);
    var (e, high) := ((8 * hi + c) / WORD, (8 * hi + c) % WORD);
    EightTimes(k, hi, lo, c, low, e, high);
    assert n == k * LONG + hi * WORD + lo;
    DivMod(8 * n, LONG, 8 * k + e, high * WORD + low);
    CountIs(high, low);
  }

  lemma CountIs(high: nat, low: nat)
    requires low < WORD && high < WORD
    ensures Count(high * WORD + low) == Little(low) + Little(high)
  {
    hide Little;
    DivMod(high * WORD + low, WORD, high, low);
    DivMod(high, WORD, 0, high);
  }

  // ---------- the context ----------

  /** The digest: the words of the state, least significant byte first. */
  function Bytes(h: Hash): (d: seq<Byte>)
    ensures |d| == 16
  {
    Little(h.a) + Little(h.b) + Little(h.c) + Little(h.d)
  }

  /** The initial state, as the bytes of section 3.3 of RFC 1321. */
  lemma InitialBytes()
    ensures Bytes(INITIAL) == [0x01, 0x23, 0x45, 0x67, 0x89, 0xab, 0xcd, 0xef, 0xfe, 0xdc, 0xba, 0x98, 0x76, 0x54, 0x32, 0x10]
  {
  }

  class Context {
    const transform: (Hash, seq<Byte>) -> Hash
    var buf: Hash
    var bytes0: nat
    var bytes1: nat
    const block: array<Byte>
    ghost var message: seq<Byte>      // everything hashed so far
    ghost var passed: seq<Byte>       // the blocks given to the transform, joined

    ghost predicate Counted()
      reads this`bytes0, this`bytes1, this`message
    {
      bytes0 == |message| % WORD && bytes1 == |message| / WORD % WORD
    }

    /** Whole blocks are hashed, the rest waits in the block buffer. */
    ghost predicate Valid()
      reads this, block
    {
      && block.Length == 64 && Counted()
      && |passed| % 64 == 0 && |passed| <= |message| < |passed| + 64 && message == passed + block[..|message| - |passed|]
      && buf == Absorb(transform, INITIAL, passed)
    }

    /** SquidMD5Init. */
    constructor (transform: (Hash, seq<Byte>) -> Hash)
      ensures Valid() && message == [] && passed == [] && fresh(block)
      ensures this.transform == transform
    {
      this.transform, buf := transform, INITIAL;
      bytes0, bytes1 := 0, 0;
      block := new Byte[64](_ => 0);
      message, passed := [], [];
    }

    /** memcpy into the block buffer. */
    method Copy(at: nat, data: seq<Byte>)
      requires block.Length == 64 && at + |data| <= 64
      modifies block
      ensures block[..at + |data|] == old(block[..at]) + data
      ensures block[at + |data|..] == old(block[at + |data|..])
    {
      forall i | 0 <= i < |data| { block[at + i] := data[i]; }
      assert block[..at] == old(block[..at]) && block[at..at + |data|] == data;
      assert block[..at + |data|] == block[..at] + block[at..at + |data|];
    }

    /** SquidMD5Transform on the full block buffer. */
    method Transform()
      requires block.Length == 64 && |passed| % 64 == 0 && buf == Absorb(transform, INITIAL, passed)
      modifies this`buf, this`passed
      ensures passed == old(passed) + block[..] && |passed| % 64 == 0 && buf == Absorb(transform, INITIAL, passed)
    {
      AbsorbMore(transform, INITIAL, passed, block[..]);
      buf := transform(buf, block[..]);
      passed := passed + block[..];
    }

    /** The counter part of SquidMD5Update. */
    method CountMore(data: seq<Byte>) returns (t: nat)
      requires Counted() && |data| < WORD
      modifies this`bytes0, this`bytes1, this`message
      ensures Counted() && message == old(message) + data && t == old(bytes0)
    {
      Carry(|message|, |data|);
      t := bytes0;
      bytes0 := (t + |data|) % WORD;
      if bytes0 < t { bytes1 := (bytes1 + 1) % WORD; }
      message := message + data;
    }

    lemma Waiting()
      requires Valid()
      ensures bytes0 % 64 == |message| - |passed|
    {
      var (n, p) := (|message|, |passed|);
      DivMod(n, 64, p / 64, n - p);
      LowSix(n);
    }

    /** The hashed blocks, whatever waits. */
    ghost predicate Hashed()
      reads this`passed, this`buf
    {
      |passed| % 64 == 0 && buf == Absorb(transform, INITIAL, passed)
    }

    lemma ValidMeans()
      requires Valid()
      ensures block.Length == 64 && Counted() && Hashed() && |passed| <= |message| < |passed| + 64
      ensures message == passed + block[..|message| - |passed|] && bytes0 % 64 == |message| - |passed|
    {
      Waiting();
    }

    lemma ValidIs(rest: seq<Byte>)
      requires block.Length == 64 && Counted() && Hashed() && |rest| < 64 && message == passed + rest && block[..|rest|] == rest
      ensures Valid()
    {
    }

    /** The part of `data` that fills the block buffer. */
    method FillUp(at: nat, data: seq<Byte>)
      requires block.Length == 64 && at + |data| == 64 && Hashed()
      modifies block, this`buf, this`passed
      ensures Hashed() && passed == old(passed) + old(block[..at]) + data
    {
      hide Absorb;
      Copy(at, data);
      assert block[..64] == block[..];
      Transform();
    }

    /** Whole blocks, straight from the data. */
    method Blocks(data: seq<Byte>, i0: nat) returns (i: nat)
      requires block.Length == 64 && i0 <= |data| && Hashed()
      modifies block, this`buf, this`passed
      ensures i0 <= i <= |data| < i + 64 && Hashed() && passed + data[i..] == old(passed) + data[i0..]
    {
      hide Context.Hashed;
      i := i0;
      ghost var all := passed + data[i0..];
      while |data| - i >= 64
        invariant i0 <= i <= |data| && block.Length == 64 && Hashed() && passed + data[i..] == all
      {
        assert data[i..] == data[i..i + 64] + data[i + 64..];
        assert block[..0] == [];
        FillUp(0, data[i..i + 64]);
        i := i + 64;
      }
    }

    /** The data does not fill the block buffer. */
    method Keep(at: nat, data: seq<Byte>)
      requires block.Length == 64 && at + |data| < 64 && Counted() && Hashed() && message == passed + (block[..at] + data)
      modifies block
      ensures Valid()
    {
      hide *;
      Copy(at, data);
      ValidIs(block[..at + |data|]);
    }

    /** The data fills the block buffer: whole blocks are hashed and the rest is kept. */
    method Spill(at: nat, data: seq<Byte>)
      requires block.Length == 64 && at <= 64 <= at + |data| && Counted() && Hashed() && message == passed + (block[..at] + data)
      modifies this`buf, this`passed, block
      ensures Valid()
    {
      hide *;
      var t := 64 - at;
      Regroup(passed, block[..at], data, t);
      FillUp(at, data[..t]);
      var i := Blocks(data, t);
      Copy(0, data[i..]);
      assert block[..0] + data[i..] == data[i..];
      ValidIs(data[i..]);
    }

    /** SquidMD5Update: fill the block buffer, then whole blocks, then keep the rest. */
    method Update(data: seq<Byte>)
      requires Valid() && |data| < WORD
      modifies this, block
      ensures Valid() && message == old(message) + data
    {
      hide *;
      ValidMeans();
      ghost var (p0, b0) := (passed, block[..|message| - |passed|]);
      var t := CountMore(data);
      assert p0 + b0 + data == p0 + (b0 + data);
      t := 64 - t % 64;
      if t > |data| {
        Keep(64 - t, data);
        return;
      }
      Spill(64 - t, data);
    }

    /** The block buffer from `at` on, filled with the pad byte and zeros. */
    method PadTo(at: nat, end: nat)
      requires block.Length == 64 && at < end <= 64
      modifies block
      ensures block[..end] == old(block[..at]) + [0x80] + Zeros(end - at - 1)
    {
      Copy(at, [0x80]);
      assert block[..at + 1] == old(block[..at]) + [0x80];
      Copy(at + 1, Zeros(end - at - 1));
    }

    /** The count, and the last block. */
    method Finish()
      requires block.Length == 64 && Hashed()
      modifies block, this`buf, this`passed
      ensures Hashed() && passed == old(passed) + old(block[..56]) + Shifted(bytes0, bytes1)
    {
      hide Absorb, Little;
      ghost var count := Shifted(bytes0, bytes1);
      Copy(56, Little(bytes0 * 8 % WORD));
      Copy(60, Little((bytes1 * 8 % WORD + bytes0 / 0x2000_0000) % WORD));
      assert block[..64] == block[..];
      assert block[..] == old(block[..56]) + count;
      Transform();
    }

    /** SquidMD5Final: the blocks hashed are those of the padded message; nothing of it stays in the context. */
    method Final() returns (digest: seq<Byte>)
      requires Valid()
      modifies this, block
      ensures |Padded(old(message))| % 64 == 0 && digest == Bytes(Absorb(transform, INITIAL, Padded(old(message))))
      ensures passed == Padded(old(message))
      ensures buf == Hash(0, 0, 0, 0) && bytes0 == 0 && bytes1 == 0 && block[..] == Zeros(64)
    {
      hide *;
      ValidMeans();
      PaddedLength(message);
      var count := bytes0 % 64;
      ghost var (p0, b0) := (passed, block[..count]);
      FinalBytes(message, passed, b0);
      BitCount(|message|);
      CountedMeans();
      if 55 - count < 0 {
        PadTo(count, 64);
        ghost var full := block[..64];
        FillUp(64, []);
        assert p0 + full + [] == p0 + full;
        Copy(0, Zeros(56));
        assert block[..0] + Zeros(56) == Zeros(56);
        assert block[..56] == Zeros(56) && passed == p0 + full;
      } else {
        PadTo(count, 56);
      }
      Finish();
      assert passed == Padded(message);
      HashedMeans();
      digest := Bytes(buf);
      buf, bytes0, bytes1 := Hash(0, 0, 0, 0), 0, 0;
      Copy(0, Zeros(64));
      assert block[..0] + Zeros(64) == Zeros(64) && block[..64] == block[..];
    }

    lemma CountedMeans()
      requires Counted()
      ensures bytes0 == |message| % WORD && bytes1 == |message| / WORD % WORD
    {
    }

    lemma HashedMeans()
      requires Hashed()
      ensures |passed| % 64 == 0 && buf == Absorb(transform, INITIAL, passed)
    {
    }
  }

  /** The padded message in terms of the last partial block. */
  lemma {:induction false} FinalBytes(m: seq<Byte>, p: seq<Byte>, b: seq<Byte>)
    requires m == p + b && |b| < 64 && |p| % 64 == 0
    ensures var count := Count(8 * |m| % LONG);
            Padded(m) ==
            if |b| > 55 then p + (b + [0x80] + Zeros(63 - |b|)) + Zeros(56) + count
            else p + (b + [0x80] + Zeros(55 - |b|)) + count
  {
    hide Count;
    DivMod(|m|, 64, |p| / 64, |b|);
    var count := Count(8 * |m| % LONG);
    if |b| > 55 {
      assert Gap(|m|) == 63 - |b| + 56;
      assert Zeros(63 - |b| + 56) == Zeros(63 - |b|) + Zeros(56);
      Assoc(p, b, Zeros(63 - |b|), Zeros(56), count);
    } else {
      assert Gap(|m|) == 55 - |b|;
      Assoc(p, b, Zeros(55 - |b|), [], count);
    }
  }

  lemma Regroup(p: seq<Byte>, b: seq<Byte>, data: seq<Byte>, t: nat)
    requires t <= |data|
    ensures p + (b + data) == p + b + data[..t] + data[t..]
  {
  }

  lemma Assoc(p: seq<Byte>, b: seq<Byte>, z: seq<Byte>, y: seq<Byte>, c: seq<Byte>)
    ensures p + b + [0x80] + (z + y) + c == p + (b + [0x80] + z) + y + c
    ensures y == [] ==> p + b + [0x80] + z + c == p + (b + [0x80] + z) + c
  {
  }

  lemma {:induction false} LowSix(n: nat)
    ensures n % WORD % 64 == n % 64
  {
    var (q, r) := (n / WORD, n % WORD);
    assert n == q * WORD + r;
    DivMod(n, 64, q * 0x400_0000 + r / 64, r % 64);
  }

  /** Whatever the pieces, the digest is that of the padded message. */
  method Digest(transform: (Hash, seq<Byte>) -> Hash, pieces: seq<seq<Byte>>) returns (digest: seq<Byte>)
    requires forall i :: 0 <= i < |pieces| ==> |pieces[i]| < WORD
    ensures |Padded(Flatten(pieces))| % 64 == 0
    ensures digest == Bytes(Absorb(transform, INITIAL, Padded(Flatten(pieces))))
  {
    hide Context.Valid, Flatten, Padded, Absorb, Bytes;
    var ctx := new Context(transform);
    FlattenNone<Byte>();
    var i := 0;
    assert pieces[..0] == [];
    while i < |pieces|
      invariant 0 <= i <= |pieces| && fresh(ctx) && fresh(ctx.block) && ctx.Valid() && ctx.transform == transform
      invariant ctx.message == Flatten(pieces[..i])
    {
      FlattenMore(pieces, i);
      ctx.Update(pieces[i]);
      i := i + 1;
    }
    assert pieces[..i] == pieces;
    digest := ctx.Final();
  }
}
