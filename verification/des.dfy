/**
 lib/encrypt.c: the DES block transformation (FIPS PUB 46-3). The S-boxes, the expansion table and the
 permutation P are kept abstract: what is proved holds for all of them.
 */
module Des {
  import opened Arithmetic
  import opened Basics

  type Bits = seq<bool>

  // ---------- the initial and the final permutation ----------

  /** The table IP: eight rows, each falling by eight. */
  function Ip(i: nat): (j: nat)
    requires i < 64
    ensures j < 64
  {
    var (r, c) := (i / 8, i % 8);
    (if r < 4 then 57 + 2 * r else 48 + 2 * r) - 8 * c
  }

  /** The table EP: eight rows, alternating between the lower and the upper half. */
  function Ep(i: nat): (j: nat)
    requires i < 64
    ensures j < 64
  {
    var (r, c) := (i / 8, i % 8);
    7 - r + 8 * (c / 2) + 32 * (c % 2)
  }

  function Swapped(i: nat): (j: nat)
    requires i < 64
    ensures j < 64
  {
    if i < 32 then i + 32 else i - 32
  }

  /** EP undoes IP but for a swap of the halves. */
  lemma EpIp(i: nat)
    requires i < 64
    ensures Ep(Ip(i)) == Swapped(i)
  {
    var (r, c) := (i / 8, i % 8);
    var j := Ip(i);
    if r < 4 {
      assert j / 8 == 7 - c && j % 8 == 1 + 2 * r;
    } else {
      assert j / 8 == 7 - c && j % 8 == 2 * (r - 4);
    }
  }

  lemma IpEp(i: nat)
    requires i < 64
    ensures Ip(Swapped(Ep(i))) == i
  {
    var (r, c) := (i / 8, i % 8);
    var k := Swapped(Ep(i));
    if c % 2 == 0 {
      assert k / 8 == c / 2 + 4 && k % 8 == 7 - r;
    } else {
      assert k / 8 == c / 2 && k % 8 == 7 - r;
    }
  }

  lemma IpAt(r: nat, c: nat)
    requires r < 8 && c < 8
    ensures Ip(8 * r + c) == (if r < 4 then 57 + 2 * r else 48 + 2 * r) - 8 * c
  {
    assert (8 * r + c) / 8 == r && (8 * r + c) % 8 == c;
  }

  lemma IpRow(r: nat)
    requires r < 8
    ensures var a := if r < 4 then 57 + 2 * r else 48 + 2 * r;
            IpTable()[8 * r..8 * r + 8] == [a, a - 8, a - 16, a - 24, a - 32, a - 40, a - 48, a - 56]
  {
    hide Ip, IpTable;
    var row := IpTable()[8 * r..8 * r + 8];
    forall c: nat | c < 8 ensures row[c] == (if r < 4 then 57 + 2 * r else 48 + 2 * r) - 8 * c {
      assert row[c] == IpTable()[8 * r + c];
      IpAt(r, c);
    }
  }

  /** The table IP of FIPS PUB 46-3, its positions counted from zero. */
  lemma {:induction false} IpLiteral()
    ensures IpTable()[0..8] == [57, 49, 41, 33, 25, 17, 9, 1]
    ensures IpTable()[8..16] == [59, 51, 43, 35, 27, 19, 11, 3]
    ensures IpTable()[16..24] == [61, 53, 45, 37, 29, 21, 13, 5]
    ensures IpTable()[24..32] == [63, 55, 47, 39, 31, 23, 15, 7]
    ensures IpTable()[32..40] == [56, 48, 40, 32, 24, 16, 8, 0]
    ensures IpTable()[40..48] == [58, 50, 42, 34, 26, 18, 10, 2]
    ensures IpTable()[48..56] == [60, 52, 44, 36, 28, 20, 12, 4]
    ensures IpTable()[56..64] == [62, 54, 46, 38, 30, 22, 14, 6]
  {
    hide Ip;
    IpRow(0); IpRow(1); IpRow(2); IpRow(3);
    IpRow(4); IpRow(5); IpRow(6); IpRow(7);
  }

  lemma EpAt(r: nat, c: nat)
    requires r < 8 && c < 8
    ensures Ep(8 * r + c) == 7 - r + 8 * (c / 2) + 32 * (c % 2)
  {
    assert (8 * r + c) / 8 == r && (8 * r + c) % 8 == c;
  }

  lemma EpRow(r: nat)
    requires r < 8
    ensures EpTable()[8 * r..8 * r + 8] == [7 - r, 39 - r, 15 - r, 47 - r, 23 - r, 55 - r, 31 - r, 63 - r]
  {
    hide Ep, EpTable;
    var row := EpTable()[8 * r..8 * r + 8];
    forall c: nat | c < 8 ensures row[c] == 7 - r + 8 * (c / 2) + 32 * (c % 2) {
      assert row[c] == EpTable()[8 * r + c];
      EpAt(r, c);
    }
  }

  /** The table EP of the code. */
  lemma {:induction false} EpLiteral()
    ensures EpTable()[0..8] == [7, 39, 15, 47, 23, 55, 31, 63]
    ensures EpTable()[8..16] == [6, 38, 14, 46, 22, 54, 30, 62]
    ensures EpTable()[16..24] == [5, 37, 13, 45, 21, 53, 29, 61]
    ensures EpTable()[24..32] == [4, 36, 12, 44, 20, 52, 28, 60]
    ensures EpTable()[32..40] == [3, 35, 11, 43, 19, 51, 27, 59]
    ensures EpTable()[40..48] == [2, 34, 10, 42, 18, 50, 26, 58]
    ensures EpTable()[48..56] == [1, 33, 9, 41, 17, 49, 25, 57]
    ensures EpTable()[56..64] == [0, 32, 8, 40, 16, 48, 24, 56]
  {
    hide Ep;
    EpRow(0); EpRow(1); EpRow(2); EpRow(3);
    EpRow(4); EpRow(5); EpRow(6); EpRow(7);
  }

  function Initial(b: Bits): (r: Bits)
    requires |b| == 64
    ensures |r| == 64 && forall i :: 0 <= i < 64 ==> r[i] == b[Ip(i)]
  {
    seq(64, i requires 0 <= i < 64 => b[Ip(i)])
  }

  function Final(b: Bits): (r: Bits)
    requires |b| == 64
    ensures |r| == 64 && forall i :: 0 <= i < 64 ==> r[i] == b[Ep(i)]
  {
    seq(64, i requires 0 <= i < 64 => b[Ep(i)])
  }

  lemma {:induction false} FinalThenInitial(l: Bits, r: Bits)
    requires |l| == 32 && |r| == 32
    ensures Initial(Final(l + r)) == r + l
  {
    hide Ip, Ep;
    forall i | 0 <= i < 64 ensures Initial(Final(l + r))[i] == (r + l)[i] { EpIp(i); }
  }

  lemma {:induction false} InitialThenFinal(b: Bits)
    requires |b| == 64
    ensures var t := Initial(b); Final(t[32..] + t[..32]) == b
  {
    hide Ip, Ep;
    var t := Initial(b);
    var u := t[32..] + t[..32];
    forall i | 0 <= i < 64 ensures Final(u)[i] == b[i] {
      IpEp(i);
      assert u[Ep(i)] == t[Swapped(Ep(i))];
    }
  }

  // ---------- sixteen Feistel rounds ----------

  /** The tables that the result does not depend on. */
  datatype Tables = Tables(e: seq<nat>, p: seq<nat>, sbox: (nat, nat) -> nat) {
    predicate Valid() {
      |e| == 48 && |p| == 32 && (forall i :: 0 <= i < 48 ==> e[i] < 32) && (forall i :: 0 <= i < 32 ==> p[i] < 32)
    }
  }

  function Xor(a: Bits, b: Bits): (r: Bits)
    requires |a| == |b|
    ensures |r| == |a| && forall i :: 0 <= i < |a| ==> r[i] == (a[i] != b[i])
  {
    seq(|a|, i requires 0 <= i < |a| => a[i] != b[i])
  }

  /** The value of bits read from the front. */
  function Number(b: Bits): nat {
    if b == [] then 0 else 2 * Number(b[..|b| - 1]) + (if b[|b| - 1] then 1 else 0)
  }

  /** The six expanded and keyed bits of S-box `i`. */
  function Six(t: Tables, r: Bits, key: Bits, i: nat): (b: Bits)
    requires t.Valid() && |r| == 32 && |key| == 48 && i < 8
    ensures |b| == 6
  {
    seq(6, j requires 0 <= j < 6 => r[t.e[6 * i + j]] != key[6 * i + j])
  }

  function BitAt(n: nat, j: nat): bool {
    if j == 0 then n % 2 == 1 else BitAt(n / 2, j - 1)
  }

  /** The 32 bits from the S-boxes, four from each, most significant first. */
  function Substituted(t: Tables, r: Bits, key: Bits): (b: Bits)
    requires t.Valid() && |r| == 32 && |key| == 48
    ensures |b| == 32
  {
    seq(32, k requires 0 <= k < 32 => BitAt(t.sbox(k / 4, Number(Six(t, r, key, k / 4))), 3 - k % 4))
  }

  /** The cipher function f of a half block and a key. */
  function Round(t: Tables, r: Bits, key: Bits): (b: Bits)
    requires t.Valid() && |r| == 32 && |key| == 48
    ensures |b| == 32
  {
    seq(32, i requires 0 <= i < 32 => Substituted(t, r, key)[t.p[i]])
  }

  function Bit(b: bool): nat {
    if b then 1 else 0
  }

  /** The index of S-box `k`: six bits of the expanded half, each combined with its bit of the key. */
  lemma SixIs(t: Tables, r: Bits, key: Bits, k: nat)
    requires t.Valid() && |r| == 32 && |key| == 48 && k < 8
    ensures Number(Six(t, r, key, k)) ==
            32 * Bit(r[t.e[6 * k]] != key[6 * k]) + 16 * Bit(r[t.e[6 * k + 1]] != key[6 * k + 1]) +
            8 * Bit(r[t.e[6 * k + 2]] != key[6 * k + 2]) + 4 * Bit(r[t.e[6 * k + 3]] != key[6 * k + 3]) +
            2 * Bit(r[t.e[6 * k + 4]] != key[6 * k + 4]) + Bit(r[t.e[6 * k + 5]] != key[6 * k + 5])
  {
    var six := Six(t, r, key, k);
    NumberOfSix(six);
  }

  lemma NumberMore(b: Bits, n: nat)
    requires n < |b|
    ensures Number(b[..n + 1]) == 2 * Number(b[..n]) + Bit(b[n])
  {
    assert b[..n + 1][..n] == b[..n];
  }

  lemma NumberOfSix(b: Bits)
    requires |b| == 6
    ensures Number(b) == 32 * Bit(b[0]) + 16 * Bit(b[1]) + 8 * Bit(b[2]) + 4 * Bit(b[3]) + 2 * Bit(b[4]) + Bit(b[5])
  {
    assert Number(b[..0]) == 0;
    NumberMore(b, 0);
    NumberMore(b, 1);
    NumberMore(b, 2);
    NumberMore(b, 3);
    NumberMore(b, 4);
    NumberMore(b, 5);
    assert b[..6] == b;
  }

  /** Every S-box index is below 64. */
  lemma {:induction false} SixBits(b: Bits)
    ensures Number(b) < Pow2(|b|)
  {
    if b != [] { SixBits(b[..|b| - 1]); }
  }

  predicate KeysOK(ks: seq<Bits>) {
    |ks| % 2 == 0 && forall i :: 0 <= i < |ks| ==> |ks[i]| == 48
  }

  /** Two rounds for each two keys: the left half changes, then the right. */
  function Rounds(t: Tables, l: Bits, r: Bits, ks: seq<Bits>): (h: (Bits, Bits))
    requires t.Valid() && |l| == 32 && |r| == 32 && KeysOK(ks)
    ensures |h.0| == 32 && |h.1| == 32
    decreases |ks|
  {
    if ks == [] then (l, r)
    else
      var l1 := Xor(l, Round(t, r, ks[0]));
      var r1 := Xor(r, Round(t, l1, ks[1]));
      Rounds(t, l1, r1, ks[2..])
  }

  /** The rounds of section "Enciphering" of FIPS PUB 46-3, one for each key: L' = R and R' = L xor f(R, K). */
  function Standard(t: Tables, l: Bits, r: Bits, ks: seq<Bits>): (h: (Bits, Bits))
    requires t.Valid() && |l| == 32 && |r| == 32 && forall i :: 0 <= i < |ks| ==> |ks[i]| == 48
    ensures |h.0| == 32 && |h.1| == 32
    decreases |ks|
  {
    if ks == [] then (l, r) else Standard(t, r, Xor(l, Round(t, r, ks[0])), ks[1..])
  }

  /** The code, which never exchanges the halves, performs those rounds. */
  lemma {:induction false} RoundsStandard(t: Tables, l: Bits, r: Bits, ks: seq<Bits>)
    requires t.Valid() && |l| == 32 && |r| == 32 && KeysOK(ks)
    ensures Rounds(t, l, r, ks) == Standard(t, l, r, ks)
    decreases |ks|
  {
    hide Round, Xor;
    if ks != [] {
      var l1 := Xor(l, Round(t, r, ks[0]));
      var r1 := Xor(r, Round(t, l1, ks[1]));
      RoundsStandard(t, l1, r1, ks[2..]);
      assert ks[1..][0] == ks[1] && ks[1..][1..] == ks[2..];
      assert Standard(t, r, l1, ks[1..]) == Standard(t, l1, r1, ks[2..]);
    }
  }

  // ---------- complementation ----------

  function Not(b: Bits): (r: Bits)
    ensures |r| == |b| && forall i :: 0 <= i < |b| ==> r[i] == !b[i]
  {
    seq(|b|, i requires 0 <= i < |b| => !b[i])
  }

  function NotAll(ks: seq<Bits>): (r: seq<Bits>)
    ensures |r| == |ks| && forall i :: 0 <= i < |ks| ==> r[i] == Not(ks[i])
  {
    seq(|ks|, i requires 0 <= i < |ks| => Not(ks[i]))
  }

  /** The cipher function sees a half only combined with the key: complementing both changes nothing. */
  lemma {:induction false} RoundComplement(t: Tables, r: Bits, key: Bits)
    requires t.Valid() && |r| == 32 && |key| == 48
    ensures Round(t, Not(r), Not(key)) == Round(t, r, key)
  {
    hide Number, BitAt;
    forall k | 0 <= k < 8 ensures Six(t, Not(r), Not(key), k) == Six(t, r, key, k) {
      SixComplement(t, r, key, k);
    }
    assert Substituted(t, Not(r), Not(key)) == Substituted(t, r, key);
  }

  lemma {:induction false} SixComplement(t: Tables, r: Bits, key: Bits, k: nat)
    requires t.Valid() && |r| == 32 && |key| == 48 && k < 8
    ensures Six(t, Not(r), Not(key), k) == Six(t, r, key, k)
  {
    hide Not;
    forall j | 0 <= j < 6 ensures Six(t, Not(r), Not(key), k)[j] == Six(t, r, key, k)[j] {
      assert Not(r)[t.e[6 * k + j]] == !r[t.e[6 * k + j]];
    }
  }

  lemma {:induction false} XorComplement(a: Bits, b: Bits)
    requires |a| == |b|
    ensures Xor(Not(a), b) == Not(Xor(a, b))
  {
    assert forall i :: 0 <= i < |a| ==> Xor(Not(a), b)[i] == Not(Xor(a, b))[i];
  }

  lemma {:induction false} NotAllOK(ks: seq<Bits>)
    requires KeysOK(ks)
    ensures KeysOK(NotAll(ks))
  {
    forall i | 0 <= i < |ks| ensures |NotAll(ks)[i]| == 48 { assert NotAll(ks)[i] == Not(ks[i]); }
  }

  lemma {:induction false} RoundsComplement(t: Tables, l: Bits, r: Bits, ks: seq<Bits>)
    requires t.Valid() && |l| == 32 && |r| == 32 && KeysOK(ks)
    ensures KeysOK(NotAll(ks))
    ensures var h := Rounds(t, l, r, ks); Rounds(t, Not(l), Not(r), NotAll(ks)) == (Not(h.0), Not(h.1))
    decreases |ks|
  {
    hide Round, Xor, Not, NotAll;
    NotAllOK(ks);
    if ks != [] {
      var l1 := Xor(l, Round(t, r, ks[0]));
      var r1 := Xor(r, Round(t, l1, ks[1]));
      RoundComplement(t, r, ks[0]);
      XorComplement(l, Round(t, r, ks[0]));
      RoundComplement(t, l1, ks[1]);
      XorComplement(r, Round(t, l1, ks[1]));
      assert NotAll(ks)[2..] == NotAll(ks[2..]);
      RoundsComplement(t, l1, r1, ks[2..]);
    }
  }

  lemma {:induction false} MovedComplement(b: Bits)
    requires |b| == 64
    ensures Initial(Not(b)) == Not(Initial(b)) && Final(Not(b)) == Not(Final(b))
  {
    hide Ip, Ep;
    forall i | 0 <= i < 64 ensures Initial(Not(b))[i] == Not(Initial(b))[i] && Final(Not(b))[i] == Not(Final(b))[i] {
      assert Not(b)[Ip(i)] == !b[Ip(i)] && Not(b)[Ep(i)] == !b[Ep(i)];
    }
  }

  /**
   The complementation law: the complemented block under the complemented keys gives the complemented cipher.
   It holds for every S-box, expansion and permutation, because the key enters each round next to the half.
   */
  lemma {:induction false} Complementation(t: Tables, b: Bits, ks: seq<Bits>)
    requires t.Valid() && |b| == 64 && KeysOK(ks)
    ensures KeysOK(NotAll(ks)) && Cipher(t, Not(b), NotAll(ks)) == Not(Cipher(t, b, ks))
  {
    hide Initial, Final, Rounds, Not, NotAll;
    var x := Initial(b);
    var (l, r) := (x[..32], x[32..]);
    MovedComplement(b);
    assert Not(x)[..32] == Not(l) && Not(x)[32..] == Not(r);
    RoundsComplement(t, l, r, ks);
    var h := Rounds(t, l, r, ks);
    assert Not(h.0) + Not(h.1) == Not(h.0 + h.1);
    MovedComplement(h.0 + h.1);
  }

  lemma XorTwice(a: Bits, b: Bits)
    requires |a| == |b|
    ensures Xor(Xor(a, b), b) == a
  {
  }

  lemma {:induction false} RoundsConcat(t: Tables, l: Bits, r: Bits, a: seq<Bits>, b: seq<Bits>)
    requires t.Valid() && |l| == 32 && |r| == 32 && KeysOK(a) && KeysOK(b)
    ensures KeysOK(a + b)
    ensures var h := Rounds(t, l, r, a); Rounds(t, l, r, a + b) == Rounds(t, h.0, h.1, b)
    decreases |a|
  {
    hide Round, Xor;
    if a == [] {
      assert a + b == b;
    } else {
      var l1 := Xor(l, Round(t, r, a[0]));
      var r1 := Xor(r, Round(t, l1, a[1]));
      assert (a + b)[2..] == a[2..] + b;
      RoundsConcat(t, l1, r1, a[2..], b);
    }
  }

  function Reversed(ks: seq<Bits>): (r: seq<Bits>)
    ensures |r| == |ks| && forall i :: 0 <= i < |ks| ==> r[i] == ks[|ks| - 1 - i]
  {
    seq(|ks|, i requires 0 <= i < |ks| => ks[|ks| - 1 - i])
  }

  /** One pair of rounds is undone by the same keys in reverse order on swapped halves. */
  lemma {:induction false} PairUndone(t: Tables, l: Bits, r: Bits, k0: Bits, k1: Bits)
    requires t.Valid() && |l| == 32 && |r| == 32 && |k0| == 48 && |k1| == 48
    ensures var l1 := Xor(l, Round(t, r, k0));
            var r1 := Xor(r, Round(t, l1, k1));
            Rounds(t, r1, l1, [k1, k0]) == (r, l)
  {
    hide Round, Xor;
    var l1 := Xor(l, Round(t, r, k0));
    var r1 := Xor(r, Round(t, l1, k1));
    XorTwice(r, Round(t, l1, k1));
    XorTwice(l, Round(t, r, k0));
    assert [k1, k0][2..] == [];
  }

  /** All rounds are undone by the keys in reverse order on swapped halves. */
  lemma {:induction false} RoundsUndone(t: Tables, l: Bits, r: Bits, ks: seq<Bits>)
    requires t.Valid() && |l| == 32 && |r| == 32 && KeysOK(ks)
    ensures KeysOK(Reversed(ks))
    ensures var h := Rounds(t, l, r, ks); Rounds(t, h.1, h.0, Reversed(ks)) == (r, l)
    decreases |ks|
  {
    hide Round, Xor;
    if ks == [] {
      assert Reversed(ks) == [];
    } else {
      var l1 := Xor(l, Round(t, r, ks[0]));
      var r1 := Xor(r, Round(t, l1, ks[1]));
      var h := Rounds(t, l1, r1, ks[2..]);
      RoundsUndone(t, l1, r1, ks[2..]);
      assert Reversed(ks) == Reversed(ks[2..]) + [ks[1], ks[0]];
      RoundsConcat(t, h.1, h.0, Reversed(ks[2..]), [ks[1], ks[0]]);
      PairUndone(t, l, r, ks[0], ks[1]);
    }
  }

  /** The whole transformation of a block under a list of keys. */
  function Cipher(t: Tables, b: Bits, ks: seq<Bits>): (r: Bits)
    requires t.Valid() && |b| == 64 && KeysOK(ks)
    ensures |r| == 64
  {
    var x := Initial(b);
    var h := Rounds(t, x[..32], x[32..], ks);
    Final(h.0 + h.1)
  }

  /** The cipher of FIPS PUB 46-3: the inverse of IP applied to R16 L16. */
  lemma {:induction false} CipherStandard(t: Tables, b: Bits, ks: seq<Bits>)
    requires t.Valid() && |b| == 64 && KeysOK(ks)
    ensures var x := Initial(b); var h := Standard(t, x[..32], x[32..], ks);
            Initial(Cipher(t, b, ks)) == h.1 + h.0
  {
    hide Initial, Final, Rounds, Standard;
    var x := Initial(b);
    RoundsStandard(t, x[..32], x[32..], ks);
    var h := Rounds(t, x[..32], x[32..], ks);
    FinalThenInitial(h.0, h.1);
  }

  /** Deciphering undoes enciphering, for every key list, expansion table and block. */
  lemma {:induction false} Deciphers(t: Tables, b: Bits, ks: seq<Bits>)
    requires t.Valid() && |b| == 64 && KeysOK(ks)
    ensures KeysOK(Reversed(ks)) && Cipher(t, Cipher(t, b, ks), Reversed(ks)) == b
  {
    hide Initial, Final, Rounds, Reversed;
    var x := Initial(b);
    var (l, r) := (x[..32], x[32..]);
    var h := Rounds(t, l, r, ks);
    FinalThenInitial(h.0, h.1);
    RoundsUndone(t, l, r, ks);
    var y := h.1 + h.0;
    assert y[..32] == h.1 && y[32..] == h.0;
    InitialThenFinal(b);
  }

  /** And the other way round. */
  lemma {:induction false} Enciphers(t: Tables, b: Bits, ks: seq<Bits>)
    requires t.Valid() && |b| == 64 && KeysOK(ks)
    ensures KeysOK(Reversed(ks)) && Cipher(t, Cipher(t, b, Reversed(ks)), ks) == b
  {
    hide Cipher;
    assert KeysOK(Reversed(ks));
    assert Reversed(Reversed(ks)) == ks;
    Deciphers(t, b, Reversed(ks));
  }

  // ---------- the code ----------

  /** The loop over six bits that makes an S-box index. */
  method Index(t: Tables, tmp: array<bool>, right: nat, key: Bits, i: nat) returns (sbval: nat)
    requires t.Valid() && |key| == 48 && i < 8 && right + 32 <= tmp.Length
    ensures sbval == Number(Six(t, tmp[right..right + 32], key, i)) && sbval < 64
  {
    ghost var six := Six(t, tmp[right..right + 32], key, i);
    sbval := 0;
    assert six[..0] == [];
    for j := 0 to 6
      invariant sbval == Number(six[..j])
    {
      assert six[..j + 1][..j] == six[..j];
      sbval := 2 * sbval + (if tmp[right + t.e[6 * i + j]] != key[6 * i + j] then 1 else 0);
    }
    assert six[..6] == six;
    SixBits(six);
    assert Pow2(6) == 64 by { assert Pow2(2) == 4 && Pow2(4) == 16; }
  }

  function Halved(v: nat, n: nat): nat {
    if n == 0 then v else Halved(v, n - 1) / 2
  }

  lemma {:induction false} HalvedFirst(v: nat, n: nat)
    ensures Halved(v, n + 1) == Halved(v / 2, n)
  {
    if n > 0 { HalvedFirst(v, n - 1); }
  }

  lemma {:induction false} HalvedBit(v: nat, n: nat)
    ensures BitAt(v, n) == (Halved(v, n) % 2 == 1) && Halved(v, n + 1) == Halved(v, n) / 2 && Halved(v, 0) == v
  {
    if n > 0 {
      HalvedFirst(v, n - 1);
      HalvedBit(v / 2, n - 1);
    }
  }

  /** The four bits of an S-box value, stored from the last to the first. */
  method Store(out: array<bool>, at: nat, value: nat)
    requires at + 4 <= out.Length
    modifies out
    ensures forall k :: at <= k < at + 4 ==> out[k] == BitAt(value, 3 - (k - at))
    ensures forall k :: 0 <= k < out.Length && !(at <= k < at + 4) ==> out[k] == old(out[k])
  {
    hide BitAt, Halved;
    var sbval := value;
    var tp := at + 4;
    HalvedBit(value, 0);
    while tp > at
      invariant at <= tp <= at + 4 && sbval == Halved(value, at + 4 - tp)
      invariant forall k :: tp <= k < at + 4 ==> out[k] == BitAt(value, 3 - (k - at))
      invariant forall k :: 0 <= k < out.Length && !(at <= k < at + 4) ==> out[k] == old(out[k])
    {
      HalvedBit(value, at + 4 - tp);
      tp := tp - 1;
      out[tp] := sbval % 2 == 1;
      sbval := sbval / 2;
    }
  }

  /** Bit `i` of the cipher function, in the bits of the half and of the key. */
  lemma RoundAt(t: Tables, r: Bits, key: Bits, i: nat)
    requires t.Valid() && |r| == 32 && |key| == 48 && i < 32
    ensures var k := t.p[i] / 4;
            Round(t, r, key)[i] == BitAt(t.sbox(k,
              32 * Bit(r[t.e[6 * k]] != key[6 * k]) + 16 * Bit(r[t.e[6 * k + 1]] != key[6 * k + 1]) +
              8 * Bit(r[t.e[6 * k + 2]] != key[6 * k + 2]) + 4 * Bit(r[t.e[6 * k + 3]] != key[6 * k + 3]) +
              2 * Bit(r[t.e[6 * k + 4]] != key[6 * k + 4]) + Bit(r[t.e[6 * k + 5]] != key[6 * k + 5])), 3 - t.p[i] % 4)
  {
    hide Number, Six, BitAt, Bit;
    var at := t.p[i];
    assert Round(t, r, key)[i] == Substituted(t, r, key)[at];
    assert Substituted(t, r, key)[at] == BitAt(t.sbox(at / 4, Number(Six(t, r, key, at / 4))), 3 - at % 4);
    SixIs(t, r, key, at / 4);
  }

  /** Bit `j` of a number in binary. */
  lemma {:induction false} BitAtIs(n: nat, j: nat)
    ensures BitAt(n, j) == (n / Pow2(j) % 2 == 1)
  {
    if j > 0 {
      BitAtIs(n / 2, j - 1);
      DivTwice(n, 2, Pow2(j - 1));
    }
  }

  /**
   Half `l` has become `l'`: bit `i` is combined with bit `3 - p[i] % 4` of the entry of S-box `p[i] / 4` whose
   index is made of the expanded bits of the other half, each combined with its bit of the key.
   */
  ghost predicate Mixed(t: Tables, l: Bits, r: Bits, key: Bits, l': Bits)
    requires t.Valid() && |l| == 32 && |r| == 32 && |key| == 48
  {
    |l'| == 32 && forall i :: 0 <= i < 32 ==>
      var k := t.p[i] / 4;
      l'[i] == (l[i] != BitAt(t.sbox(k,
        32 * Bit(r[t.e[6 * k]] != key[6 * k]) + 16 * Bit(r[t.e[6 * k + 1]] != key[6 * k + 1]) +
        8 * Bit(r[t.e[6 * k + 2]] != key[6 * k + 2]) + 4 * Bit(r[t.e[6 * k + 3]] != key[6 * k + 3]) +
        2 * Bit(r[t.e[6 * k + 4]] != key[6 * k + 4]) + Bit(r[t.e[6 * k + 5]] != key[6 * k + 5])), 3 - t.p[i] % 4))
  }

  lemma {:induction false} XorRoundMixes(t: Tables, l: Bits, r: Bits, key: Bits)
    requires t.Valid() && |l| == 32 && |r| == 32 && |key| == 48
    ensures Mixed(t, l, r, key, Xor(l, Round(t, r, key)))
  {
    hide Xor, Round, BitAt, Bit;
    forall i | 0 <= i < 32 { RoundAt(t, r, key, i); }
  }

  /** The first loop of crypt_main: four bits from each of the eight S-boxes. */
  method SBoxes(t: Tables, tmp: array<bool>, right: nat, key: Bits) returns (out: array<bool>)
    requires t.Valid() && |key| == 48 && right + 32 <= tmp.Length
    ensures fresh(out) && out.Length == 48
    ensures forall k :: 0 <= k < 32 ==> out[k] == Substituted(t, tmp[right..right + 32], key)[k]
  {
    hide Number, Six, BitAt;
    ghost var r := tmp[right..right + 32];
    out := new bool[48](_ => false);
    var i := 0;
    while i < 8
      invariant 0 <= i <= 8 && tmp[right..right + 32] == r
      invariant forall k :: 0 <= k < 4 * i ==> out[k] == BitAt(t.sbox(k / 4, Number(Six(t, r, key, k / 4))), 3 - k % 4)
    {
      var sbval := Index(t, tmp, right, key, i);
      Store(out, 4 * i, t.sbox(i, sbval));
      forall k | 4 * i <= k < 4 * i + 4
        ensures out[k] == BitAt(t.sbox(k / 4, Number(Six(t, r, key, k / 4))), 3 - k % 4)
      {
        assert k / 4 == i && k % 4 == k - 4 * i;
      }
      i := i + 1;
    }
  }

  /** crypt_main: the half at `left` is combined with the keyed and substituted half at `right`, which stays. */
  method CryptMain(t: Tables, tmp: array<bool>, left: nat, right: nat, key: Bits)
    requires t.Valid() && |key| == 48 && tmp.Length == 64 && {left, right} == {0, 32}
    modifies tmp
    ensures tmp[left..left + 32] == Xor(old(tmp[left..left + 32]), Round(t, old(tmp[right..right + 32]), key))
    ensures tmp[right..right + 32] == old(tmp[right..right + 32])
    ensures Mixed(t, old(tmp[left..left + 32]), old(tmp[right..right + 32]), key, tmp[left..left + 32])
  {
    hide Mixed, Number, Six, Substituted, Round, Xor;
    ghost var (l, r) := (tmp[left..left + 32], tmp[right..right + 32]);
    var out := SBoxes(t, tmp, right, key);
    Combine(t, tmp, left, out, r, key);
    assert tmp[right..right + 32] == r;
    XorRoundMixes(t, l, r, key);
  }

  /** The last loop of crypt_main. */
  method Combine(t: Tables, tmp: array<bool>, left: nat, out: array<bool>, ghost r: Bits, ghost key: Bits)
    requires t.Valid() && |key| == 48 && |r| == 32 && tmp.Length == 64 && left + 32 <= 64 && out.Length == 48 && out != tmp
    requires forall k :: 0 <= k < 32 ==> out[k] == Substituted(t, r, key)[k]
    modifies tmp
    ensures tmp[left..left + 32] == Xor(old(tmp[left..left + 32]), Round(t, r, key))
    ensures forall k :: 0 <= k < 64 && !(left <= k < left + 32) ==> tmp[k] == old(tmp[k])
  {
    hide Substituted;
    var i := 0;
    while i < 32
      invariant 0 <= i <= 32
      invariant forall k :: 0 <= k < i ==> tmp[left + k] == (old(tmp[left + k]) != Round(t, r, key)[k])
      invariant forall k :: 0 <= k < 64 && !(left <= k < left + i) ==> tmp[k] == old(tmp[k])
    {
      tmp[left + i] := tmp[left + i] != out[t.p[i]];
      i := i + 1;
    }
  }

  /** perm: each of the first `n` bits comes from where the table says. */
  method Perm(dst: array<bool>, src: array<bool>, table: seq<nat>, n: nat)
    requires n <= |table| && n <= dst.Length && dst != src
    requires forall k :: 0 <= k < n ==> table[k] < src.Length
    modifies dst
    ensures forall k :: 0 <= k < n ==> dst[k] == src[table[k]]
    ensures dst[n..] == old(dst[n..])
  {
    var i := 0;
    while i < n
      invariant 0 <= i <= n
      invariant forall k :: 0 <= k < i ==> dst[k] == src[table[k]]
      invariant forall k :: n <= k < dst.Length ==> dst[k] == old(dst[k])
    {
      dst[i] := src[table[i]];
      i := i + 1;
    }
  }

  function IpTable(): (t: seq<nat>)
    ensures |t| == 64 && forall k :: 0 <= k < 64 ==> t[k] == Ip(k)
  {
    seq(64, k requires 0 <= k < 64 => Ip(k))
  }

  function EpTable(): (t: seq<nat>)
    ensures |t| == 64 && forall k :: 0 <= k < 64 ==> t[k] == Ep(k)
  {
    seq(64, k requires 0 <= k < 64 => Ep(k))
  }

  /** The keys in the order `encrypt` takes them. */
  function Schedule(ks: seq<Bits>, decr: bool): seq<Bits> {
    if decr then Reversed(ks) else ks
  }

  lemma ScheduleAt(ks: seq<Bits>, decr: bool, n: nat)
    requires |ks| == 16 && n < 16
    ensures |Schedule(ks, decr)| == 16 && Schedule(ks, decr)[n] == ks[if decr then 15 - n else n]
  {
  }

  lemma ScheduleOK(ks: seq<Bits>, decr: bool)
    requires |ks| == 16 && KeysOK(ks)
    ensures |Schedule(ks, decr)| == 16 && KeysOK(Schedule(ks, decr))
  {
  }

  /** One turn of the loop of encrypt: both halves change once. */
  method TwoRounds(t: Tables, tmp: array<bool>, k0: Bits, k1: Bits)
    requires t.Valid() && |k0| == 48 && |k1| == 48 && tmp.Length == 64
    modifies tmp
    ensures tmp[0..32] == Xor(old(tmp[0..32]), Round(t, old(tmp[32..64]), k0))
    ensures tmp[32..64] == Xor(old(tmp[32..64]), Round(t, tmp[0..32], k1))
  {
    hide Mixed, Round, Xor;
    CryptMain(t, tmp, 0, 32, k0);
    CryptMain(t, tmp, 32, 0, k1);
  }

  /** The sixteen rounds, with the pointer into the keys moving up or down. */
  method AllRounds(t: Tables, keys: seq<Bits>, tmp: array<bool>, decr: bool)
    requires t.Valid() && |keys| == 16 && KeysOK(keys) && KeysOK(Schedule(keys, decr)) && tmp.Length == 64
    modifies tmp
    ensures (tmp[0..32], tmp[32..64]) == Rounds(t, old(tmp[0..32]), old(tmp[32..64]), Schedule(keys, decr))
  {
    hide Round, Xor, Rounds, Schedule;
    ghost var ks := Schedule(keys, decr);
    ScheduleAt(keys, decr, 0);
    ghost var done := Rounds(t, tmp[0..32], tmp[32..64], ks);
    var schl: int := if decr then 15 else 0;
    var i := 8;
    ghost var n := 0;
    assert ks[0..] == ks;
    while i > 0
      invariant 0 <= i <= 8 && n == 16 - 2 * i && schl == (if decr then 15 - n else n)
      invariant KeysOK(ks[n..]) && Rounds(t, tmp[0..32], tmp[32..64], ks[n..]) == done
    {
      i := i - 1;
      ScheduleAt(keys, decr, n);
      ScheduleAt(keys, decr, n + 1);
      RoundsIs(t, tmp[0..32], tmp[32..64], ks[n..]);
      var next := if decr then schl - 1 else schl + 1;
      TwoRounds(t, tmp, keys[schl], keys[next]);
      schl := if decr then next - 1 else next + 1;
      assert ks[n..][2..] == ks[n + 2..];
      n := n + 2;
    }
    assert ks[16..] == [];
    RoundsNone(t, tmp[0..32], tmp[32..64]);
  }

  lemma InitialIs(b: Bits, x: Bits)
    requires |b| == 64 && |x| == 64 && forall k :: 0 <= k < 64 ==> x[k] == b[Ip(k)]
    ensures x == Initial(b)
  {
    hide Ip;
  }

  lemma FinalIs(b: Bits, x: Bits)
    requires |b| == 64 && |x| == 64 && forall k :: 0 <= k < 64 ==> x[k] == b[Ep(k)]
    ensures x == Final(b)
  {
    hide Ep;
  }

  /** encrypt: a block is enciphered in place, or deciphered when `decr` is set. */
  method Encrypt(t: Tables, keys: seq<Bits>, nachr: array<bool>, decr: bool)
    requires t.Valid() && |keys| == 16 && KeysOK(keys) && nachr.Length == 64
    modifies nachr
    ensures KeysOK(Reversed(keys)) && nachr[..] == Cipher(t, old(nachr[..]), if decr then Reversed(keys) else keys)
  {
    hide Ip, Ep, Round, Xor, Initial, Final, Rounds, Reversed;
    ScheduleOK(keys, true);
    ScheduleOK(keys, decr);
    var tmp := new bool[64](_ => false);
    Perm(tmp, nachr, IpTable(), 64);
    InitialIs(nachr[..], tmp[..]);
    assert tmp[0..32] == tmp[..][..32] && tmp[32..64] == tmp[..][32..];
    AllRounds(t, keys, tmp, decr);
    ghost var y := tmp[..];
    assert y == tmp[0..32] + tmp[32..64];
    Perm(nachr, tmp, EpTable(), 64);
    FinalIs(y, nachr[..]);
  }

  lemma RoundsIs(t: Tables, l: Bits, r: Bits, ks: seq<Bits>)
    requires t.Valid() && |l| == 32 && |r| == 32 && KeysOK(ks) && |ks| >= 2
    ensures var l1 := Xor(l, Round(t, r, ks[0]));
            var r1 := Xor(r, Round(t, l1, ks[1]));
            KeysOK(ks[2..]) && Rounds(t, l, r, ks) == Rounds(t, l1, r1, ks[2..])
  {
    hide Round, Xor, KeysOK;
    KeysRest(ks);
  }

  lemma KeysRest(ks: seq<Bits>)
    requires KeysOK(ks) && |ks| >= 2
    ensures KeysOK(ks[2..])
  {
  }

  lemma RoundsNone(t: Tables, l: Bits, r: Bits)
    requires t.Valid() && |l| == 32 && |r| == 32
    ensures Rounds(t, l, r, []) == (l, r)
  {
  }

  // ---------- the key schedule ----------

  /** Left shifts of round `i`: one in the rounds 1, 2, 9 and 16, otherwise two. */
  function Turns(i: nat): nat {
    if i in {0, 1, 8, 15} then 1 else 2
  }

  function TotalTurns(n: nat): nat {
    if n == 0 then 0 else TotalTurns(n - 1) + Turns(n - 1)
  }

  /** The shift register `ls` of the code after `i` rounds. */
  function Register(i: nat): nat {
    if i == 0 then 0x7efc else Register(i - 1) / 2
  }

  /** Its low bits are the schedule of shifts. */
  lemma RegisterIs(i: nat)
    requires i < 16
    ensures Register(i) % 2 + 1 == Turns(i)
  {
    assert Register(1) == 0x3f7e && Register(2) == 0x1fbf && Register(3) == 0xfdf && Register(4) == 0x7ef;
    assert Register(5) == 0x3f7 && Register(6) == 0x1fb && Register(7) == 0xfd && Register(8) == 0x7e;
    assert Register(9) == 0x3f && Register(10) == 0x1f && Register(11) == 0xf && Register(12) == 7;
    assert Register(13) == 3 && Register(14) == 1 && Register(15) == 0;
  }

  lemma {:induction false} TurnsBound(n: nat)
    requires n <= 16
    ensures TotalTurns(n) <= 2 * n
    ensures TotalTurns(n) <= 28
  {
    assert TotalTurns(2) == 2 by { assert TotalTurns(1) == 1; }
    if n > 0 {
      TurnsUpTo(n);
    }
  }

  lemma {:induction false} TurnsUpTo(n: nat)
    requires n <= 16
    ensures TotalTurns(n) == 2 * n - (if n > 0 then 1 else 0) - (if n > 1 then 1 else 0) - (if n > 8 then 1 else 0) - (if n > 15 then 1 else 0)
  {
    if n > 0 { TurnsUpTo(n - 1); }
  }

  /** A half of the key register rotated left. */
  function Rotated(h: Bits, n: nat): (r: Bits)
    requires |h| == 28 && n <= 28
    ensures |r| == 28
  {
    h[n..] + h[..n]
  }

  /** Key `i`: the second choice of bits from both halves, rotated as often as the rounds so far say. */
  function RoundKey(cd: Bits, pc2: seq<nat>, i: nat): (k: Bits)
    requires |cd| == 56 && |pc2| == 48 && i < 16 && forall j :: 0 <= j < 48 ==> pc2[j] < 56
    ensures |k| == 48
  {
    TurnsBound(i + 1);
    var both := Rotated(cd[..28], TotalTurns(i + 1)) + Rotated(cd[28..], TotalTurns(i + 1));
    seq(48, j requires 0 <= j < 48 => both[pc2[j]])
  }

  /** Shifts so far, in each of the sixteen rounds. */
  const SHIFTS: seq<nat> := [1, 2, 4, 6, 8, 10, 12, 14, 15, 17, 19, 21, 23, 25, 27, 28]

  /** Each bit of a key, found in the key halves: the second choice, moved by the shifts within its half. */
  lemma RoundKeyAt(cd: Bits, pc2: seq<nat>, i: nat, j: nat)
    requires |cd| == 56 && |pc2| == 48 && i < 16 && j < 48 && forall j :: 0 <= j < 48 ==> pc2[j] < 56
    ensures RoundKey(cd, pc2, i)[j] ==
            cd[if pc2[j] < 28 then (pc2[j] + SHIFTS[i]) % 28 else 28 + (pc2[j] - 28 + SHIFTS[i]) % 28]
  {
    hide TotalTurns, Rotated;
    ShiftsAre(i);
    if pc2[j] < 28 {
      RotatedAt(cd[..28], SHIFTS[i], pc2[j]);
    } else {
      RotatedAt(cd[28..], SHIFTS[i], pc2[j] - 28);
    }
  }

  lemma RotatedAt(h: Bits, n: nat, k: nat)
    requires |h| == 28 && n <= 28 && k < 28
    ensures Rotated(h, n)[k] == h[(k + n) % 28]
  {
  }

  lemma ShiftsAre(i: nat)
    requires i < 16
    ensures TotalTurns(i + 1) == SHIFTS[i] <= 28
  {
    hide TotalTurns;
    TurnsUpTo(i + 1);
  }

  /** Where the code finds bit `k` of the rotated halves. */
  function Place(k0: nat, shval: nat): nat {
    if k0 >= 28 then (if k0 + shval >= 56 then (k0 + shval - 28) % 28 + 28 else k0 + shval)
    else (if k0 + shval >= 28 then (k0 + shval) % 28 else k0 + shval)
  }

  lemma PlaceIs(cd: Bits, k: nat, n: nat)
    requires |cd| == 56 && k < 56 && n <= 28
    ensures Place(k, n) < 56 && cd[Place(k, n)] == (Rotated(cd[..28], n) + Rotated(cd[28..], n))[k]
  {
  }

  /** The bits of the key block that the first choice keeps. */
  function Chosen(pc1: seq<nat>, schl: Bits): (cd: Bits)
    requires |schl| == 64 && |pc1| == 56 && forall j :: 0 <= j < 56 ==> pc1[j] < 64
    ensures |cd| == 56
  {
    seq(56, j requires 0 <= j < 56 => schl[pc1[j]])
  }

  /** A complemented key block makes complemented keys. */
  lemma {:induction false} KeysComplement(pc1: seq<nat>, pc2: seq<nat>, schl: Bits, i: nat)
    requires |schl| == 64 && |pc1| == 56 && (forall j :: 0 <= j < 56 ==> pc1[j] < 64)
    requires |pc2| == 48 && (forall j :: 0 <= j < 48 ==> pc2[j] < 56) && i < 16
    ensures RoundKey(Chosen(pc1, Not(schl)), pc2, i) == Not(RoundKey(Chosen(pc1, schl), pc2, i))
  {
    hide RoundKey;
    var (cd, dc) := (Chosen(pc1, schl), Chosen(pc1, Not(schl)));
    assert forall j :: 0 <= j < 56 ==> dc[j] == !cd[j];
    forall j | 0 <= j < 48 ensures RoundKey(dc, pc2, i)[j] == Not(RoundKey(cd, pc2, i))[j] {
      RoundKeyAt(cd, pc2, i, j);
      RoundKeyAt(dc, pc2, i, j);
    }
  }

  /** setkey: the sixteen keys of a key block. */
  method SetKey(pc1: seq<nat>, pc2: seq<nat>, schl: array<bool>) returns (keys: seq<Bits>)
    requires schl.Length == 64 && |pc1| == 56 && (forall j :: 0 <= j < 56 ==> pc1[j] < 64)
    requires |pc2| == 48 && forall j :: 0 <= j < 48 ==> pc2[j] < 56
    ensures |keys| == 16 && KeysOK(keys)
    ensures forall i :: 0 <= i < 16 ==> keys[i] == RoundKey(Chosen(pc1, schl[..]), pc2, i)
    ensures forall i, j :: 0 <= i < 16 && 0 <= j < 48 ==>
      keys[i][j] == schl[pc1[if pc2[j] < 28 then (pc2[j] + SHIFTS[i]) % 28 else 28 + (pc2[j] - 28 + SHIFTS[i]) % 28]]
  {
    hide RoundKey, TotalTurns, Register;
    ghost var cd := Chosen(pc1, schl[..]);
    var tmp1 := new bool[56](_ => false);
    Perm(tmp1, schl, pc1, 56);
    assert tmp1[..] == cd;
    keys := [];
    var ls, shval, i := 0x7efc, 0, 0;
    Begin();
    while i < 16
      invariant 0 <= i <= 16 && |keys| == i && shval == TotalTurns(i) && ls == Register(i) && tmp1[..] == cd
      invariant forall k :: 0 <= k < i ==> |keys[k]| == 48 && keys[k] == RoundKey(cd, pc2, k)
    {
      RegisterIs(i);
      Advance(i);
      shval := shval + 1 + ls % 2;
      TurnsBound(i + 1);
      var key := OneKey(tmp1[..], pc2, shval, i);
      keys := keys + [key];
      ls := ls / 2;
      i := i + 1;
    }
    forall i, j | 0 <= i < 16 && 0 <= j < 48 { RoundKeyAt(cd, pc2, i, j); }
  }

  lemma Begin()
    ensures TotalTurns(0) == 0 && Register(0) == 0x7efc
  {
  }

  lemma Advance(i: nat)
    ensures TotalTurns(i + 1) == TotalTurns(i) + Turns(i) && Register(i + 1) == Register(i) / 2
  {
  }

  method OneKey(tmp1: Bits, pc2: seq<nat>, shval: nat, ghost i: nat) returns (key: Bits)
    requires |tmp1| == 56 && |pc2| == 48 && (forall j :: 0 <= j < 48 ==> pc2[j] < 56)
    requires i < 16 && shval == TotalTurns(i + 1) <= 28
    ensures |key| == 48 && key == RoundKey(tmp1, pc2, i)
  {
    hide Rotated, Place;
    key := [];
    var j := 0;
    while j < 48
      invariant 0 <= j <= 48 && |key| == j
      invariant forall k :: 0 <= k < j ==> key[k] == RoundKey(tmp1, pc2, i)[k]
    {
      PlaceIs(tmp1, pc2[j], shval);
      key := key + [tmp1[Place(pc2[j], shval)]];
      j := j + 1;
    }
  }
}
