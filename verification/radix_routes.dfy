/**
 The routing table of lib/radix.c: routes under their keys, their masks listed at internal nodes,
 longest-prefix match and route addition.
 */
module RadixRoutes {
  import opened Basics
  import opened RadixBits
  import opened RadixTrie
  import opened RadixGrowth
  import opened RadixImage
  import opened Radix

  /** `m` is the interned form of the contiguous mask with index `p`: a length byte, then `p` ones. */
  ghost predicate MaskIs(m: seq<Byte>, p: nat) {
    && m != [] && p <= 8 * |m| && (p == 0 || 8 < p)
    && m[0] == (p + 7) / 8
    && forall i :: 8 <= i < 8 * |m| ==> Bit(m, i) == (i < p)
  }

  lemma MaskIsUnique(m: seq<Byte>, m': seq<Byte>, p: nat, p': nat)
    requires MaskIs(m, p) && MaskIs(m', p') && |m| == |m'|
    ensures m == m' <==> p == p'
  {
    if p == p' {
      forall c | 1 <= c < |m| ensures m[c] == m'[c] {
        forall j: nat ensures BitOf(m[c], j) == BitOf(m'[c], j) {
          if j < 8 {
            assert Bit(m, 8 * c + 7 - j) == Bit(m', 8 * c + 7 - j);
          } else {
            HighBitsZero(m[c], 8, j);
            HighBitsZero(m'[c], 8, j);
          }
        }
        SameBits(m[c], m'[c]);
      }
    } else if p < p' {
      MaskIndexMatters(m, p, p');
    } else {
      MaskIndexMatters(m', p', p);
    }
  }

  lemma MaskIndexMatters(m: seq<Byte>, p: nat, p': nat)
    requires MaskIs(m, p) && p < p'
    ensures !MaskIs(m, p')
  {
    if p > 0 && p' <= 8 * |m| { assert !Bit(m, p); }
  }

  /**
   rn_satsifies_leaf: do `trial` and the key of a leaf agree, from byte `skip`, wherever the mask has
   a one?
   */
  method SatisfiesLeaf(trial: seq<Byte>, key: seq<Byte>, mask: Option<seq<Byte>>, skip: nat) returns (r: bool)
    requires trial != [] && key != [] && trial[0] <= |trial| && key[0] <= |key|
    requires mask.Some? ==> mask.value != [] && mask.value[0] <= |mask.value|
    ensures r <==> AgreeUnder(trial, key, mask, 8 * skip, 8 * MaskedLength(trial, key, mask))
  {
    var length := MaskedLength(trial, key, mask);
    var c := skip;
    while c < length
      invariant skip <= c && (skip <= length ==> c <= length)
      invariant c <= length ==> AgreeUnder(trial, key, mask, 8 * skip, 8 * c)
    {
      var m: Byte := if mask.None? then 255 else mask.value[c];
      AgreeInByte(trial, key, mask, c, m);
      if And(Xor(trial[c], key[c]), m) != 0 {
        return false;
      }
      c := c + 1;
    }
    return true;
  }

  ghost predicate AgreeUnder(v: seq<Byte>, k: seq<Byte>, mask: Option<seq<Byte>>, lo: nat, hi: nat)
    requires hi <= 8 * |v| && hi <= 8 * |k| && (mask.Some? ==> hi <= 8 * |mask.value|)
  {
    forall i :: lo <= i < hi && (mask.Some? ==> Bit(mask.value, i)) ==> Bit(v, i) == Bit(k, i)
  }

  lemma AgreeInByte(v: seq<Byte>, k: seq<Byte>, mask: Option<seq<Byte>>, c: nat, m: Byte)
    requires c < |v| && c < |k| && (mask.Some? ==> c < |mask.value|)
    requires m == if mask.None? then 255 else mask.value[c]
    ensures And(Xor(v[c], k[c]), m) == 0 <==> AgreeUnder(v, k, mask, 8 * c, 8 * c + 8)
  {
    hide BitOf, And, Xor;
    MaskedByte(v[c], k[c], m);
    if AgreeUnder(v, k, mask, 8 * c, 8 * c + 8) {
      forall j: nat | j < 8 && BitOf(m, j) ensures BitOf(v[c], j) == BitOf(k[c], j) {
        ghost var i := 8 * c + 7 - j;
        assert i / 8 == c && i % 8 == 7 - j;
        assert Bit(v, i) == Bit(k, i);
      }
    }
    if And(Xor(v[c], k[c]), m) == 0 {
      forall i | 8 * c <= i < 8 * c + 8 && (mask.Some? ==> Bit(mask.value, i)) ensures Bit(v, i) == Bit(k, i) {
        ghost var j: nat := 7 - i % 8;
        assert i / 8 == c && j < 8;
        if mask.None? { Byte255(j); }
        assert BitOf(m, j) && BitOf(v[c], j) == BitOf(k[c], j);
      }
    }
  }

  function MaskedLength(trial: seq<Byte>, key: seq<Byte>, mask: Option<seq<Byte>>): nat
    requires trial != [] && key != [] && (mask.Some? ==> mask.value != [])
  {
    var length := if trial[0] < key[0] then trial[0] else key[0];
    if mask.Some? && mask.value[0] < length then mask.value[0] else length
  }

  /** `(x ^ y) & m` is zero iff `x` and `y` agree wherever `m` has a one. */
  lemma MaskedByte(x: Byte, y: Byte, m: Byte)
    ensures And(Xor(x, y), m) == 0 <==> forall j: nat :: j < 8 && BitOf(m, j) ==> BitOf(x, j) == BitOf(y, j)
  {
    var z := Xor(x, y);
    if And(z, m) == 0 {
      forall j: nat | j < 8 && BitOf(m, j) ensures BitOf(x, j) == BitOf(y, j) {
        AndBits(z, m, j);
        XorBits(x, y, j);
        ZeroBits(j);
      }
    } else {
      NonZero(And(z, m));
      var j: nat :| BitOf(And(z, m), j);
      AndBits(z, m, j);
      XorBits(x, y, j);
      if j >= 8 { HighBitsZero(m, 8, j); }
    }
  }

  /** The fields of a leaf that describe its route. */
  ghost predicate RouteHolds(x: Node, e: Entry, head: Head, maskLen: nat)
    reads x
  {
    && (e.prefix.Host? ==> x.mask == None && x.b == if e.root then -1 - head.off else -1)
    && (e.prefix.Net? ==>
          && x.mask.Some? && |x.mask.value| == maskLen && MaskIs(x.mask.value, e.prefix.plen)
          && x.b == -1 - e.prefix.plen)
    && (!e.root ==> x.key != [] && x.key[0] == head.len)
  }

  /** The fields of an annotation. */
  ghost predicate MarkHolds(m: Mark, e: Entry, next: Mark?)
    reads m, e.n
  {
    && m.next == next && m.b == e.n.b && m.normal == e.n.normal
    && (m.normal ==> m.leaf == e.n) && (!m.normal ==> m.mask == e.n.mask)
  }

  ghost function MarkAt(ms: seq<Annot>, i: nat): Mark? {
    if i < |ms| then ms[i].m else null
  }

  lemma MarkAtMeans(ms: seq<Annot>, i: nat)
    ensures MarkAt(ms, i) == if i < |ms| then ms[i].m else null
  {
  }

  lemma TopIs(t: Tree)
    requires t.Leaf? ==> t.chain != []
    ensures t.Top() == if t.Inner? then t.n else t.chain[0].n
  {
  }

  lemma ListHead(first: Mark?, ms: seq<Annot>)
    requires ListHolds(first, ms)
    ensures first == MarkAt(ms, 0)
  {
  }

  lemma MarkNext(m: Mark, e: Entry, next: Mark?)
    requires MarkHolds(m, e, next)
    ensures m.next == next
  {
  }

  ghost predicate ListHolds(first: Mark?, ms: seq<Annot>)
    reads set a | a in ms :: a.m
    reads set a | a in ms :: a.e.n
  {
    && first == MarkAt(ms, 0)
    && forall i :: 0 <= i < |ms| ==> MarkHolds(ms[i].m, ms[i].e, MarkAt(ms, i + 1))
  }

  /** Both tests for a network route decide whether it matches `k`. */
  ghost predicate TestOK(v: seq<Byte>, e: Entry, skip: nat, b: nat, k: Key)
    reads e.n
  {
    var (x, m) := (e.n, e.n.mask);
    && m.Some? && m.value != [] && m.value[0] <= |m.value|
    && x.key != [] && x.key[0] <= |x.key| && v != [] && v[0] <= |v|
    && MaskedLength(v, x.key, m) == m.value[0]
    && (AgreeUnder(v, x.key, m, 8 * skip, 8 * (m.value[0] as int)) <==> e.Matches(k))
    && (-1 - b <= x.b <==> e.Matches(k))
  }

  lemma TestMeans(v: seq<Byte>, e: Entry, skip: nat, b: nat, k: Key)
    requires TestOK(v, e, skip, b, k)
    ensures var (x, m) := (e.n, e.n.mask);
            && m.Some? && m.value != [] && m.value[0] <= |m.value|
            && x.key != [] && x.key[0] <= |x.key| && v != [] && v[0] <= |v|
            && (AgreeUnder(v, x.key, m, 8 * skip, 8 * MaskedLength(v, x.key, m)) <==> e.Matches(k))
            && (-1 - b <= x.b <==> e.Matches(k))
  {
  }

  /** No annotation object is used twice. */
  ghost predicate MarksDistinct(marks: Marking) {
    forall n, n', i, i' | n in marks && n' in marks && 0 <= i < |marks[n]| && 0 <= i' < |marks[n']| ::
      marks[n][i].m == marks[n'][i'].m ==> n == n' && i == i'
  }

  ghost function AllListed(marks: Marking): set<Entry> {
    set n, a | n in marks && a in marks[n] :: a.e
  }

  /** A non-normal route is satisfied exactly when its prefix agrees. */
  lemma NetSatisfied(v: seq<Byte>, key: seq<Byte>, m: seq<Byte>, p: nat, skip: nat, off: nat)
    requires v != [] && |v| == |key| && v[0] == key[0] == |v| && MaskIs(m, p) && m[0] <= |m|
    requires p <= 8 * |v| && off % 8 == 0 && 8 <= off <= 8 * skip
    requires skip <= |v| && Agree(Bits(key, off), Bits(v, off), 8 * skip)
    ensures MaskedLength(v, key, Some(m)) == m[0]
    ensures AgreeUnder(v, key, Some(m), 8 * skip, 8 * (m[0] as int)) <==> Agree(Bits(key, off), Bits(v, off), p)
  {
    hide BitOf;
    if AgreeUnder(v, key, Some(m), 8 * skip, 8 * (m[0] as int)) {
      forall i | 0 <= i < p ensures Bits(key, off)[i] == Bits(v, off)[i] {
        if 8 * skip <= i {
          assert i < 8 * (m[0] as int) && Bit(m, i);
        }
      }
    }
    if Agree(Bits(key, off), Bits(v, off), p) {
      forall i | 8 * skip <= i < 8 * (m[0] as int) && Bit(m, i) ensures Bit(v, i) == Bit(key, i) {
        assert off <= i && i < p;
        assert Bits(key, off)[i] == Bits(v, off)[i];
      }
    }
  }

  lemma EmptyRoutes(len: nat, off: nat, t: Node, z: Node, o: Node)
    ensures Empty(len, off, t, z, o).Entries() ==
            {Entry(z, ZeroKey(len), Host, true), Entry(o, OneKey(len, off), Host, true)}
    ensures Empty(len, off, t, z, o).InnerNodes() == {t} && {t, z, o} <= Empty(len, off, t, z, o).Nodes()
    ensures MarksOK(Empty(len, off, t, z, o), -1, map[t := []], Empty(len, off, t, z, o).Entries())
    ensures Routes(Empty(len, off, t, z, o)) == {}
  {
    var (ez, eo) := (Entry(z, ZeroKey(len), Host, true), Entry(o, OneKey(len, off), Host, true));
    SingleLeaf(ez);
    SingleLeaf(eo);
    assert Listed([]) == {} == Liftable({ez, eo}, -1, off);
  }

  /** A tree head used as a routing table. Interned masks have `maskLen` bytes. */
  class RouteTable {
    const head: Head
    const maskLen: nat
    ghost var marks: Marking
    ghost var markObjs: set<Mark>

    constructor (len: nat, off: nat, maskLen: nat)
      requires off % 8 == 0 && 8 <= off < 8 * len && len <= maskLen && len < 256
      ensures Valid() && fresh(head) && fresh(head.nodes) && markObjs == {}
      ensures head.len == len && head.off == off && this.maskLen == maskLen
      ensures Routes(head.tree) == {}
    {
      hide Patricia, Distinct, ImageOf, ZeroKey, OneKey, Holds, MarksOK, Tree.Entries, Tree.InnerNodes, Empty;
      head := new Head(len, off);
      this.maskLen := maskLen;
      markObjs := {};
      marks := map[];
      new;
      marks := map[head.top := []];
      EmptyRoutes(len, off, head.top, head.zeroLeaf, head.oneLeaf);
      assert head.zeroLeaf in head.nodes && head.oneLeaf in head.nodes && head.top in head.nodes;
    }

    ghost predicate RoutesHold()
      reads this, head, head.nodes
    {
      && head.Valid() && 8 <= head.off && head.len <= maskLen && head.len < 256
      && (forall e :: e in head.tree.Entries() ==> e.n in head.nodes && RouteHolds(e.n, e, head, maskLen))
      && Entry(head.zeroLeaf, ZeroKey(head.len), Host, true) in head.tree.Entries()
      && Entry(head.oneLeaf, OneKey(head.len, head.off), Host, true) in head.tree.Entries()
      && (forall e :: e in head.tree.Entries() && e.root ==> IsSentinel(e.key))
    }

    /** The annotations of every internal node are linked as `marks` says. */
    ghost predicate ListsHold()
      reads this, head, head.nodes, markObjs
    {
      && marks.Keys == head.tree.InnerNodes() && marks.Keys <= head.nodes
      && (forall n, a :: n in marks && a in marks[n] ==> a.m in markObjs && a.e.n in head.nodes)
      && (forall n :: n in marks ==> ListHolds(n.mklist, marks[n]))
    }

    /** A leaf points to its own annotation exactly when its route is listed somewhere. */
    ghost predicate Annotated()
      reads this, head, head.nodes
    {
      forall e :: e in head.tree.Entries() && e.prefix.Net? && e.n in head.nodes ==>
                    (e.n.mklist != null <==> e in AllListed(marks))
    }

    /** Routes and annotations are in memory; which routes are listed where is left open. */
    ghost predicate Loose()
      reads this, head, head.nodes, markObjs
    {
      RoutesHold() && ListsHold() && MarksDistinct(marks) && Annotated()
    }

    /** Everything holds, with the routes among `s` listed. */
    ghost predicate Partial(s: set<Entry>)
      reads this, head, head.nodes, markObjs
    {
      Loose() && MarksOK(head.tree, -1, marks, s)
    }

    ghost predicate Valid()
      reads this, head, head.nodes, markObjs
    {
      Partial(head.tree.Entries())
    }

    /** The keys of the two root leaves. */
    ghost predicate IsSentinel(k: Key) {
      k == ZeroKey(head.len) || k == OneKey(head.len, head.off)
    }

    /** A root leaf hides every route for its own key unless one is stored under that very key. */
    ghost predicate Shadowed(k: Key)
      reads head
    {
      IsSentinel(k) && forall e :: e in Routes(head.tree) ==> e.key != k
    }

    ghost function Chain(k: Key): (c: seq<Entry>)
      requires head.Shape() && |k| == 8 * head.len
      reads head
    {
      Found(head.tree, k).chain
    }

    /** What is known of the `i`-th route of the found chain. */
    lemma ChainNode(k: Key, i: nat)
      requires RoutesHold() && |k| == 8 * head.len && i < |Chain(k)|
      ensures var (x, e) := (Chain(k)[i].n, Chain(k)[i]);
              && x in head.nodes && e in head.tree.Entries() && RouteHolds(x, e, head, maskLen)
              && x.root == e.root && Bits(x.key, head.off) == e.key == FoundKey(head.tree, k) && |x.key| == head.len
              && x.dupedkey == (if i + 1 < |Chain(k)| then Chain(k)[i + 1].n else null)
              && e.Fits(8 * head.len) && (i > 0 ==> e.prefix.Net? && !e.root)
    {
      hide ImageOf, Distinct, SubImage, Holds;
      var j := head.Depth(k) - 1;
      head.PathLinks(k, j);
      head.ChainLinks(head.At(k, j), head.Above(k, j), i);
      FoundInside(head.tree, k);
      assert i > 0 ==> Chain(k)[0].prefix.Finer(Chain(k)[i].prefix);
    }

    /** `b`, in byte `at`, is the first bit at which `k` differs from the key the search found. */
    ghost predicate PartsAt(k: Key, at: nat, b: nat)
      requires head.Shape() && |k| == 8 * head.len
      reads head
    {
      && head.off <= b < 8 * head.len && at == b / 8
      && Differs(head.tree, k, b)
    }

    /** The tests used for a leaf or an annotation agree with matching, for normal and other masks. */
    lemma TestIsMatch(v: seq<Byte>, e: Entry, at: nat, b: nat, skip: nat)
      requires RoutesHold() && |v| == head.len && v[0] == head.len && PartsAt(Bits(v, head.off), at, b)
      requires e in head.tree.Entries() && e.prefix.Net? && e.Fits(8 * head.len)
      requires e.n in head.nodes && Bits(e.n.key, head.off) == e.key && |e.n.key| == head.len && !e.root
      requires head.off / 8 <= skip <= at && skip < head.len
      requires Agree(e.key, FoundKey(head.tree, Bits(v, head.off)), 8 * skip)
      requires Agree(e.key, FoundKey(head.tree, Bits(v, head.off)), e.prefix.plen)
      ensures TestOK(v, e, skip, b, Bits(v, head.off))
    {
      hide Patricia, Distinct, ImageOf, SubImage, Holds, BitOf, Found, Path, MarksOK;
      var k := Bits(v, head.off);
      assert RouteHolds(e.n, e, head, maskLen);
      NetSatisfied(v, e.n.key, e.n.mask.value, e.prefix.plen, skip, head.off);
    }

    lemma Facts(k: Key)
      requires Valid() && |k| == 8 * head.len
      ensures RoutesHold() && head.Valid() && head.Shape() && Patricia(head.tree, |k|) && Chain(k) != []
      ensures Ready(head.tree, marks, |k|)
    {
    }

    ghost predicate NoMatchBefore(k: Key, i: nat)
      requires head.Shape() && |k| == 8 * head.len && i <= |Chain(k)|
      reads head
    {
      forall j :: 0 <= j < i ==> Chain(k)[j].root || !Chain(k)[j].Matches(k)
    }

    /** The outcome of testing the `i`-th route of the found chain. */
    lemma ChainTest(v: seq<Byte>, at: nat, b: nat, i: nat)
      requires RoutesHold() && |v| == head.len && v[0] == head.len && PartsAt(Bits(v, head.off), at, b)
      requires i < |Chain(Bits(v, head.off))| && Chain(Bits(v, head.off))[i].prefix.Net?
      ensures TestOK(v, Chain(Bits(v, head.off))[i], at, b, Bits(v, head.off)) && !Chain(Bits(v, head.off))[i].root
    {
      hide Patricia, Distinct, ImageOf, SubImage, Holds, BitOf, Found, Path, MarksOK, IsBest, ListsHold, MaskIs;
      ChainNode(Bits(v, head.off), i);
      TestIsMatch(v, Chain(Bits(v, head.off))[i], at, b, at);
    }

    lemma ChainHit(k: Key, i: nat)
      requires Valid() && |k| == 8 * head.len && i < |Chain(k)| && NoMatchBefore(k, i)
      requires !Chain(k)[i].root && Chain(k)[i].Matches(k)
      ensures IsBest(Routes(head.tree), k, Some(Chain(k)[i]))
    {
      hide Patricia, Distinct, ImageOf, SubImage, Holds, BitOf, Found, Path, MarksOK, IsBest;
      FirstInChain(head.tree, marks, k, i);
    }

    lemma ChainMiss(k: Key, i: nat)
      requires Valid() && |k| == 8 * head.len && i < |Chain(k)| && NoMatchBefore(k, i)
      requires Chain(k)[i].root || !Chain(k)[i].Matches(k)
      ensures NoMatchBefore(k, i + 1)
      ensures i + 1 == |Chain(k)| ==> ChainFails(head.tree, k)
    {
      hide Patricia, Distinct, ImageOf, SubImage, Holds, BitOf, Found, Path, MarksOK, IsBest;
    }

    /** The duplicated-key chain of the found leaf. */
    method InChain(v: seq<Byte>, leaf: Node, at: nat, b: nat) returns (r: Node?, ghost hit: Option<Entry>)
      requires Valid() && |v| == head.len && v[0] == head.len
      requires PartsAt(Bits(v, head.off), at, b) && leaf == Chain(Bits(v, head.off))[0].n
      ensures r == null ==> ChainFails(head.tree, Bits(v, head.off))
      ensures r != null ==> hit.Some? && hit.value.n == r && IsBest(Routes(head.tree), Bits(v, head.off), hit)
    {
      hide *;
      ghost var k := Bits(v, head.off);
      Facts(k);
      ghost var c := Chain(k);
      ghost var i := 0;
      ChainFirst(k, at, b);
      var t: Node? := leaf;
      if t.mask.None? {
        ChainMiss(k, 0);
        t := t.dupedkey;
        i := 1;
      }
      while t != null
        invariant 0 <= i <= |c| && (if i < |c| then t == c[i].n && c[i].prefix.Net? else t == null)
        invariant NoMatchBefore(k, i) && (i == |c| ==> ChainFails(head.tree, k))
        decreases |c| - i
      {
        ChainTest(v, at, b, i);
        TestMeans(v, c[i], at, b, k);
        ChainNext(k, i);
        if t.normal {
          if -1 - b <= t.b {
            ChainHit(k, i);
            return t, Some(c[i]);
          }
        } else {
          var ok := SatisfiesLeaf(v, t.key, t.mask, at);
          if ok {
            ChainHit(k, i);
            return t, Some(c[i]);
          }
        }
        ChainMiss(k, i);
        t := t.dupedkey;
        i := i + 1;
      }
      return null, None;
    }

    lemma ChainNext(k: Key, i: nat)
      requires RoutesHold() && |k| == 8 * head.len && i < |Chain(k)|
      ensures Chain(k)[i].n.dupedkey == (if i + 1 < |Chain(k)| then Chain(k)[i + 1].n else null)
      ensures i + 1 < |Chain(k)| ==> Chain(k)[i + 1].prefix.Net? && !Chain(k)[i + 1].root
    {
      hide Patricia, Distinct, ImageOf, SubImage, Holds, BitOf, Found, Path, RouteHolds;
      ChainNode(k, i);
      if i + 1 < |Chain(k)| { ChainNode(k, i + 1); }
    }

    /** A head without a mask is a host route or a root leaf, and differs from `k`. */
    lemma ChainFirst(k: Key, at: nat, b: nat)
      requires RoutesHold() && |k| == 8 * head.len && PartsAt(k, at, b)
      ensures Chain(k) != [] && NoMatchBefore(k, 0)
      ensures Chain(k)[0].n.mask.None? <==> Chain(k)[0].prefix.Host?
      ensures Chain(k)[0].prefix.Host? ==> !Chain(k)[0].Matches(k)
      ensures Chain(k)[0].n.dupedkey == (if 1 < |Chain(k)| then Chain(k)[1].n else null)
      ensures 1 < |Chain(k)| ==> Chain(k)[1].prefix.Net?
    {
      hide Patricia, Distinct, ImageOf, SubImage, Holds, BitOf, Found, Path;
      ChainNode(k, 0);
      ChainNext(k, 0);
    }

    // ---------- the ascent ----------

    /** The node object of any stored route. */
    lemma {:induction false} EntryNode(e: Entry)
      requires RoutesHold() && e in head.tree.Entries()
      ensures e.n in head.nodes && RouteHolds(e.n, e, head, maskLen) && e.Fits(8 * head.len)
      ensures e.n.root == e.root && Bits(e.n.key, head.off) == e.key && |e.n.key| == head.len
    {
      hide Head.Valid, Head.Shape;
      head.EntryLinks(e);
    }

    /** The annotations of the node at step `j` of the path for `k`. */
    ghost function MarksAt(k: Key, j: nat): seq<Annot>
      reads this, head
    {
      if head.At(k, j).Inner? && head.At(k, j).n in marks then marks[head.At(k, j).n] else []
    }

    /** The annotations met on the way up to and including step `j`. */
    ghost function ClimbAt(k: Key, j: nat): seq<Annot>
      reads this, head
    {
      if Patricia(head.At(k, j), |k|) && head.At(k, j).InnerNodes() <= marks.Keys
      then Climb(head.At(k, j), k, marks) else []
    }

    lemma {:induction false} ClimbStep(k: Key, j: nat)
      requires Valid() && |k| == 8 * head.len && j < head.Depth(k)
      ensures ClimbAt(k, j) <= ClimbAt(k, 0)
      ensures j + 1 == head.Depth(k) ==> ClimbAt(k, j) == []
      ensures j + 1 < head.Depth(k) ==> ClimbAt(k, j) == ClimbAt(k, j + 1) + MarksAt(k, j)
    {
      hide ImageOf, Distinct, SubImage, Holds, BitOf, RouteHolds, MarkHolds, ListHolds, Patricia, MarksOK;
      head.PathLinks(k, j);
      Facts(k);
      ClimbPrefix(head.tree, k, marks, j);
      if j + 1 < head.Depth(k) { ClimbPrefix(head.tree, k, marks, j + 1); }
    }

    /** Annotation `i` at step `j` of the path. */
    lemma {:induction false} MarkFacts(k: Key, j: nat, i: nat)
      requires Valid() && |k| == 8 * head.len && j < head.Depth(k) && i < |MarksAt(k, j)|
      ensures ListedAt(k, head.At(k, j), MarksAt(k, j)[i].e)
    {
      hide ImageOf, Distinct, SubImage, Holds, BitOf, RouteHolds, MarkHolds, Patricia, MarksOK, ListHolds, Found, Tree.Keys;
      head.PathLinks(k, j);
      PathMarks(head.tree, -1, k, marks, head.tree.Entries(), j);
      var (e, cur) := (MarksAt(k, j)[i].e, head.At(k, j));
      KeysOfEntries(cur, |k|, e);
      FoundInside(cur, k);
      KeysAgree(cur, |k|, e.key, FoundKey(cur, k));
      NoRootNet(e, |k|);
    }

    /** What the ascent reads at step `j`. */
    lemma {:induction false} NodeFacts(k: Key, j: nat)
      requires Valid() && |k| == 8 * head.len && j + 1 < head.Depth(k)
      ensures head.At(k, j).Inner? && head.At(k, j).n in head.nodes
      ensures head.Shape() && head.Inside(head.At(k, j), head.Above(k, j)) && head.At(k, j).n.b == head.At(k, j).b
      ensures head.At(k, j).n.p == head.Above(k, j) && (head.At(k, j).n == head.top <==> j == 0)
      ensures 0 < j ==> head.At(k, j - 1).Inner? && head.Above(k, j) == head.At(k, j - 1).n
      ensures head.At(k, j).n.mklist == MarkAt(MarksAt(k, j), 0)
    {
      hide *;
      Facts(k);
      head.PathLinks(k, j);
      TopIs(head.At(k, j));
      PathInMarks(k, j);
      ListHead(head.At(k, j).n.mklist, MarksAt(k, j));
    }

    lemma {:induction false} PathInMarks(k: Key, j: nat)
      requires Valid() && |k| == 8 * head.len && j < head.Depth(k) && head.At(k, j).Inner?
      ensures head.At(k, j).n in marks && MarksAt(k, j) == marks[head.At(k, j).n]
      ensures ListHolds(head.At(k, j).n.mklist, MarksAt(k, j))
    {
      hide ImageOf, Distinct, SubImage, Holds, BitOf, RouteHolds, MarkHolds, ListHolds;
      PathMarks(head.tree, -1, k, marks, head.tree.Entries(), j);
    }

    /** What the code reads from annotation `i` at step `j`. */
    lemma MarkNode(k: Key, j: nat, i: nat)
      requires Valid() && |k| == 8 * head.len && j < head.Depth(k) && i < |MarksAt(k, j)|
      ensures MarkHolds(MarksAt(k, j)[i].m, MarksAt(k, j)[i].e, MarkAt(MarksAt(k, j), i + 1))
    {
      hide ImageOf, Distinct, SubImage, Holds, BitOf, RouteHolds, MarkHolds, Patricia, MarksOK, Path;
      PathInMarks(k, j);
    }

    /** `e` is a route listed at the node of `cur`, a subtree on the path for `k`. */
    ghost predicate ListedAt(k: Key, cur: Tree, e: Entry)
      reads head
    {
      && head.Shape() && |k| == 8 * head.len && cur.Inner? && Patricia(cur, |k|)
      && e in cur.Entries() && cur.Entries() <= head.tree.Entries() && !e.root
      && e.prefix.Net? && e.prefix.plen <= cur.b < |k| && |e.key| == |k|
      && Agree(e.key, FoundKey(head.tree, k), cur.b)
    }

    /** The outcome of testing an annotation, for normal and for other masks. */
    lemma {:induction false} MarkTest(v: seq<Byte>, at: nat, b: nat, cur: Tree, e: Entry, skip: nat)
      requires Valid() && |v| == head.len && v[0] == head.len && PartsAt(Bits(v, head.off), at, b)
      requires ListedAt(Bits(v, head.off), cur, e) && head.off <= cur.b
      requires skip == if cur.b / 8 < at then cur.b / 8 else at
      ensures TestOK(v, e, skip, b, Bits(v, head.off))
    {
      hide Patricia, Distinct, ImageOf, SubImage, Holds, BitOf, Found, Path, MarksOK, IsBest, ListsHold, MaskIs, TestOK;
      EntryNode(e);
      TestIsMatch(v, e, at, b, skip);
    }

    ghost function MaskChain(k: Key, cur: Tree, e: Entry): (c: seq<Entry>)
      requires ListedAt(k, cur, e)
      reads head
    {
      FoundMasked(cur, k, e.prefix.plen).chain
    }

    /** In the chain reached by the masked search, only the annotated route carries that mask. */
    lemma {:induction false} MaskedChain(k: Key, cur: Tree, e: Entry, par: Node, q: nat)
      requires Valid() && ListedAt(k, cur, e) && q < |MaskChain(k, cur, e)|
      requires head.Inside(FoundMasked(cur, k, e.prefix.plen), par)
      ensures MaskChain(k, cur, e)[q].n.mask == e.n.mask <==> MaskChain(k, cur, e)[q] == e
      ensures MaskChain(k, cur, e)[q].n.dupedkey ==
              (if q + 1 < |MaskChain(k, cur, e)| then MaskChain(k, cur, e)[q + 1].n else null)
    {
      hide ImageOf, Distinct, SubImage, Holds, BitOf, Path, MarksOK, ListsHold, MaskIs, Found;
      var c := MaskChain(k, cur, e);
      MaskedInside(cur, k, e.prefix.plen);
      EntryNode(c[q]);
      EntryNode(e);
      head.ChainLinks(FoundMasked(cur, k, e.prefix.plen), par, q);
      if c[q].prefix.Net? {
        MaskIsUnique(c[q].n.mask.value, e.n.mask.value, c[q].prefix.plen, e.prefix.plen);
        MaskedSearchFinds(cur, k, e);
        SamePrefixSameRoute(c, |k|, q, e);
      }
    }

    /** Search with the mask, then along the chain for the leaf carrying it. */
    method FindMasked(v: seq<Byte>, t: Node, m: seq<Byte>, ghost cur: Tree, ghost above: Node, ghost e: Entry)
      returns (x: Node?)
      requires Valid() && |v| == head.len && ListedAt(Bits(v, head.off), cur, e)
      requires head.Inside(cur, above) && t == cur.n && t in head.nodes && e.n.mask == Some(m)
      ensures x == e.n
    {
      hide *;
      ghost var k := Bits(v, head.off);
      FindFacts(k, cur, e);
      ghost var par;
      x, par := head.SearchM(v, t, m, cur, above, e.prefix.plen);
      ghost var q := 0;
      ghost var c := MaskChain(k, cur, e);
      ghost var s :| 0 <= s < |c| && c[s] == e;
      while x != null && x.mask != Some(m)
        invariant 0 <= q <= s && x == c[q].n
        decreases s - q
      {
        MaskedChain(k, cur, e, par, q);
        x := x.dupedkey;
        q := q + 1;
      }
      MaskedChain(k, cur, e, par, q);
    }

    lemma {:induction false} FindFacts(k: Key, cur: Tree, e: Entry)
      requires Valid() && ListedAt(k, cur, e)
      ensures head.Valid() && head.Shape() && Patricia(cur, |k|) && e.prefix.Net? && cur.Top() == cur.n
      ensures MaskChain(k, cur, e) == FoundMasked(cur, k, e.prefix.plen).chain && e in MaskChain(k, cur, e)
      ensures e.n.mask.Some? && head.len <= |e.n.mask.value|
      ensures forall b :: head.off <= b < 8 * head.len ==> Bit(e.n.mask.value, b) == (b < e.prefix.plen)
    {
      hide Patricia, Distinct, ImageOf, SubImage, Holds, BitOf, Found, Path, MarksOK, IsBest, ListsHold;
      EntryNode(e);
      MaskedSearchFinds(cur, k, e);
    }

    /** One annotation on the way up. */
    method TestMark(v: seq<Byte>, at: nat, b: nat, t: Node, m: Mark,
                    ghost cur: Tree, ghost above: Node, ghost e: Entry, ghost next: Mark?) returns (r: Node?)
      requires Valid() && |v| == head.len && v[0] == head.len && PartsAt(Bits(v, head.off), at, b)
      requires ListedAt(Bits(v, head.off), cur, e) && MarkHolds(m, e, next)
      requires head.Inside(cur, above) && t == cur.n && t in head.nodes && t.b == cur.b
      ensures r != null <==> e.Matches(Bits(v, head.off))
      ensures r != null ==> r == e.n
    {
      hide *;
      ghost var k := Bits(v, head.off);
      TestFacts(k, cur, above, m, e, next);
      var skip := if t.b / 8 < at then t.b / 8 else at;
      MarkTest(v, at, b, cur, e, skip);
      TestMeans(v, e, skip, b, k);
      if m.normal {
        return if -1 - b <= m.b then m.leaf else null;
      }
      var x := FindMasked(v, t, m.mask.value, cur, above, e);
      var ok := SatisfiesLeaf(v, x.key, x.mask, skip);
      return if ok then x else null;
    }

    lemma TestFacts(k: Key, cur: Tree, above: Node, m: Mark, e: Entry, next: Mark?)
      requires Valid() && ListedAt(k, cur, e) && MarkHolds(m, e, next) && head.Inside(cur, above)
      ensures head.Shape() && head.off <= cur.b
      ensures m.b == e.n.b && (m.normal ==> m.leaf == e.n) && (!m.normal ==> m.mask == e.n.mask)
    {
      hide Patricia, Distinct, ImageOf, SubImage, Holds, BitOf, Found, Path, MarksOK, IsBest, ListsHold;
    }

    /** No annotation below step `j`, nor any of the first `i` at step `j`, matches. */
    ghost predicate Missed(k: Key, j: nat, i: nat)
      reads this, head
    {
      && (forall a :: a in ClimbAt(k, j + 1) ==> !a.e.Matches(k))
      && (forall s :: 0 <= s < i && s < |MarksAt(k, j)| ==> !MarksAt(k, j)[s].e.Matches(k))
    }

    lemma MissedStart(k: Key, j: nat)
      requires Valid() && |k| == 8 * head.len && j + 2 == head.Depth(k)
      ensures Missed(k, j, 0)
    {
      hide Valid, ClimbAt, MarksAt, Head.Depth;
      ClimbStep(k, j + 1);
    }

    lemma MissedUp(k: Key, j: nat)
      requires Valid() && |k| == 8 * head.len && 0 < j && j + 1 < head.Depth(k) && Missed(k, j, |MarksAt(k, j)|)
      ensures Missed(k, j - 1, 0)
    {
      hide Valid, ClimbAt, MarksAt, Head.Depth;
      ClimbStep(k, j);
    }

    lemma MissedAll(k: Key)
      requires Valid() && |k| == 8 * head.len && 1 < head.Depth(k) && Missed(k, 0, |MarksAt(k, 0)|)
      requires Patricia(head.tree, |k|) && ChainFails(head.tree, k)
      ensures IsBest(Routes(head.tree), k, None)
    {
      hide Valid, MarksAt, Head.Depth, Patricia, ChainFails, IsBest, Tree.InnerNodes, Ready, Climb;
      ClimbStep(k, 0);
      ClimbTop(k);
      NothingFound(head.tree, marks, k);
    }

    lemma ClimbTop(k: Key)
      requires Valid() && |k| == 8 * head.len
      ensures Ready(head.tree, marks, |k|) && ClimbAt(k, 0) == Climb(head.tree, k, marks)
    {
      Facts(k);
    }

    lemma MarkHit(k: Key, j: nat, i: nat)
      requires Valid() && |k| == 8 * head.len && j + 1 < head.Depth(k) && i < |MarksAt(k, j)| && Missed(k, j, i)
      requires Patricia(head.tree, |k|) && ChainFails(head.tree, k) && MarksAt(k, j)[i].e.Matches(k)
      ensures IsBest(Routes(head.tree), k, Some(MarksAt(k, j)[i].e))
    {
      hide Valid, MarksAt, Head.Depth, Patricia, ChainFails, IsBest, Tree.InnerNodes, Ready, Climb, ClimbAt, Entry.Matches;
      ClimbStep(k, j);
      ClimbTop(k);
      var (s, ms) := (ClimbAt(k, j + 1), MarksAt(k, j));
      var q := |s| + i;
      assert ClimbAt(k, 0)[q] == (s + ms)[q] == ms[i];
      forall p | 0 <= p < q ensures !ClimbAt(k, 0)[p].e.Matches(k) {
        assert ClimbAt(k, 0)[p] == (s + ms)[p];
      }
      FirstInClimb(head.tree, marks, k, q);
    }

    lemma MissedNext(k: Key, j: nat, i: nat)
      requires i < |MarksAt(k, j)| && Missed(k, j, i) && !MarksAt(k, j)[i].e.Matches(k)
      ensures Missed(k, j, i + 1)
    {
      hide ClimbAt, MarksAt, Entry.Matches;
    }

    lemma {:induction false} LeafFacts(k: Key)
      requires Valid() && |k| == 8 * head.len
      ensures head.Shape() && 2 <= head.Depth(k) && Chain(k) != [] && head.At(k, head.Depth(k) - 2).Inner?
      ensures Chain(k)[0].n.p == head.At(k, head.Depth(k) - 2).n
    {
      hide *;
      Facts(k);
      head.LeafLinks(k);
      ChainHead(k);
    }

    /** The annotations of one node, in order. */
    method InNode(v: seq<Byte>, at: nat, b: nat, t: Node, ghost j: nat) returns (r: Node?, ghost hit: Option<Entry>)
      requires Valid() && |v| == head.len && v[0] == head.len && PartsAt(Bits(v, head.off), at, b)
      requires j + 1 < head.Depth(Bits(v, head.off))
      requires head.At(Bits(v, head.off), j).Inner? && t == head.At(Bits(v, head.off), j).n
      requires Missed(Bits(v, head.off), j, 0) && ChainFails(head.tree, Bits(v, head.off))
      ensures r == null ==> Missed(Bits(v, head.off), j, |MarksAt(Bits(v, head.off), j)|)
      ensures r != null ==> hit.Some? && hit.value.n == r && IsBest(Routes(head.tree), Bits(v, head.off), hit)
    {
      hide *;
      ghost var k := Bits(v, head.off);
      Facts(k);
      NodeFacts(k, j);
      ghost var ms := MarksAt(k, j);
      ghost var i := 0;
      var m := t.mklist;
      MarkAtMeans(ms, 0);
      while m != null
        invariant 0 <= i <= |ms| && m == MarkAt(ms, i) && (m == null <==> i == |ms|) && (i < |ms| ==> m == ms[i].m)
        invariant Missed(k, j, i)
        decreases |ms| - i
      {
        MarkFacts(k, j, i);
        MarkNode(k, j, i);
        MarkNext(ms[i].m, ms[i].e, MarkAt(ms, i + 1));
        r := TestMark(v, at, b, t, m, head.At(k, j), head.Above(k, j), ms[i].e, MarkAt(ms, i + 1));
        if r != null {
          MarkHit(k, j, i);
          return r, Some(ms[i].e);
        }
        MissedNext(k, j, i);
        m := m.next;
        i := i + 1;
        MarkAtMeans(ms, i);
      }
      return null, None;
    }

    /** The way up from the found leaf to the top. */
    method InAncestors(v: seq<Byte>, leaf: Node, at: nat, b: nat) returns (r: Node?, ghost hit: Option<Entry>)
      requires Valid() && |v| == head.len && v[0] == head.len
      requires PartsAt(Bits(v, head.off), at, b) && leaf == Chain(Bits(v, head.off))[0].n
      requires ChainFails(head.tree, Bits(v, head.off))
      ensures hit.Some? <==> r != null
      ensures (hit.Some? ==> hit.value.n == r) && IsBest(Routes(head.tree), Bits(v, head.off), hit)
    {
      hide *;
      ghost var k := Bits(v, head.off);
      Facts(k);
      LeafFacts(k);
      ghost var j: nat := head.Depth(k) - 2;
      NodeFacts(k, j);
      var t: Node := leaf.p;
      MissedStart(k, j);
      while true
        invariant j + 1 < head.Depth(k) && head.At(k, j).Inner? && t == head.At(k, j).n
        invariant Missed(k, j, 0)
        decreases j
      {
        NodeFacts(k, j);
        r, hit := InNode(v, at, b, t, j);
        if r != null { return; }
        if t == head.top {
          MissedAll(k);
          return null, None;
        }
        MissedUp(k, j);
        NodeFacts(k, j - 1);
        t := t.p;
        j := j - 1;
      }
    }

    // ---------- the match ----------

    /** A sentinel key is found at its root leaf, which heads the chain. */
    lemma {:induction false} SentinelChain(k: Key)
      requires RoutesHold() && |k| == 8 * head.len
      ensures IsSentinel(k) ==> FoundKey(head.tree, k) == k && Chain(k) != [] && Chain(k)[0].root
      ensures Chain(k) != [] && Chain(k)[0].root ==> IsSentinel(FoundKey(head.tree, k))
    {
      hide ImageOf, Distinct, SubImage, Holds, BitOf, RouteHolds, ZeroKey, OneKey;
      ChainNode(k, 0);
      if IsSentinel(k) {
        var e := if k == ZeroKey(head.len) then Entry(head.zeroLeaf, k, Host, true) else Entry(head.oneLeaf, k, Host, true);
        KeysOfEntries(head.tree, |k|, e);
        SearchReachesStored(head.tree, k);
        FoundChainComplete(head.tree, k, e);
        var i :| 0 <= i < |Chain(k)| && Chain(k)[i] == e;
        if i > 0 { ChainNode(k, i); }
      }
    }

    /** The found key agrees with `k` as far as the first route of its chain reaches. */
    ghost predicate FullMatch(k: Key)
      requires head.Shape() && |k| == 8 * head.len && Chain(k) != []
      reads head
    {
      if Chain(k)[0].prefix.Host? then FoundKey(head.tree, k) == k else Chain(k)[0].Matches(k)
    }

    /** How many bytes the first comparison of squid_rn_match looks at. */
    lemma CompareLength(k: Key)
      requires RoutesHold() && |k| == 8 * head.len
      ensures Chain(k)[0].n in head.nodes && |Chain(k)[0].n.key| == head.len
      ensures var m := Chain(k)[0].n.mask; m.Some? ==> m.value != [] && m.value[0] <= head.len
    {
      hide ImageOf, Distinct, SubImage, Holds, BitOf, Patricia, Path;
      ChainNode(k, 0);
    }

    lemma Compared(v: seq<Byte>, x: Node, vlen: nat, differ: bool, at: nat, b: nat)
      requires RoutesHold() && |v| == head.len && v[0] == head.len && x == Chain(Bits(v, head.off))[0].n
      requires |x.key| == head.len && vlen == (if x.mask.Some? && x.mask.value != [] then x.mask.value[0] else v[0])
      requires vlen <= head.len
      requires !differ ==> SameBitsUpTo(v, x.key, head.off, 8 * vlen)
      requires differ ==> head.off <= b < 8 * head.len && at == b / 8
      requires differ ==> Bit(v, b) != Bit(x.key, b) && SameBitsUpTo(v, x.key, head.off, b)
      ensures differ ==> PartsAt(Bits(v, head.off), at, b) && FoundKey(head.tree, Bits(v, head.off)) != Bits(v, head.off)
      ensures !differ ==> FullMatch(Bits(v, head.off))
    {
      hide ImageOf, Distinct, SubImage, Holds, BitOf, Patricia, Path, Found;
      var k := Bits(v, head.off);
      ChainNode(k, 0);
    }

    /** The three outcomes when the first comparison finds no difference. */
    lemma {:induction false} FullMatchResult(k: Key)
      requires Valid() && |k| == 8 * head.len && FullMatch(k)
      ensures !Chain(k)[0].root ==> !Shadowed(k) && IsBest(Routes(head.tree), k, Some(Chain(k)[0]))
      ensures Chain(k)[0].root && |Chain(k)| > 1 ==>
                !Shadowed(k) && IsBest(Routes(head.tree), k, Some(Chain(k)[1]))
      ensures Chain(k)[0].root && |Chain(k)| == 1 ==> Shadowed(k)
    {
      hide ImageOf, Distinct, SubImage, Holds, BitOf, IsBest, Patricia, MarksOK, Path, Found, IsSentinel, RouteHolds;
      Facts(k);
      ChainNode(k, 0);
      SentinelChain(k);
      if !Chain(k)[0].root {
        FirstInChain(head.tree, marks, k, 0);
      } else if |Chain(k)| > 1 {
        ChainNode(k, 1);
        FirstInChain(head.tree, marks, k, 1);
      } else {
        forall e | e in Routes(head.tree) ensures e.key != k {
          if e.key == k { FoundChainComplete(head.tree, k, e); }
        }
      }
    }

    /**
     squid_rn_match: one descent, a walk along the found chain and one ascent return what a linear scan
     over all routes returns, except that a root leaf answers for its own key when no route is stored
     under that key.
     */
    method Match(v: seq<Byte>) returns (r: Node?, ghost hit: Option<Entry>)
      requires Valid() && |v| == head.len && v[0] == head.len
      ensures Shadowed(Bits(v, head.off)) ==> r != null && r.root && r == Chain(Bits(v, head.off))[0].n
      ensures !Shadowed(Bits(v, head.off)) ==>
                && (r != null <==> hit.Some?) && (r != null ==> hit.value.n == r)
                && hit == LinearScan(NonRoot(AllEntries(head.tree)), Bits(v, head.off))
    {
      hide *;
      ghost var k := Bits(v, head.off);
      Facts(k);
      var t := head.Search(v);
      CompareLength(k);
      ChainHead(k);
      var vlen := if t.mask.Some? then t.mask.value[0] else v[0];
      OffsetFacts();
      var differ, at, b := FirstDifference(v, t.key, head.off / 8, vlen);
      Compared(v, t, vlen, differ, at, b);
      SentinelOrNot(k);
      if !differ {
        FullMatchResult(k);
        if t.root && t.dupedkey != null {
          BestIsScan(k, Some(Chain(k)[1]));
          return t.dupedkey, Some(Chain(k)[1]);
        }
        if !t.root { BestIsScan(k, Some(Chain(k)[0])); }
        return t, Some(Chain(k)[0]);
      }
      r, hit := InChain(v, t, at, b);
      if r == null { r, hit := InAncestors(v, t, at, b); }
      BestIsScan(k, hit);
    }

    lemma OffsetFacts()
      requires Valid()
      ensures head.off % 8 == 0 && 8 <= head.off < 8 * head.len
    {
    }

    lemma ChainHead(k: Key)
      requires RoutesHold() && |k| == 8 * head.len
      ensures Chain(k) == Found(head.tree, k).chain != []
      ensures Chain(k)[0].n.root == Chain(k)[0].root
      ensures Chain(k)[0].n.dupedkey == (if |Chain(k)| > 1 then Chain(k)[1].n else null)
    {
      hide ImageOf, Distinct, SubImage, Holds, BitOf, Patricia, Path, Found;
      ChainNode(k, 0);
    }

    lemma {:induction false} BestIsScan(k: Key, hit: Option<Entry>)
      requires Valid() && |k| == 8 * head.len && IsBest(Routes(head.tree), k, hit)
      ensures hit == LinearScan(NonRoot(AllEntries(head.tree)), k)
    {
      BestIsLinearScan(head.tree, k, hit);
    }

    lemma SentinelOrNot(k: Key)
      requires RoutesHold() && |k| == 8 * head.len
      ensures FoundKey(head.tree, k) != k ==> !Shadowed(k)
    {
      hide ImageOf, Distinct, SubImage, Holds, BitOf, Patricia, Path, Found, ZeroKey, OneKey, RouteHolds;
      SentinelChain(k);
    }
  }

  /** Each subtree on a path carries its own correct annotations. */
  lemma {:induction false} PathMarks(t: Tree, lo: int, k: Key, marks: Marking, s: set<Entry>, j: nat)
    requires Patricia(t, |k|) && MarksOK(t, lo, marks, s) && j < |Path(t, k)|
    ensures Path(t, k)[j].Inner? ==>
              && Path(t, k)[j].n in marks
              && forall a :: a in marks[Path(t, k)[j].n] ==>
                   a.e in Path(t, k)[j].Entries() && a.e.prefix.Net? && a.e.prefix.plen <= Path(t, k)[j].b
  {
    if j > 0 {
      PathMarks(Child(t, k), t.b, k, marks, s, j - 1);
    } else if t.Inner? {
      forall a | a in marks[t.n] ensures a.e in t.Entries() && a.e.prefix.Net? && a.e.prefix.plen <= t.b {
        assert a.e in Listed(marks[t.n]);
      }
    }
  }

  lemma SamePrefixSameRoute(c: seq<Entry>, w: nat, q: nat, e: Entry)
    requires ChainOK(c, w) && q < |c| && e in c
    ensures c[q].prefix == e.prefix <==> c[q] == e
  {
    var s :| 0 <= s < |c| && c[s] == e;
  }
}
