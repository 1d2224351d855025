/**
 The pointer code of lib/radix.c over linked nodes: search, insertion, mask interning,
 route addition and the longest-prefix match.
 */
module Radix {
  import opened Basics
  import opened RadixBits
  import opened RadixTrie
  import opened RadixGrowth
  import opened RadixImage

  /** The bits of a key that a tree with bit offset `off` looks at. */
  ghost function Bits(v: seq<Byte>, off: nat): (k: Key)
    ensures |k| == 8 * |v|
    ensures forall i :: 0 <= i < |k| ==> k[i] == (off <= i && Bit(v, i))
  {
    seq(8 * |v|, i requires 0 <= i < 8 * |v| => off <= i && Bit(v, i))
  }

  ghost predicate ZeroBefore(k: Key, n: nat) {
    forall i :: 0 <= i < n && i < |k| ==> !k[i]
  }

  lemma BitsZeroBefore(v: seq<Byte>, off: nat)
    ensures ZeroBefore(Bits(v, off), off)
  {
  }

  /** The fields of `x` are what the image says. */
  ghost predicate Holds(x: Node, c: Cell, off: nat)
    reads x
  {
    match c
    case InnerCell(b, p, l, r) => x.b == b && x.p == p && x.l == l && x.r == r
    case LeafCell(e, p, next) =>
      && x.b < 0 && Bits(x.key, off) == e.key && x.root == e.root
      && x.dupedkey == next && (p != null ==> x.p == p)
  }

  lemma {:induction false} TopHere(t: Tree, w: nat, parent: Node)
    requires Patricia(t, w) && Distinct(t)
    ensures t.Top() in ImageOf(t, w, parent)
    ensures t.Inner? ==> ImageOf(t, w, parent)[t.Top()] == TopCell(t, w, parent)
    ensures t.Leaf? ==>
              ImageOf(t, w, parent)[t.Top()] ==
              LeafCell(t.chain[0], parent, if |t.chain| > 1 then t.chain[1].n else null)
  {
  }

  lemma SubImageTrans(a: Image, b: Image, c: Image)
    requires SubImage(a, b) && SubImage(b, c)
    ensures SubImage(a, c)
  {
  }

  ghost function ZeroKey(len: nat): Key {
    seq(8 * len, _ => false)
  }

  ghost function OneKey(len: nat, off: nat): Key {
    seq(8 * len, i => off <= i)
  }

  lemma {:induction false} Byte255(j: nat)
    requires j < 8
    ensures BitOf(255, j)
  {
    assert BitOf(255, 0) && BitOf(127, 0) && BitOf(63, 0) && BitOf(31, 0);
    assert BitOf(15, 0) && BitOf(7, 0) && BitOf(3, 0) && BitOf(1, 0);
    assert BitOf(255, 1) && BitOf(127, 1) && BitOf(63, 1) && BitOf(31, 1) && BitOf(15, 1) && BitOf(7, 1) && BitOf(3, 1);
    assert BitOf(255, 2) && BitOf(127, 2) && BitOf(63, 2) && BitOf(31, 2) && BitOf(15, 2) && BitOf(7, 2);
    assert BitOf(255, 3) && BitOf(127, 3) && BitOf(63, 3) && BitOf(31, 3) && BitOf(15, 3);
    assert BitOf(255, 4) && BitOf(127, 4) && BitOf(63, 4) && BitOf(31, 4);
    assert BitOf(255, 5) && BitOf(127, 5) && BitOf(63, 5);
    assert BitOf(255, 6) && BitOf(127, 6);
  }

  function Repeat(x: Byte, n: nat): (s: seq<Byte>)
    ensures |s| == n && forall i :: 0 <= i < n ==> s[i] == x
  {
    seq(n, _ => x)
  }

  lemma ZerosOnes(len: nat, off: nat)
    ensures Bits(Repeat(0, len), off) == ZeroKey(len)
    ensures Bits(Repeat(255, len), off) == OneKey(len, off)
  {
    var (z, o) := (Bits(Repeat(0, len), off), Bits(Repeat(255, len), off));
    forall i | 0 <= i < 8 * len ensures !z[i] && o[i] == (off <= i) {
      ZeroBits(7 - i % 8);
      Byte255(7 - i % 8);
    }
  }

  /** The tree that holds only the two root leaves. */
  ghost function Empty(len: nat, off: nat, t: Node, z: Node, o: Node): Tree {
    Inner(t, off, Leaf([Entry(z, ZeroKey(len), Host, true)]), Leaf([Entry(o, OneKey(len, off), Host, true)]))
  }

  lemma {:induction false} EmptyShape(len: nat, off: nat, t: Node, z: Node, o: Node)
    requires off < 8 * len && t != z && t != o && z != o
    ensures Patricia(Empty(len, off, t, z, o), 8 * len) && Distinct(Empty(len, off, t, z, o))
    ensures Empty(len, off, t, z, o).Nodes() == {t, z, o}
    ensures forall k :: k in Empty(len, off, t, z, o).Keys() ==> ZeroBefore(k, off)
    ensures ImageOf(Empty(len, off, t, z, o), 8 * len, t) ==
            map[t := InnerCell(off, t, z, o),
                z := LeafCell(Entry(z, ZeroKey(len), Host, true), t, null),
                o := LeafCell(Entry(o, OneKey(len, off), Host, true), t, null)]
  {
    var (ez, eo) := (Entry(z, ZeroKey(len), Host, true), Entry(o, OneKey(len, off), Host, true));
    SingleLeaf(ez);
    SingleLeaf(eo);
    SingleImage(ez, t);
    SingleImage(eo, t);
  }

  /** squid_rn_newpair: make `inner` test bit `b` with the new leaf on its left. */
  method NewPair(v: seq<Byte>, b: nat, leaf: Node, inner: Node)
    requires leaf != inner
    modifies leaf`b, leaf`key, leaf`p, inner`b, inner`l
    ensures inner.b == b && inner.l == leaf
    ensures leaf.b == -1 && leaf.key == v && leaf.p == inner
  {
    inner.b, inner.l := b, leaf;
    leaf.b, leaf.key, leaf.p := -1, v, inner;
  }

  /** The link updates of squid_rn_insert: the new pair goes between `p` and `x`. */
  method Relink(v: seq<Byte>, b: nat, p: Node, x: Node, leaf: Node, inner: Node,
                off: nat, ghost cp: Cell, ghost cx: Cell, ghost e: Entry)
    requires e.n == leaf && e.key == Bits(v, off) && !e.root
    requires off <= b < 8 * |v| && cp.InnerCell? && off <= cp.b < 8 * |v|
    requires leaf != inner && p != x && p !in {leaf, inner} && x !in {leaf, inner}
    requires Holds(p, cp, off) && Holds(x, cx, off) && leaf.dupedkey == null && !leaf.root
    modifies p`l, p`r, x`p, inner`b, inner`l, inner`r, inner`p, leaf`b, leaf`key, leaf`p
    ensures Holds(p, Redirect(cp, Bits(v, off), inner), off) && Holds(x, cx.(p := inner), off)
    ensures Holds(inner, NewCell(Bits(v, off), b, p, x, leaf), off)
    ensures Holds(leaf, LeafCell(e, inner, null), off)
    ensures leaf.b == -1 && leaf.key == v
  {
    hide BitOf;
    NewPair(v, b, leaf, inner);
    if !Bit(v, p.b) { p.l := inner; } else { p.r := inner; }
    x.p, inner.p := inner, p;
    if !Bit(v, b) { inner.r := x; } else { inner.r, inner.l := leaf, x; }
  }

  /** The link updates of squid_rn_addroute when the new leaf becomes the head of a chain. */
  method RelinkHead(v: seq<Byte>, t: Node, leaf: Node, off: nat,
                    ghost q: Node, ghost cq: Cell, ghost ct: Cell, ghost e: Entry)
    requires cq.InnerCell? && off <= cq.b < 8 * |v| && ct.LeafCell? && ct.p == q
    requires q != t && leaf !in {q, t} && e.n == leaf && e.key == Bits(v, off) && !e.root && !leaf.root
    requires Holds(q, cq, off) && Holds(t, ct, off) && (cq.l == t <==> !e.key[cq.b])
    modifies q`l, q`r, leaf`dupedkey, leaf`p, leaf`key, leaf`b
    ensures Holds(q, Redirect(cq, e.key, leaf), off) && Holds(t, LeafCell(ct.e, null, ct.next), off)
    ensures Holds(leaf, LeafCell(e, q, t), off) && leaf.key == v && leaf.b == -1
  {
    hide BitOf, Bits;
    var x := t.p;
    leaf.dupedkey, leaf.p := t, x;
    if x.l == t { x.l := leaf; } else { x.r := leaf; }
    leaf.key, leaf.b := v, -1;
  }

  lemma FirstCells(i: Image, v: Key, q: Node, h: Node, e: Entry)
    requires q in i && i[q].InnerCell? && i[q].b < |v| && h in i && i[h].LeafCell? && q != h && e.n !in i
    ensures var s := LinkedFirst(i, v, q, h, e);
            && s.Keys == i.Keys + {e.n} && s[q] == Redirect(i[q], v, e.n)
            && s[h] == LeafCell(i[h].e, null, i[h].next) && s[e.n] == LeafCell(e, q, h)
            && (forall y :: y in i && y != q && y != h ==> s[y] == i[y])
  {
  }

  /** The three nodes of an empty tree. */
  method RootNodes(len: nat, off: nat) returns (t: Node, tt: Node, ttt: Node)
    ensures fresh(t) && fresh(tt) && fresh(ttt) && t != tt && t != ttt && tt != ttt
    ensures t.b == off && t.l == tt && t.r == ttt && t.p == t && t.mklist == null
    ensures tt.b == -1 - off && tt.key == Repeat(0, len) && tt.p == t && tt.root
    ensures ttt.b == -1 - off && ttt.key == Repeat(255, len) && ttt.p == t && ttt.root
    ensures tt.dupedkey == ttt.dupedkey == null && tt.mask == ttt.mask == None && !tt.normal
  {
    t := new Node();
    tt := new Node();
    ttt := new Node();
    NewPair(Repeat(0, len), off, tt, t);
    t.r, t.p := ttt, t;
    tt.root, t.root := true, true;
    tt.b := -1 - off;
    ttt.b, ttt.p, ttt.root, ttt.key := tt.b, tt.p, tt.root, Repeat(255, len);
  }

  lemma SplicedCells(i: Image, v: Key, b: nat, p: Node, x: Node, n: Node, e: Entry)
    requires b < |v| && p in i && i[p].InnerCell? && i[p].b < |v| && x in i
    requires p != x && n !in i && e.n !in i && n != e.n
    ensures var s := Spliced(i, v, b, p, x, n, e);
            && s.Keys == i.Keys + {n, e.n}
            && s[p] == Redirect(i[p], v, n) && s[x] == i[x].(p := n)
            && s[n] == NewCell(v, b, p, x, e.n) && s[e.n] == LeafCell(e, n, null)
            && (forall y :: y in i && y != p && y != x ==> s[y] == i[y])
  {
  }

  /** A tree head. Keys have `len` bytes; comparison starts at bit `off`. */
  class Head {
    const len: nat
    const off: nat
    var top: Node
    const zeroLeaf: Node // the root leaf with key rn_zeros
    const oneLeaf: Node  // the root leaf with key rn_ones
    ghost var tree: Tree
    ghost var nodes: set<Node>

    ghost predicate Shape()
      reads this
    {
      && off % 8 == 0 && off < 8 * len
      && tree.Inner? && tree.n == top && tree.b == off
      && Patricia(tree, 8 * len) && Distinct(tree)
      && (forall k :: k in tree.Keys() ==> ZeroBefore(k, off))
    }

    ghost function Img(): Image
      requires Shape()
      reads this
    {
      ImageOf(tree, 8 * len, top)
    }

    ghost predicate Valid()
      reads this, nodes
    {
      && Shape()
      && nodes == tree.Nodes() == Img().Keys
      && (forall x :: x in Img() ==> Holds(x, Img()[x], off))
    }

    /** squid_rn_inithead: a tree holding only the two root leaves, rn_zeros and rn_ones. */
    constructor (len: nat, off: nat)
      requires off % 8 == 0 && off < 8 * len
      ensures this.len == len && this.off == off
      ensures Valid() && fresh(nodes)
      ensures tree == Empty(len, off, top, zeroLeaf, oneLeaf)
      ensures zeroLeaf.b == oneLeaf.b == -1 - off && zeroLeaf.mask == oneLeaf.mask == None
      ensures top.mklist == null && zeroLeaf in nodes && !zeroLeaf.normal && zeroLeaf.key == Repeat(0, len)
    {
      var t, tt, ttt := RootNodes(len, off);
      this.len, this.off := len, off;
      top, zeroLeaf, oneLeaf := t, tt, ttt;
      tree := Empty(len, off, t, tt, ttt);
      nodes := {t, tt, ttt};
      new;
      hide ImageOf, Distinct, Patricia, Bits, ZeroKey, OneKey, ZeroBefore, Tree.Nodes, Tree.Keys, Repeat;
      ZerosOnes(len, off);
      EmptyShape(len, off, t, tt, ttt);
      assert Shape();
    }

    /** The subtree `cur`, hanging below `par`, is part of the tree. */
    ghost predicate Inside(cur: Tree, par: Node)
      requires Shape()
      reads this
    {
      && Patricia(cur, 8 * len) && Distinct(cur)
      && SubImage(ImageOf(cur, 8 * len, par), Img())
      && (cur.Inner? ==> off <= cur.b) && (cur.Leaf? ==> cur.chain != [])
    }

    lemma Step(cur: Tree, par: Node)
      requires Valid() && Inside(cur, par)
      ensures cur.Top() in nodes && Holds(cur.Top(), Img()[cur.Top()], off)
      ensures cur.Inner? ==>
                && Inside(cur.left, cur.n) && Inside(cur.right, cur.n)
                && cur.n.b == cur.b && cur.n.p == par && cur.n.l == cur.left.Top() && cur.n.r == cur.right.Top()
      ensures cur.Leaf? ==> cur.Top().b < 0 && cur.Top().p == par
    {
      TopHere(cur, 8 * len, par);
      if cur.Inner? {
        ImageChildren(cur, 8 * len, par);
        SubImageTrans(ImageOf(cur.left, 8 * len, cur.n), ImageOf(cur, 8 * len, par), Img());
        SubImageTrans(ImageOf(cur.right, 8 * len, cur.n), ImageOf(cur, 8 * len, par), Img());
      }
    }

    /** One step of a descent. */
    lemma Down(cur: Tree, par: Node, k: Key)
      requires Valid() && Inside(cur, par) && cur.Inner? && |k| == 8 * len
      ensures cur.n in nodes && cur.n.b == cur.b && off <= cur.b < 8 * len
      ensures Inside(Child(cur, k), cur.n) && Child(cur, k).Top() in nodes
      ensures cur.n.l != null && cur.n.r != null
      ensures Child(cur, k).Top() == if k[cur.b] then cur.n.r else cur.n.l
      ensures Child(cur, k).Top().b >= 0 <==> Child(cur, k).Inner?
      ensures Child(cur, k).Inner? ==> Child(cur, k).n.b == Child(cur, k).b
      ensures Found(Child(cur, k), k) == Found(cur, k)
      ensures Child(cur, k) < cur
    {
      hide ImageOf, Distinct;
      Step(cur, par);
      Step(Child(cur, k), cur.n);
    }

    lemma IsShape()
      requires Valid()
      ensures Shape() && Patricia(tree, 8 * len) && Distinct(tree) && tree.Nodes() == nodes
    {
    }

    lemma Start()
      requires Valid()
      ensures Inside(tree, top) && tree.Top() == top && top in nodes && top.b == off
    {
      Step(tree, top);
    }

    /** squid_rn_search: the leaf whose key agrees with `v` on every tested bit. */
    method Search(v: seq<Byte>) returns (x: Node)
      requires Valid() && |v| == len
      ensures x == Found(tree, Bits(v, off)).chain[0].n
    {
      ghost var k := Bits(v, off);
      ghost var cur, par := tree, top;
      x := top;
      hide ImageOf, Distinct, Patricia, SubImage, Holds, BitOf;
      Start();
      while x.b >= 0
        invariant Valid() && Inside(cur, par) && x == cur.Top()
        invariant x.b >= 0 <==> cur.Inner?
        invariant Found(cur, k) == Found(tree, k)
        decreases cur
      {
        Down(cur, par, k);
        if Bit(v, x.b) { x := x.r; } else { x := x.l; }
        par, cur := cur.n, Child(cur, k);
      }
    }

    /** Redirect the links around the edge between `p` and `x` to the new pair. */
    method Splice(v: seq<Byte>, b: nat, p: Node, x: Node, leaf: Node, inner: Node, ghost e: Entry)
      requires e.n == leaf && e.key == Bits(v, off) && !e.root && e.Fits(8 * len)
      requires Valid() && |v| == len && Differs(tree, Bits(v, off), b) && off < b
      requires p == StopParent(tree, top, Bits(v, off), b) && x == StopAt(tree, Bits(v, off), b).Top()
      requires leaf != inner && leaf !in nodes && inner !in nodes
      requires leaf.dupedkey == null && !leaf.root
      modifies this`tree, this`nodes, p`l, p`r, x`p, inner`b, inner`l, inner`r, inner`p, leaf`b, leaf`key, leaf`p
      ensures Valid()
      ensures tree == Graft(old(tree), Bits(v, off), b, inner, e)
      ensures nodes == old(nodes) + {inner, leaf}
      ensures leaf.b == -1 && leaf.key == v
    {
      hide ImageOf, Distinct, Patricia, ZeroBefore, Tree.Nodes, Tree.Keys, Bits, BitOf, Graft, StopAt, StopParent;
      hide Spliced, Redirect, NewCell;
      ghost var k := Bits(v, off);
      assert ZeroBefore(k, off) by { BitsZeroBefore(v, off); }
      GrownShape(b, inner, e);
      ghost var img := Img();
      assert b < 8 * len && p in img && x in img && img[p].InnerCell? && off <= img[p].b < b;
      SplicedCells(img, k, b, p, x, inner, e);
      assert Holds(p, img[p], off) && Holds(x, img[x], off);
      Relink(v, b, p, x, leaf, inner, off, img[p], img[x], e);
      tree, nodes := Graft(tree, k, b, inner, e), nodes + {inner, leaf};
      assert Shape();
      forall y | y in Img() ensures Holds(y, Img()[y], off) {
        if y !in {p, x, inner, leaf} { assert y in img; assert Holds(y, img[y], off); }
      }
    }

    lemma GrownShape(b: nat, inner: Node, e: Entry)
      requires Valid() && |e.key| == 8 * len && Differs(tree, e.key, b) && off < b
      requires ZeroBefore(e.key, off) && e.Fits(8 * len) && !e.root
      requires e.n != inner && e.n !in nodes && inner !in nodes
      ensures var (t, p, x) := (Graft(tree, e.key, b, inner, e), StopParent(tree, top, e.key, b), StopAt(tree, e.key, b).Top());
              && Patricia(t, 8 * len) && Distinct(t) && t.Inner? && t.n == top && t.b == off
              && (forall k :: k in t.Keys() ==> ZeroBefore(k, off))
              && p in Img() && Img()[p].InnerCell? && off <= Img()[p].b < b && x in Img() && x != p
              && ImageOf(t, 8 * len, top) == Spliced(Img(), e.key, b, p, x, inner, e)
              && t.Nodes() == tree.Nodes() + {inner, e.n}
    {
      hide ImageOf, Distinct;
      GraftPatricia(tree, e.key, b, inner, e);
      GraftDistinct(tree, e.key, b, inner, e);
      GraftKeys(tree, e.key, b, inner, e);
      GraftImage(tree, e.key, b, inner, e, top);
      StopNodes(tree, top, e.key, b);
    }

    /** Comparing `v[0]` bytes decides whether `v` is stored. */
    ghost predicate LengthDecides(v: seq<Byte>)
      requires |v| == len && 0 < len && v[0] <= len
      reads this
    {
      forall k :: k in tree.Keys() && |k| == 8 * len && Agree(k, Bits(v, off), 8 * (v[0] as int)) ==> k == Bits(v, off)
    }

    /** What the byte comparison of squid_rn_insert tells about the found key. */
    lemma Compared(v: seq<Byte>, x: Node, differ: bool, b: nat)
      requires Valid() && |v| == len && 0 < len && v[0] <= len && LengthDecides(v)
      requires x == Found(tree, Bits(v, off)).chain[0].n && |x.key| == len
      requires !differ ==> SameBitsUpTo(v, x.key, off, 8 * (v[0] as int))
      requires differ ==> off <= b < 8 * len && Bit(v, b) != Bit(x.key, b) && SameBitsUpTo(v, x.key, off, b)
      ensures !differ ==> FoundKey(tree, Bits(v, off)) == Bits(v, off)
      ensures differ ==> Differs(tree, Bits(v, off), b) && off < b
      ensures differ <==> Bits(v, off) !in tree.Keys()
    {
      hide ImageOf, Distinct, BitOf;
      var k := Bits(v, off);
      FoundHere(k);
      FoundInside(tree, k);
      assert FoundKey(tree, k) == Bits(x.key, off);
      if differ {
        assert Differs(tree, k, b);
        if b == off { StopKeys(tree, k, b); }
        if k in tree.Keys() { SearchReachesStored(tree, k); }
      } else {
        assert Agree(FoundKey(tree, k), k, 8 * (v[0] as int));
      }
    }

    lemma FoundHere(k: Key)
      requires Valid() && |k| == 8 * len
      ensures var x := Found(tree, k).chain[0].n; x in nodes && Bits(x.key, off) == FoundKey(tree, k) && |x.key| == len
    {
      hide ImageOf, Distinct;
      Start();
      FoundBelow(tree, top, k);
    }

    lemma {:induction false} FoundBelow(cur: Tree, par: Node, k: Key)
      requires Valid() && Inside(cur, par) && |k| == 8 * len
      ensures var x := Found(cur, k).chain[0].n; x in nodes && Bits(x.key, off) == FoundKey(cur, k) && |x.key| == len
      decreases cur
    {
      hide ImageOf, Distinct;
      if cur.Leaf? { LeafHere(cur, par); } else { Down(cur, par, k); FoundBelow(Child(cur, k), cur.n, k); }
    }

    lemma LeafHere(cur: Tree, par: Node)
      requires Valid() && Inside(cur, par) && cur.Leaf?
      ensures cur.Top() in nodes && Bits(cur.Top().key, off) == cur.chain[0].key && |cur.Top().key| == len
      ensures cur.Top().p == par
    {
      TopHere(cur, 8 * len, par);
    }

    /**
     squid_rn_insert: store a key. A key that is stored already is reported and nothing changes;
     otherwise the edge where the keys part is split.
     */
    method Insert(v: seq<Byte>, leaf: Node, inner: Node, ghost e: Entry)
      returns (x: Node, dup: bool, ghost b: nat)
      requires Valid() && |v| == len && v[0] <= len && LengthDecides(v)
      requires leaf != inner && leaf !in nodes && inner !in nodes
      requires leaf.dupedkey == null && !leaf.root
      requires e.n == leaf && e.key == Bits(v, off) && !e.root && e.Fits(8 * len)
      modifies this`tree, this`nodes, nodes`l, nodes`r, nodes`p
      modifies inner`b, inner`l, inner`r, inner`p, leaf`b, leaf`key, leaf`p
      ensures Valid()
      ensures dup <==> Bits(v, off) in old(tree.Keys())
      ensures dup ==> tree == old(tree) && nodes == old(nodes) && unchanged(nodes) && unchanged(leaf) && unchanged(inner)
      ensures dup ==> x == Found(tree, Bits(v, off)).chain[0].n && FoundKey(tree, Bits(v, off)) == Bits(v, off)
      ensures !dup ==> x == leaf && leaf.b == -1 && leaf.key == v && off < b && Differs(old(tree), Bits(v, off), b)
      ensures !dup ==> tree == Graft(old(tree), Bits(v, off), b, inner, e) && nodes == old(nodes) + {inner, leaf}
    {
      hide ImageOf, Distinct, Patricia, BitOf, Graft, Agree, SubImage;
      ghost var k := Bits(v, off);
      var t := Search(v);
      FoundHere(k);
      var differ, at, d := FirstDifference(v, t.key, off / 8, v[0]);
      Compared(v, t, differ, d);
      b := d;
      if !differ { return t, true, d; }
      var p, y := FindEdge(v, d);
      Splice(v, d, p, y, leaf, inner, e);
      return leaf, false, d;
    }

    /** The second descent of squid_rn_insert: the edge at which index `b` belongs. */
    method FindEdge(v: seq<Byte>, b: nat) returns (p: Node, x: Node)
      requires Valid() && |v| == len && off < b < 8 * len
      ensures p == StopParent(tree, top, Bits(v, off), b) && x == StopAt(tree, Bits(v, off), b).Top()
      ensures p in nodes && x in nodes
    {
      hide ImageOf, Distinct, Patricia, SubImage, Holds, BitOf;
      ghost var k := Bits(v, off);
      p := top;
      Start();
      Down(tree, top, k);
      x := if Bit(v, p.b) then p.r else p.l;
      ghost var cur := Child(tree, k);
      while 0 <= x.b < b
        invariant Valid() && Inside(cur, p) && x == cur.Top() && p in nodes && x in nodes
        invariant x.b >= 0 <==> cur.Inner?
        invariant cur.Inner? ==> x.b == cur.b
        invariant StopAt(tree, k, b) == StopAt(cur, k, b)
        invariant StopParent(tree, top, k, b) == StopParent(cur, p, k, b)
        decreases cur
      {
        Down(cur, p, k);
        p := x;
        x := if Bit(v, p.b) then p.r else p.l;
        cur := Child(cur, k);
      }
    }

    /** Set the index, mask and normal flag of a leaf: no link changes. */
    method SetMask(leaf: Node, b: int, mask: Option<seq<Byte>>, normal: bool)
      requires Valid() && b < 0 && leaf.b < 0 && leaf in nodes
      modifies leaf`b, leaf`mask, leaf`normal
      ensures Valid() && leaf.b == b && leaf.mask == mask && leaf.normal == normal
    {
      hide ImageOf, Distinct, Patricia, ZeroBefore, Tree.Nodes, Tree.Keys, Bits;
      ghost var img := Img();
      assert Holds(leaf, img[leaf], off);
      leaf.b, leaf.mask, leaf.normal := b, mask, normal;
      assert Shape();
      forall y | y in img ensures Holds(y, img[y], off) {
        if y != leaf { assert y in nodes; }
      }
    }

    // ---------- a route whose key is stored already ----------

    /** `c` is the chain found for `k` with `e` inserted at `i`. */
    ghost predicate Joins(k: Key, i: nat, e: Entry, c: seq<Entry>)
      reads this
    {
      && Shape() && |k| == 8 * len && FoundKey(tree, k) == k && e.key == k && !e.root
      && Inserted(Found(tree, k).chain, i, e, c) && ChainOK(c, 8 * len)
    }

    lemma {:induction false} JoinedShape(k: Key, i: nat, e: Entry, c: seq<Entry>)
      requires Valid() && Joins(k, i, e, c) && e.n !in nodes
      ensures var t := PutChain(tree, k, c);
              && Patricia(t, 8 * len) && Distinct(t) && t.Inner? && t.n == top && t.b == off
              && (forall x :: x in t.Keys() ==> ZeroBefore(x, off)) && t.Nodes() == nodes + {e.n}
    {
      hide ImageOf, Holds;
      PutChainPatricia(tree, k, i, e, c);
      PutChainSets(tree, k, i, e, c);
      PutChainDistinct(tree, k, i, e, c);
    }

    lemma {:induction false} JoinedAfter(k: Key, i: nat, e: Entry, c: seq<Entry>)
      requires Valid() && Joins(k, i, e, c) && e.n !in nodes && 0 < i
      requires Patricia(PutChain(tree, k, c), 8 * len)
      ensures var prev := Found(tree, k).chain[i - 1].n;
              && prev in Img() && Img()[prev].LeafCell?
              && ImageOf(PutChain(tree, k, c), 8 * len, top) == LinkedAfter(Img(), prev, e)
    {
      hide Holds;
      PutAfterImage(tree, k, i, e, c, top);
    }

    /** Link the new leaf into a chain after `t`. */
    method LinkAfter(v: seq<Byte>, t: Node, leaf: Node, ghost i: nat, ghost e: Entry, ghost c: seq<Entry>)
      requires Valid() && Joins(Bits(v, off), i, e, c) && 0 < i && t == Found(tree, Bits(v, off)).chain[i - 1].n
      requires leaf !in nodes && e.n == leaf && !leaf.root
      modifies this`tree, this`nodes, t`dupedkey, leaf`dupedkey, leaf`key, leaf`b
      ensures Valid() && tree == PutChain(old(tree), Bits(v, off), c) && nodes == old(nodes) + {leaf}
      ensures leaf.key == v && leaf.b == -1
    {
      hide ImageOf, Distinct, Patricia, ZeroBefore, Tree.Nodes, Tree.Keys, Bits, BitOf, PutChain, Found, ChainOK, Inserted;
      ghost var k := Bits(v, off);
      JoinedShape(k, i, e, c);
      JoinedAfter(k, i, e, c);
      ghost var img := Img();
      assert Holds(t, img[t], off);
      leaf.dupedkey := t.dupedkey;
      t.dupedkey := leaf;
      leaf.key, leaf.b := v, -1;
      tree, nodes := PutChain(tree, k, c), nodes + {leaf};
      assert Shape();
      forall y | y in Img() ensures Holds(y, Img()[y], off) {
        if y !in {t, leaf} { assert y in img; assert Holds(y, img[y], off); }
      }
    }

    lemma {:induction false} JoinedFirst(k: Key, e: Entry, c: seq<Entry>)
      requires Valid() && Joins(k, 0, e, c) && e.n !in nodes
      requires Patricia(PutChain(tree, k, c), 8 * len)
      ensures var (q, h) := (LeafParent(tree, top, k), Found(tree, k).chain[0].n);
              && q in Img() && Img()[q].InnerCell? && off <= Img()[q].b < 8 * len && h in Img() && Img()[h].LeafCell? && h != q
              && ImageOf(PutChain(tree, k, c), 8 * len, top) == LinkedFirst(Img(), k, q, h, e)
              && Img()[h].p == q && (Img()[q].l == h <==> !k[Img()[q].b])
    {
      hide Holds, SubImage, ImageOf, Distinct;
      PutFirstImage(tree, k, e, c, top);
      Start();
      ParentOfFound(tree, top, k);
    }

    lemma {:induction false} ParentOfFound(cur: Tree, par: Node, k: Key)
      requires Valid() && Inside(cur, par) && |k| == 8 * len && cur.Inner?
      ensures var (q, h) := (LeafParent(cur, par, k), Found(cur, k).chain[0].n);
              && q in Img() && Img()[q].InnerCell? && off <= Img()[q].b < 8 * len && h in Img()
              && Img()[h].p == q && (Img()[q].l == h <==> !k[Img()[q].b])
      decreases cur
    {
      hide Holds;
      var c := Child(cur, k);
      Step(cur, par);
      TopHere(cur, 8 * len, par);
      TopHere(c, 8 * len, cur.n);
      if c.Inner? {
        ParentOfFound(c, cur.n, k);
      } else {
        NodesOfChild(cur, k);
        TopsDiffer(cur, k);
      }
    }

    /** Link the new leaf in front of the head `t` of a chain. */
    method LinkFirst(v: seq<Byte>, t: Node, leaf: Node, ghost e: Entry, ghost c: seq<Entry>)
      requires Valid() && Joins(Bits(v, off), 0, e, c) && t == Found(tree, Bits(v, off)).chain[0].n
      requires leaf !in nodes && e.n == leaf && !leaf.root
      modifies this`tree, this`nodes, nodes`l, nodes`r, leaf`dupedkey, leaf`key, leaf`b, leaf`p
      ensures Valid() && tree == PutChain(old(tree), Bits(v, off), c) && nodes == old(nodes) + {leaf}
      ensures leaf.key == v && leaf.b == -1
    {
      hide ImageOf, Distinct, Patricia, ZeroBefore, Tree.Nodes, Tree.Keys, Bits, BitOf, PutChain, Found, ChainOK, Inserted;
      hide LeafParent, Redirect, LinkedFirst;
      ghost var k := Bits(v, off);
      JoinedShape(k, 0, e, c);
      JoinedFirst(k, e, c);
      ghost var img := Img();
      ghost var q := LeafParent(tree, top, k);
      FirstCells(img, k, q, t, e);
      assert Holds(t, img[t], off) && Holds(q, img[q], off);
      RelinkHead(v, t, leaf, off, q, img[q], img[t], e);
      tree, nodes := PutChain(tree, k, c), nodes + {leaf};
      assert Shape();
      forall y | y in Img() ensures Holds(y, Img()[y], off) {
        if y !in {t, leaf, q} { assert y in img; assert Holds(y, img[y], off); }
      }
    }

    /** squid_rn_search_m: a search in which bits past the mask count as zero. */
    method SearchM(v: seq<Byte>, t: Node, m: seq<Byte>, ghost at: Tree, ghost above: Node, ghost plen: nat)
      returns (x: Node, ghost par: Node)
      requires Valid() && |v| == len <= |m| && Inside(at, above) && t == at.Top() && t in nodes
      requires forall i :: off <= i < 8 * len ==> Bit(m, i) == (i < plen)
      ensures x == FoundMasked(at, Bits(v, off), plen).chain[0].n
      ensures Inside(FoundMasked(at, Bits(v, off), plen), par)
    {
      hide ImageOf, Distinct, Patricia, SubImage, Holds, BitOf, Bit;
      ghost var k := Bits(v, off);
      ghost var cur := at;
      x, par := t, above;
      Step(cur, par);
      while x.b >= 0
        invariant Valid() && Inside(cur, par) && x == cur.Top() && x in nodes
        invariant (x.b >= 0 <==> cur.Inner?) && (cur.Inner? ==> x.b == cur.b)
        invariant FoundMasked(cur, k, plen) == FoundMasked(at, k, plen)
        decreases cur
      {
        Sides(cur, par);
        assert k[x.b] == Bit(v, x.b);
        par := cur.n;
        if Bit(m, x.b) && Bit(v, x.b) { x, cur := x.r, cur.right; } else { x, cur := x.l, cur.left; }
      }
    }

    lemma Sides(cur: Tree, par: Node)
      requires Valid() && Inside(cur, par) && cur.Inner?
      ensures cur.n.b == cur.b && off <= cur.b < 8 * len && cur.n.l != null && cur.n.r != null
      ensures Inside(cur.left, cur.n) && cur.n.l == cur.left.Top() && cur.n.l in nodes
      ensures Inside(cur.right, cur.n) && cur.n.r == cur.right.Top() && cur.n.r in nodes
      ensures (cur.n.l.b >= 0 <==> cur.left.Inner?) && (cur.left.Inner? ==> cur.n.l.b == cur.left.b)
      ensures (cur.n.r.b >= 0 <==> cur.right.Inner?) && (cur.right.Inner? ==> cur.n.r.b == cur.right.b)
      ensures cur.left < cur && cur.right < cur
    {
      hide ImageOf, Distinct;
      Step(cur, par);
      Step(cur.left, cur.n);
      Step(cur.right, cur.n);
    }

    /** The links of a chain. */
    lemma ChainLinks(cur: Tree, par: Node, i: nat)
      requires Valid() && Inside(cur, par) && cur.Leaf? && i < |cur.chain|
      ensures var (x, e) := (cur.chain[i].n, cur.chain[i]);
              && x in nodes && x.root == e.root && Bits(x.key, off) == e.key && |x.key| == len
              && x.dupedkey == (if i + 1 < |cur.chain| then cur.chain[i + 1].n else null)
    {
      ChainImageAt(cur.chain, par, i);
    }

    /** The leaf node of any stored entry. */
    lemma {:induction false} EntryLinks(e: Entry)
      requires Valid() && e in tree.Entries()
      ensures e.n in nodes && Bits(e.n.key, off) == e.key && |e.n.key| == len && e.n.root == e.root
      ensures e.Fits(8 * len)
    {
      hide ImageOf, Distinct, SubImage, Holds, BitOf;
      KeysOfEntries(tree, 8 * len, e);
      SearchReachesStored(tree, e.key);
      FoundChainComplete(tree, e.key, e);
      var j := Depth(e.key) - 1;
      PathLinks(e.key, j);
      var i :| 0 <= i < |At(e.key, j).chain| && At(e.key, j).chain[i] == e;
      ChainLinks(At(e.key, j), Above(e.key, j), i);
    }

    /** The subtree at step `j` of the path for `k`. */
    ghost function At(k: Key, j: nat): Tree
      reads this
    {
      if Shape() && |k| == 8 * len && j < |Path(tree, k)| then Path(tree, k)[j] else tree
    }

    ghost function Depth(k: Key): nat
      reads this
    {
      if Shape() && |k| == 8 * len then |Path(tree, k)| else 0
    }

    /** The node above step `j` of the path. */
    ghost function Above(k: Key, j: nat): Node
      reads this
    {
      if 0 < j && At(k, j - 1).Inner? then At(k, j - 1).n else top
    }

    /** The nodes on a path are linked upwards. */
    lemma {:induction false} PathLinks(k: Key, j: nat)
      requires Valid() && |k| == 8 * len && j < Depth(k)
      ensures Inside(At(k, j), Above(k, j)) && Patricia(At(k, j), |k|)
      ensures At(k, j).Top() in nodes && At(k, j).Top().p == Above(k, j) && (At(k, j).Top() == top <==> j == 0)
      ensures At(k, j).Inner? ==> At(k, j).n.b == At(k, j).b
      ensures At(k, j).Leaf? <==> j + 1 == Depth(k)
      ensures Found(At(k, j), k) == Found(tree, k) && At(k, j).Entries() <= tree.Entries()
      ensures j + 1 < Depth(k) ==> At(k, j + 1) == Child(At(k, j), k)
      ensures 0 < j ==> At(k, j - 1).Inner? && Above(k, j) == At(k, j - 1).n
    {
      hide ImageOf, Distinct, Patricia, SubImage, Holds;
      PathStep(tree, k, j);
      if j == 0 {
        Start();
      } else {
        PathStep(tree, k, j - 1);
        PathLinks(k, j - 1);
        Down(At(k, j - 1), Above(k, j - 1), k);
        NotTop(k, j);
      }
      Step(At(k, j), Above(k, j));
    }

    /** The found leaf hangs below the last internal node of the path. */
    lemma {:induction false} LeafLinks(k: Key)
      requires Valid() && |k| == 8 * len
      ensures 2 <= Depth(k) && At(k, Depth(k) - 2).Inner? && Found(tree, k).chain != []
      ensures Found(tree, k).chain[0].n.p == At(k, Depth(k) - 2).n
    {
      hide ImageOf, Distinct, SubImage, Holds, Patricia;
      var j := Depth(k) - 1;
      PathLinks(k, 0);
      PathLinks(k, j);
      PathLinks(k, j - 1);
    }

    lemma {:induction false} NotTop(k: Key, j: nat)
      requires Shape() && |k| == 8 * len && 0 < j < |Path(tree, k)|
      requires Path(tree, k)[j].Leaf? ==> Path(tree, k)[j].chain != []
      ensures Path(tree, k)[j].Top() != top
    {
      PathBelow(Child(tree, k), k, j - 1);
      NodesOfChild(tree, k);
    }
  }

  lemma {:induction false} PathBelow(t: Tree, k: Key, j: nat)
    requires Patricia(t, |k|) && j < |Path(t, k)|
    requires Path(t, k)[j].Leaf? ==> Path(t, k)[j].chain != []
    ensures Path(t, k)[j].Top() in t.Nodes()
  {
    if j > 0 {
      PathBelow(Child(t, k), k, j - 1);
      NodesOfChild(t, k);
    } else if t.Leaf? {
      assert t.chain[0].n in t.LeafNodes();
    }
  }

  lemma {:induction false} TopsDiffer(t: Tree, k: Key)
    requires t.Inner? && Distinct(t) && Patricia(t, |k|)
    requires (t.left.Leaf? ==> t.left.chain != []) && (t.right.Leaf? ==> t.right.chain != [])
    ensures t.left.Top() != t.right.Top()
  {
    assert t.left.Top() in t.left.Nodes() by { if t.left.Leaf? { assert t.left.chain[0].n in t.left.LeafNodes(); } }
    assert t.right.Top() in t.right.Nodes() by { if t.right.Leaf? { assert t.right.chain[0].n in t.right.LeafNodes(); } }
  }
}
