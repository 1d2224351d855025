/**
 The memory image of a radix tree: what every node's links must hold for the linked nodes to
 represent a given `Tree`, and how the image changes when the tree grows.
 */
module RadixImage {
  import opened RadixTrie
  import opened RadixGrowth

  datatype Cell =
    | InnerCell(b: nat, p: Node?, l: Node, r: Node)
    | LeafCell(e: Entry, p: Node?, next: Node?)

  type Image = map<Node, Cell>

  ghost predicate SubImage(a: Image, b: Image) {
    forall x :: x in a ==> x in b && b[x] == a[x]
  }

  /** Only the head of a chain has a meaningful parent link. */
  ghost function ChainImage(c: seq<Entry>, p: Node?): Image {
    if c == [] then map[]
    else ChainImage(c[1..], null)[c[0].n := LeafCell(c[0], p, if |c| > 1 then c[1].n else null)]
  }

  ghost function ImageOf(t: Tree, w: nat, parent: Node): Image
    requires Patricia(t, w)
  {
    match t
    case Leaf(c) => ChainImage(c, parent)
    case Inner(n, b, l, r) =>
      (ImageOf(l, w, n) + ImageOf(r, w, n))[n := InnerCell(b, parent, l.Top(), r.Top())]
  }

  lemma {:induction false} ChainImageKeys(c: seq<Entry>, p: Node?)
    ensures ChainImage(c, p).Keys == set e | e in c :: e.n
  {
    if c != [] {
      ChainImageKeys(c[1..], null);
      assert c == [c[0]] + c[1..];
      assert forall e :: e in c <==> e == c[0] || e in c[1..];
    }
  }

  lemma {:induction false} ChainImageAt(c: seq<Entry>, p: Node?, i: nat)
    requires i < |c| && Distinct(Leaf(c))
    ensures c[i].n in ChainImage(c, p)
    ensures ChainImage(c, p)[c[i].n] ==
            LeafCell(c[i], if i == 0 then p else null, if i + 1 < |c| then c[i + 1].n else null)
  {
    if i > 0 { ChainImageAt(c[1..], null, i - 1); }
  }

  lemma {:induction false} ImageKeys(t: Tree, w: nat, parent: Node)
    requires Patricia(t, w)
    ensures ImageOf(t, w, parent).Keys == t.Nodes()
  {
    match t
    case Leaf(c) => ChainImageKeys(c, parent);
    case Inner(n, b, l, r) => ImageKeys(l, w, n); ImageKeys(r, w, n);
  }

  lemma {:induction false} ImageChildren(t: Tree, w: nat, parent: Node)
    requires t.Inner? && Patricia(t, w) && Distinct(t)
    ensures SubImage(ImageOf(t.left, w, t.n), ImageOf(t, w, parent))
    ensures SubImage(ImageOf(t.right, w, t.n), ImageOf(t, w, parent))
    ensures t.n in ImageOf(t, w, parent)
    ensures ImageOf(t, w, parent)[t.n] == InnerCell(t.b, parent, t.left.Top(), t.right.Top())
  {
    ImageKeys(t.left, w, t.n);
    ImageKeys(t.right, w, t.n);
  }

  /** Hanging a subtree under another parent changes the parent link of its top node only. */
  lemma {:induction false} Reparent(t: Tree, w: nat, p: Node, q: Node)
    requires Patricia(t, w) && Distinct(t)
    ensures t.Top() in ImageOf(t, w, p)
    ensures ImageOf(t, w, q) == ImageOf(t, w, p)[t.Top() := ImageOf(t, w, p)[t.Top()].(p := q)]
  {
  }

  /** The node above the split edge. */
  ghost function StopParent(t: Tree, parent: Node, v: Key, b: nat): Node
    requires b < |v| && Patricia(t, |v|)
  {
    if t.Inner? && t.b < b then StopParent(Child(t, v), t.n, v, b) else parent
  }

  /** The cell of the new node. */
  ghost function NewCell(v: Key, b: nat, p: Node, x: Node, leaf: Node): Cell
    requires b < |v|
  {
    if v[b] then InnerCell(b, p, x, leaf) else InnerCell(b, p, leaf, x)
  }

  /** The cell of the node above, with the link on the side of `v` redirected. */
  ghost function Redirect(c: Cell, v: Key, to: Node): Cell
    requires c.InnerCell? && c.b < |v|
  {
    if v[c.b] then c.(r := to) else c.(l := to)
  }

  /** Splitting the edge at the top of `t` itself. */
  lemma {:induction false} SplitImage(t: Tree, v: Key, b: nat, n: Node, e: Entry, parent: Node)
    requires b < |v| && Patricia(t, |v|) && Distinct(t) && (t.Leaf? || b <= t.b)
    requires Patricia(Graft(t, v, b, n, e), |v|) && e.key == v
    requires n != e.n && n !in t.Nodes() && e.n !in t.Nodes()
    ensures ImageOf(Graft(t, v, b, n, e), |v|, parent) ==
            ImageOf(t, |v|, n)[n := NewCell(v, b, parent, t.Top(), e.n)][e.n := LeafCell(e, n, null)]
  {
    hide Patricia, Distinct, Graft, ImageOf;
    GraftHere(t, v, b, n, e);
    var g := Graft(t, v, b, n, e);
    Parts(g, |v|);
    ImageInner(g, |v|, parent);
    ImageKeys(t, |v|, n);
    SingleImage(e, n);
    LeafImage(e, |v|, n);
    PairAdded(ImageOf(t, |v|, n), n, NewCell(v, b, parent, t.Top(), e.n), e.n, LeafCell(e, n, null));
  }

  lemma PairAdded(i: Image, n: Node, c: Cell, x: Node, d: Cell)
    requires n != x && n !in i && x !in i
    ensures (i + map[x := d])[n := c] == i[n := c][x := d]
    ensures (map[x := d] + i)[n := c] == i[n := c][x := d]
  {
  }

  lemma LeafImage(e: Entry, w: nat, p: Node)
    requires Patricia(Leaf([e]), w)
    ensures ImageOf(Leaf([e]), w, p) == ChainImage([e], p)
  {
  }

  lemma SingleImage(e: Entry, p: Node)
    ensures ChainImage([e], p) == map[e.n := LeafCell(e, p, null)]
  {
    assert [e][1..] == [];
  }

  ghost function TopCell(t: Tree, w: nat, parent: Node): (c: Cell)
    requires t.Inner? && Patricia(t, w)
    ensures c.InnerCell? && c.b == t.b
  {
    assert Patricia(t.left, w) && Patricia(t.right, w);
    InnerCell(t.b, parent, t.left.Top(), t.right.Top())
  }

  /** Replacing one subtree replaces its part of the image and the link to it. */
  lemma {:induction false} ImageWithChild(t: Tree, v: Key, c: Tree, parent: Node)
    requires t.Inner? && Patricia(t, |v|) && Patricia(c, |v|) && Patricia(WithChild(t, v, c), |v|)
    requires Distinct(t) && Distinct(WithChild(t, v, c))
    ensures ImageOf(WithChild(t, v, c), |v|, parent) ==
            (ImageOf(Sibling(t, v), |v|, t.n) + ImageOf(c, |v|, t.n))
            [t.n := Redirect(TopCell(t, |v|, parent), v, c.Top())]
  {
    hide Patricia, Distinct, ImageOf;
    Parts(t, |v|);
    var t' := WithChild(t, v, c);
    Parts(t', |v|);
    Apart(t');
    ImageInner(t', |v|, parent);
    ImageKeys(Sibling(t, v), |v|, t.n);
    ImageKeys(c, |v|, t.n);
    if !v[t.b] { Commute(ImageOf(Sibling(t, v), |v|, t.n), ImageOf(c, |v|, t.n)); }
  }

  lemma Parts(t: Tree, w: nat)
    requires t.Inner? && Patricia(t, w)
    ensures t.b < w && Patricia(t.left, w) && Patricia(t.right, w)
    ensures (t.left.Leaf? ==> t.left.chain != []) && (t.right.Leaf? ==> t.right.chain != [])
  {
  }

  lemma Apart(t: Tree)
    requires t.Inner? && Distinct(t)
    ensures t.left.Nodes() !! t.right.Nodes()
  {
  }

  lemma ImageInner(t: Tree, w: nat, parent: Node)
    requires t.Inner? && Patricia(t, w) && Patricia(t.left, w) && Patricia(t.right, w)
    requires (t.left.Leaf? ==> t.left.chain != []) && (t.right.Leaf? ==> t.right.chain != [])
    ensures ImageOf(t, w, parent) ==
            (ImageOf(t.left, w, t.n) + ImageOf(t.right, w, t.n))[t.n := InnerCell(t.b, parent, t.left.Top(), t.right.Top())]
  {
  }

  lemma Commute(a: Image, b: Image)
    requires a.Keys !! b.Keys
    ensures a + b == b + a
  {
  }

  lemma {:induction false} StopNodes(t: Tree, parent: Node, v: Key, b: nat)
    requires t.Inner? && t.b < b < |v| && Patricia(t, |v|) && Distinct(t)
    ensures StopAt(t, v, b).Top() in Child(t, v).Nodes()
    ensures StopParent(t, parent, v, b) == t.n || StopParent(t, parent, v, b) in Child(t, v).Nodes()
    ensures StopParent(t, parent, v, b) != StopAt(t, v, b).Top()
  {
    var c := Child(t, v);
    if c.Inner? && c.b < b {
      StopNodes(c, t.n, v, b);
      NodesOfChild(c, v);
    } else {
      if c.Leaf? { assert c.chain[0].n in c.LeafNodes(); }
    }
  }

  /** How one insertion rewrites memory: the link above, the parent link below, and the new pair. */
  ghost function Spliced(i: Image, v: Key, b: nat, p: Node, x: Node, n: Node, e: Entry): Image
    requires b < |v| && p in i && i[p].InnerCell? && i[p].b < |v| && x in i
  {
    i[p := Redirect(i[p], v, n)][x := i[x].(p := n)][n := NewCell(v, b, p, x, e.n)][e.n := LeafCell(e, n, null)]
  }

  lemma {:induction false} GraftImage(t: Tree, v: Key, b: nat, n: Node, e: Entry, parent: Node)
    requires t.Inner? && t.b < b < |v| && Patricia(t, |v|) && Distinct(t)
    requires Differs(t, v, b) && e.key == v && e.Fits(|v|)
    requires n != e.n && n !in t.Nodes() && e.n !in t.Nodes()
    requires Patricia(Graft(t, v, b, n, e), |v|)
    ensures var (i, p, x) := (ImageOf(t, |v|, parent), StopParent(t, parent, v, b), StopAt(t, v, b).Top());
            && p in i && i[p].InnerCell? && t.b <= i[p].b < b && x in i
            && ImageOf(Graft(t, v, b, n, e), |v|, parent) == Spliced(i, v, b, p, x, n, e)
  {
    var c := Child(t, v);
    NodesOfChild(t, v);
    StopNodes(t, parent, v, b);
    GraftPatricia(c, v, b, n, e);
    if c.Inner? && c.b < b {
      GraftImage(c, v, b, n, e, t.n);
      GraftImageAbove(t, v, b, n, e, parent);
    } else {
      GraftImageHere(t, v, b, n, e, parent);
    }
  }

  lemma {:induction false} GraftImageAbove(t: Tree, v: Key, b: nat, n: Node, e: Entry, parent: Node)
    requires t.Inner? && t.b < b < |v| && Patricia(t, |v|) && Distinct(t)
    requires e.key == v && n != e.n && n !in t.Nodes() && e.n !in t.Nodes()
    requires Patricia(Graft(t, v, b, n, e), |v|)
    requires Child(t, v).Inner? && Child(t, v).b < b && Patricia(Graft(Child(t, v), v, b, n, e), |v|)
    requires var (i, p, x) := (ImageOf(Child(t, v), |v|, t.n), StopParent(t, parent, v, b), StopAt(t, v, b).Top());
            && p in i && i[p].InnerCell? && Child(t, v).b <= i[p].b < b && x in i
            && ImageOf(Graft(Child(t, v), v, b, n, e), |v|, t.n) == Spliced(i, v, b, p, x, n, e)
    ensures var (i, p, x) := (ImageOf(t, |v|, parent), StopParent(t, parent, v, b), StopAt(t, v, b).Top());
            && p in i && i[p].InnerCell? && t.b <= i[p].b < b && x in i
            && ImageOf(Graft(t, v, b, n, e), |v|, parent) == Spliced(i, v, b, p, x, n, e)
  {
    var c := Child(t, v);
    var g := Graft(c, v, b, n, e);
    GraftDistinct(t, v, b, n, e);
    ImageWithChild(t, v, c, parent);
    assert t == WithChild(t, v, c);
    ImageWithChild(t, v, g, parent);
    ImageKeys(c, |v|, t.n);
    ImageKeys(Sibling(t, v), |v|, t.n);
    NodesOfChild(t, v);
    assert g.Top() == c.Top();
    SplicedAbove(ImageOf(Sibling(t, v), |v|, t.n), ImageOf(c, |v|, t.n), t.n, TopCell(t, |v|, parent), v, b,
                 StopParent(t, parent, v, b), StopAt(t, v, b).Top(), n, e);
  }

  lemma SplicedAbove(s: Image, i: Image, top: Node, cell: Cell,
                     v: Key, b: nat, p: Node, x: Node, n: Node, e: Entry)
    requires b < |v| && p in i && i[p].InnerCell? && i[p].b < |v| && x in i
    requires s.Keys !! i.Keys && top !in s && top !in i
    requires n !in s && n !in i && n != top && e.n !in s && e.n !in i && e.n != top
    ensures (s + Spliced(i, v, b, p, x, n, e))[top := cell] == Spliced((s + i)[top := cell], v, b, p, x, n, e)
  {
  }

  lemma SplicedHere(s: Image, i: Image, top: Node, cell: Cell,
                    v: Key, b: nat, x: Node, n: Node, e: Entry)
    requires b < |v| && cell.InnerCell? && cell.b < |v| && x in i
    requires s.Keys !! i.Keys && top !in s && top !in i
    requires n !in s && n !in i && n != top && e.n !in s && e.n !in i && e.n != top
    ensures (s + i[x := i[x].(p := n)][n := NewCell(v, b, top, x, e.n)][e.n := LeafCell(e, n, null)])
            [top := Redirect(cell, v, n)] ==
            Spliced((s + i)[top := cell], v, b, top, x, n, e)
  {
  }

  lemma {:induction false} GraftImageHere(t: Tree, v: Key, b: nat, n: Node, e: Entry, parent: Node)
    requires t.Inner? && t.b < b < |v| && Patricia(t, |v|) && Distinct(t)
    requires e.key == v && n != e.n && n !in t.Nodes() && e.n !in t.Nodes()
    requires Patricia(Graft(t, v, b, n, e), |v|)
    requires (Child(t, v).Leaf? || b <= Child(t, v).b) && Patricia(Graft(Child(t, v), v, b, n, e), |v|)
    ensures var (i, p, x) := (ImageOf(t, |v|, parent), t.n, Child(t, v).Top());
            && p in i && i[p].InnerCell? && t.b <= i[p].b < b && x in i
            && ImageOf(Graft(t, v, b, n, e), |v|, parent) == Spliced(i, v, b, p, x, n, e)
  {
    hide Patricia, Distinct, ImageOf, Graft, Spliced;
    SidesOK(t, v);
    Sides(t, v);
    GraftDescends(t, v, b, n, e);
    var c := Child(t, v);
    DistinctChild(t, v);
    GraftHere(c, v, b, n, e);
    NodesOfChild(t, v);
    GraftDistinct(t, v, b, n, e);
    ImageWithChild(t, v, c, parent);
    assert t == WithChild(t, v, c);
    ImageWithChild(t, v, Graft(c, v, b, n, e), parent);
    SplitImage(c, v, b, n, e, t.n);
    Reparent(c, |v|, t.n, n);
    ImageKeys(c, |v|, t.n);
    ImageKeys(Sibling(t, v), |v|, t.n);
    SplicedHere(ImageOf(Sibling(t, v), |v|, t.n), ImageOf(c, |v|, t.n), t.n, TopCell(t, |v|, parent), v, b,
                c.Top(), n, e);
  }

  // ---------- a new member of a chain ----------

  /** Linking `e` into a chain after `prev`. */
  ghost function LinkedAfter(i: Image, prev: Node, e: Entry): Image
    requires prev in i && i[prev].LeafCell?
  {
    i[prev := i[prev].(next := e.n)][e.n := LeafCell(e, null, i[prev].next)]
  }

  /** Linking `e` in front of the head `h` of a chain below `q`. */
  ghost function LinkedFirst(i: Image, v: Key, q: Node, h: Node, e: Entry): Image
    requires q in i && i[q].InnerCell? && i[q].b < |v| && h in i && i[h].LeafCell?
  {
    i[q := Redirect(i[q], v, e.n)][h := LeafCell(i[h].e, null, i[h].next)][e.n := LeafCell(e, q, h)]
  }

  lemma {:induction false} ChainAfterImage(c: seq<Entry>, p: Node?, i: nat, e: Entry, c': seq<Entry>)
    requires 0 < i && Inserted(c, i, e, c') && Distinct(Leaf(c)) && (forall x :: x in c ==> x.n != e.n)
    ensures c[i - 1].n in ChainImage(c, p) && ChainImage(c, p)[c[i - 1].n].LeafCell?
    ensures ChainImage(c', p) == LinkedAfter(ChainImage(c, p), c[i - 1].n, e)
  {
    if i == 1 {
      ChainAfterHead(c, p, e, c');
    } else {
      assert c'[1..] == c[1..][..i - 1] + [e] + c[1..][i - 1..];
      ChainAfterImage(c[1..], null, i - 1, e, c'[1..]);
      ChainFresh(c[1..], c[0].n);
      assert c'[0] == c[0] && c'[1] == c[1];
      AfterCons(ChainImage(c[1..], null), c[0].n, LeafCell(c[0], p, c[1].n), c[i - 1].n, e);
    }
  }

  lemma {:induction false} ChainAfterHead(c: seq<Entry>, p: Node?, e: Entry, c': seq<Entry>)
    requires Inserted(c, 1, e, c') && Distinct(Leaf(c)) && (forall x :: x in c ==> x.n != e.n)
    ensures c[0].n in ChainImage(c, p) && ChainImage(c, p)[c[0].n].LeafCell?
    ensures ChainImage(c', p) == LinkedAfter(ChainImage(c, p), c[0].n, e)
  {
    assert c'[0] == c[0] && c'[1..] == [e] + c[1..];
    assert c'[1..][1..] == c[1..];
    ChainFresh(c[1..], c[0].n);
    ChainFresh(c[1..], e.n);
  }

  lemma {:induction false} ChainFresh(c: seq<Entry>, n: Node)
    requires forall x :: x in c ==> x.n != n
    ensures n !in ChainImage(c, null)
  {
    ChainImageKeys(c, null);
  }

  lemma AfterCons(i: Image, h: Node, cell: Cell, prev: Node, e: Entry)
    requires prev in i && i[prev].LeafCell? && h !in i && h != e.n && h != prev
    ensures LinkedAfter(i, prev, e)[h := cell] == LinkedAfter(i[h := cell], prev, e)
  {
  }

  lemma ChainHeadImage(c: seq<Entry>, p: Node?, q: Node?)
    ensures c == [] ==> ChainImage(c, p) == map[]
    ensures c != [] ==> c[0].n in ChainImage(c, q)
    ensures c != [] ==> ChainImage(c, p) == ChainImage(c, q)[c[0].n := ChainImage(c, q)[c[0].n].(p := p)]
  {
  }

  /** The node above the leaf found for `v`. */
  ghost function LeafParent(t: Tree, parent: Node, v: Key): Node
    requires Patricia(t, |v|)
  {
    if t.Leaf? then parent else LeafParent(Child(t, v), t.n, v)
  }

  lemma {:induction false} PutAfterImage(t: Tree, v: Key, i: nat, e: Entry, c: seq<Entry>, parent: Node)
    requires Patricia(t, |v|) && FoundKey(t, v) == v && e.key == v
    requires 0 < i && Inserted(Found(t, v).chain, i, e, c) && ChainOK(c, |v|)
    requires Distinct(t) && e.n !in t.Nodes() && Patricia(PutChain(t, v, c), |v|)
    ensures PutChain(t, v, c).Top() == t.Top()
    ensures var (m, prev) := (ImageOf(t, |v|, parent), Found(t, v).chain[i - 1].n);
            && prev in m && m[prev].LeafCell?
            && ImageOf(PutChain(t, v, c), |v|, parent) == LinkedAfter(m, prev, e)
  {
    if t.Leaf? {
      forall x | x in t.chain ensures x.n != e.n { assert x.n in t.LeafNodes(); }
      ChainAfterImage(t.chain, parent, i, e, c);
    } else {
      var d := Child(t, v);
      NodesOfChild(t, v);
      PutChainPatricia(d, v, i, e, c);
      PutAfterImage(d, v, i, e, c, t.n);
      PutAfterAbove(t, v, i, e, c, parent);
    }
  }

  /** The images of `t` and of the tree with the new chain, one level down. */
  lemma {:induction false} PutParts(t: Tree, v: Key, i: nat, e: Entry, c: seq<Entry>, parent: Node)
    requires t.Inner? && Patricia(t, |v|) && FoundKey(t, v) == v && e.key == v
    requires Inserted(Found(t, v).chain, i, e, c) && ChainOK(c, |v|)
    requires Distinct(t) && e.n !in t.Nodes()
    requires Patricia(PutChain(t, v, c), |v|) && Patricia(PutChain(Child(t, v), v, c), |v|)
    ensures var (s, d, top) := (ImageOf(Sibling(t, v), |v|, t.n), Child(t, v), TopCell(t, |v|, parent));
            && ImageOf(t, |v|, parent) == (s + ImageOf(d, |v|, t.n))[t.n := top]
            && ImageOf(PutChain(t, v, c), |v|, parent) ==
                 (s + ImageOf(PutChain(d, v, c), |v|, t.n))[t.n := Redirect(top, v, PutChain(d, v, c).Top())]
            && s.Keys == Sibling(t, v).Nodes() && ImageOf(d, |v|, t.n).Keys == d.Nodes()
  {
    var d := Child(t, v);
    PutChainDistinct(t, v, i, e, c);
    ImageWithChild(t, v, d, parent);
    assert t == WithChild(t, v, d);
    ImageWithChild(t, v, PutChain(d, v, c), parent);
    ImageKeys(d, |v|, t.n);
    ImageKeys(Sibling(t, v), |v|, t.n);
  }

  lemma {:induction false} PutAfterAbove(t: Tree, v: Key, i: nat, e: Entry, c: seq<Entry>, parent: Node)
    requires t.Inner? && Patricia(t, |v|) && FoundKey(t, v) == v && e.key == v
    requires 0 < i && Inserted(Found(t, v).chain, i, e, c) && ChainOK(c, |v|)
    requires Distinct(t) && e.n !in t.Nodes()
    requires Patricia(PutChain(t, v, c), |v|) && Patricia(PutChain(Child(t, v), v, c), |v|)
    requires PutChain(Child(t, v), v, c).Top() == Child(t, v).Top()
    requires var (m, prev) := (ImageOf(Child(t, v), |v|, t.n), Found(t, v).chain[i - 1].n);
            && prev in m && m[prev].LeafCell?
            && ImageOf(PutChain(Child(t, v), v, c), |v|, t.n) == LinkedAfter(m, prev, e)
    ensures var (m, prev) := (ImageOf(t, |v|, parent), Found(t, v).chain[i - 1].n);
            && prev in m && m[prev].LeafCell?
            && ImageOf(PutChain(t, v, c), |v|, parent) == LinkedAfter(m, prev, e)
  {
    var d := Child(t, v);
    NodesOfChild(t, v);
    PutParts(t, v, i, e, c, parent);
    AfterAbove(ImageOf(Sibling(t, v), |v|, t.n), ImageOf(d, |v|, t.n), t.n, TopCell(t, |v|, parent),
               Found(t, v).chain[i - 1].n, e);
  }

  lemma AfterAbove(s: Image, i: Image, top: Node, cell: Cell, prev: Node, e: Entry)
    requires prev in i && i[prev].LeafCell?
    requires s.Keys !! i.Keys && top !in s && top !in i && e.n !in s && e.n !in i && e.n != top
    ensures (s + LinkedAfter(i, prev, e))[top := cell] == LinkedAfter((s + i)[top := cell], prev, e)
  {
  }

  lemma {:induction false} PutFirstImage(t: Tree, v: Key, e: Entry, c: seq<Entry>, parent: Node)
    requires t.Inner? && Patricia(t, |v|) && FoundKey(t, v) == v && e.key == v
    requires Inserted(Found(t, v).chain, 0, e, c) && ChainOK(c, |v|)
    requires Distinct(t) && e.n !in t.Nodes() && Patricia(PutChain(t, v, c), |v|)
    ensures var (m, q, h) := (ImageOf(t, |v|, parent), LeafParent(t, parent, v), Found(t, v).chain[0].n);
            && q in m && m[q].InnerCell? && m[q].b < |v| && h in m && m[h].LeafCell? && h != q
            && ImageOf(PutChain(t, v, c), |v|, parent) == LinkedFirst(m, v, q, h, e)
  {
    var d := Child(t, v);
    NodesOfChild(t, v);
    PutChainPatricia(d, v, 0, e, c);
    if d.Leaf? {
      PutFirstHere(t, v, e, c, parent);
    } else {
      PutFirstImage(d, v, e, c, t.n);
      PutFirstAbove(t, v, e, c, parent);
    }
  }

  lemma {:induction false} PutFirstHere(t: Tree, v: Key, e: Entry, c: seq<Entry>, parent: Node)
    requires t.Inner? && Patricia(t, |v|) && FoundKey(t, v) == v && e.key == v && Child(t, v).Leaf?
    requires Inserted(Found(t, v).chain, 0, e, c) && ChainOK(c, |v|)
    requires Distinct(t) && e.n !in t.Nodes()
    requires Patricia(PutChain(t, v, c), |v|) && Patricia(PutChain(Child(t, v), v, c), |v|)
    ensures var (m, h) := (ImageOf(t, |v|, parent), Child(t, v).chain[0].n);
            && t.n in m && m[t.n].InnerCell? && m[t.n].b < |v| && h in m && m[h].LeafCell? && h != t.n
            && ImageOf(PutChain(t, v, c), |v|, parent) == LinkedFirst(m, v, t.n, h, e)
  {
    var d := Child(t, v);
    NodesOfChild(t, v);
    PutParts(t, v, 0, e, c, parent);
    assert Found(t, v) == Found(d, v) == d;
    assert c == d.chain[..0] + [e] + d.chain[0..];
    assert c[1..] == d.chain;
    ChainHeadImage(d.chain, null, t.n);
    FirstHere(ImageOf(Sibling(t, v), |v|, t.n), ImageOf(d, |v|, t.n), t.n, TopCell(t, |v|, parent), v,
              d.chain[0].n, e);
  }

  lemma {:induction false} PutFirstAbove(t: Tree, v: Key, e: Entry, c: seq<Entry>, parent: Node)
    requires t.Inner? && Patricia(t, |v|) && FoundKey(t, v) == v && e.key == v && Child(t, v).Inner?
    requires Inserted(Found(t, v).chain, 0, e, c) && ChainOK(c, |v|)
    requires Distinct(t) && e.n !in t.Nodes()
    requires Patricia(PutChain(t, v, c), |v|) && Patricia(PutChain(Child(t, v), v, c), |v|)
    requires var (m, q, h) := (ImageOf(Child(t, v), |v|, t.n), LeafParent(t, parent, v), Found(t, v).chain[0].n);
            && q in m && m[q].InnerCell? && m[q].b < |v| && h in m && m[h].LeafCell? && h != q
            && ImageOf(PutChain(Child(t, v), v, c), |v|, t.n) == LinkedFirst(m, v, q, h, e)
    ensures var (m, q, h) := (ImageOf(t, |v|, parent), LeafParent(t, parent, v), Found(t, v).chain[0].n);
            && q in m && m[q].InnerCell? && m[q].b < |v| && h in m && m[h].LeafCell? && h != q
            && ImageOf(PutChain(t, v, c), |v|, parent) == LinkedFirst(m, v, q, h, e)
  {
    hide Patricia, Distinct, ImageOf, Found, LeafParent, LinkedFirst;
    SidesOK(t, v);
    Sides(t, v);
    var d := Child(t, v);
    NodesOfChild(t, v);
    PutParts(t, v, 0, e, c, parent);
    SameTop(d, v, c);
    FirstAbove(ImageOf(Sibling(t, v), |v|, t.n), ImageOf(d, |v|, t.n), t.n, TopCell(t, |v|, parent), v,
               LeafParent(t, parent, v), Found(t, v).chain[0].n, e);
  }

  lemma SameTop(t: Tree, v: Key, c: seq<Entry>)
    requires t.Inner? && Patricia(t, |v|)
    ensures PutChain(t, v, c).Inner? && PutChain(t, v, c).Top() == t.Top()
  {
  }

  lemma FirstHere(s: Image, i: Image, top: Node, cell: Cell, v: Key, h: Node, e: Entry)
    requires cell.InnerCell? && cell.b < |v| && h in i && i[h].LeafCell?
    requires s.Keys !! i.Keys && top !in s && top !in i && e.n !in s && e.n !in i && e.n != top
    ensures (s + i[h := LeafCell(i[h].e, null, i[h].next)][e.n := LeafCell(e, top, h)])[top := Redirect(cell, v, e.n)] ==
            LinkedFirst((s + i)[top := cell], v, top, h, e)
  {
  }

  lemma FirstAbove(s: Image, i: Image, top: Node, cell: Cell, v: Key, q: Node, h: Node, e: Entry)
    requires q in i && i[q].InnerCell? && i[q].b < |v| && h in i && i[h].LeafCell?
    requires s.Keys !! i.Keys && top !in s && top !in i && e.n !in s && e.n !in i && e.n != top
    ensures (s + LinkedFirst(i, v, q, h, e))[top := cell] == LinkedFirst((s + i)[top := cell], v, q, h, e)
  {
  }
}
