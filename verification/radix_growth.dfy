/**
 How a radix tree grows: a new key splits one edge, a route with a known key joins a chain,
 annotations are promoted past the new node, and the new route is lifted as high as it can go.
 */
module RadixGrowth {
  import opened Basics
  import opened RadixTrie

  /** `t` with the subtree on the side of `v` replaced. */
  ghost function WithChild(t: Tree, v: Key, c: Tree): Tree
    requires t.Inner? && t.b < |v|
  {
    if v[t.b] then Inner(t.n, t.b, t.left, c) else Inner(t.n, t.b, c, t.right)
  }

  ghost function Sibling(t: Tree, v: Key): Tree
    requires t.Inner? && t.b < |v|
  {
    if v[t.b] then t.left else t.right
  }

  lemma WithChildSets(t: Tree, v: Key, c: Tree)
    requires t.Inner? && t.b < |v|
    ensures WithChild(t, v, c).Keys() == Sibling(t, v).Keys() + c.Keys()
    ensures WithChild(t, v, c).Entries() == Sibling(t, v).Entries() + c.Entries()
    ensures WithChild(t, v, c).InnerNodes() == {t.n} + Sibling(t, v).InnerNodes() + c.InnerNodes()
    ensures WithChild(t, v, c).LeafNodes() == Sibling(t, v).LeafNodes() + c.LeafNodes()
  {
  }

  lemma SingleLeaf(e: Entry)
    ensures Leaf([e]).Keys() == {e.key} && Leaf([e]).Entries() == {e}
    ensures Leaf([e]).InnerNodes() == {} && Leaf([e]).LeafNodes() == {e.n}
  {
    assert e in [e];
  }

  /** Replacing a subtree keeps the invariant when its keys fit where the old ones were. */
  lemma WithOwnChild(t: Tree, v: Key)
    requires t.Inner? && t.b < |v|
    ensures t.Keys() == Sibling(t, v).Keys() + Child(t, v).Keys()
    ensures t.Entries() == Sibling(t, v).Entries() + Child(t, v).Entries()
    ensures t.InnerNodes() == {t.n} + Sibling(t, v).InnerNodes() + Child(t, v).InnerNodes()
    ensures t.LeafNodes() == Sibling(t, v).LeafNodes() + Child(t, v).LeafNodes()
  {
  }

  /** The two sides of a node and the node itself. */
  lemma Sides(t: Tree, v: Key)
    requires t.Inner? && t.b < |v| && Distinct(t)
    ensures Sibling(t, v).Nodes() !! Child(t, v).Nodes()
    ensures t.n !in Sibling(t, v).Nodes() && t.n !in Child(t, v).Nodes()
  {
  }

  lemma DistinctChild(t: Tree, v: Key)
    requires t.Inner? && t.b < |v| && Distinct(t)
    ensures Distinct(Child(t, v)) && Distinct(Sibling(t, v))
  {
  }

  lemma SidesOK(t: Tree, v: Key)
    requires t.Inner? && Patricia(t, |v|)
    ensures t.b < |v| && Patricia(Child(t, v), |v|) && Patricia(Sibling(t, v), |v|)
    ensures Child(t, v).Leaf? ==> Child(t, v).chain != []
  {
  }

  /** What the invariant says about the two sides of a node, seen from a key. */
  lemma SideKeys(t: Tree, v: Key)
    requires t.Inner? && Patricia(t, |v|)
    ensures forall k :: k in Child(t, v).Keys() ==> |k| == |v| && k[t.b] == v[t.b]
    ensures forall k :: k in Sibling(t, v).Keys() ==> |k| == |v| && k[t.b] != v[t.b]
    ensures Sibling(t, v).Inner? ==> t.b < Sibling(t, v).b
  {
  }

  /** A node over two trees whose keys agree with `v` before its index and part there. */
  lemma {:induction false} MakeNode(n: Node, b: nat, v: Key, mine: Tree, other: Tree)
    requires b < |v| && Patricia(mine, |v|) && Patricia(other, |v|)
    requires (mine.Inner? ==> b < mine.b) && (other.Inner? ==> b < other.b)
    requires forall k :: k in mine.Keys() ==> |k| == |v| && k[b] == v[b] && Agree(k, v, b)
    requires forall k :: k in other.Keys() ==> |k| == |v| && k[b] != v[b] && Agree(k, v, b)
    ensures Patricia(if v[b] then Inner(n, b, other, mine) else Inner(n, b, mine, other), |v|)
  {
    var t := if v[b] then Inner(n, b, other, mine) else Inner(n, b, mine, other);
    assert t.Keys() == mine.Keys() + other.Keys();
    forall k, k' | k in t.Keys() && k' in t.Keys() ensures Agree(k, k', b) {
      AgreeBoth(k, k', v, b);
    }
  }

  lemma AgreeBoth(k: Key, k': Key, v: Key, b: nat)
    requires b <= |k| && b <= |k'| && b <= |v| && Agree(k, v, b) && Agree(k', v, b)
    ensures Agree(k, k', b)
  {
  }

  lemma {:induction false} WithChildPatricia(t: Tree, v: Key, c: Tree)
    requires t.Inner? && Patricia(t, |v|) && Patricia(c, |v|)
    requires c.Inner? ==> t.b < c.b
    requires c.Keys() <= Child(t, v).Keys() + {v}
    requires forall k :: k in t.Keys() ==> |k| == |v| && Agree(k, v, t.b)
    ensures Patricia(WithChild(t, v, c), |v|)
  {
    hide Patricia, Agree;
    SidesOK(t, v);
    SideKeys(t, v);
    WithOwnChild(t, v);
    SelfAgree(v, t.b);
    MakeNode(t.n, t.b, v, c, Sibling(t, v));
  }

  lemma NodesOfChild(t: Tree, v: Key)
    requires t.Inner? && t.b < |v|
    ensures Child(t, v).Nodes() <= t.Nodes() && Sibling(t, v).Nodes() <= t.Nodes() && t.n in t.Nodes()
    ensures Child(t, v).Entries() <= t.Entries() && Sibling(t, v).Entries() <= t.Entries()
    ensures Child(t, v).InnerNodes() <= t.Nodes() && Sibling(t, v).InnerNodes() <= t.Nodes()
  {
  }

  lemma {:induction false} WithChildDistinct(t: Tree, v: Key, c: Tree, extra: set<Node>)
    requires t.Inner? && t.b < |v| && Distinct(t) && Distinct(c)
    requires c.Nodes() <= Child(t, v).Nodes() + extra && extra !! t.Nodes()
    ensures Distinct(WithChild(t, v, c))
  {
    WithChildSets(t, v, Child(t, v));
    assert t == WithChild(t, v, Child(t, v));
    assert Sibling(t, v).Nodes() <= t.Nodes();
    assert t.n in t.Nodes();
  }

  /** Split the edge on the path of `v` where index `b` belongs, hanging the new leaf `e` there. */
  ghost function Graft(t: Tree, v: Key, b: nat, n: Node, e: Entry): Tree
    requires b < |v| && Patricia(t, |v|)
  {
    if t.Inner? && t.b < b then WithChild(t, v, Graft(Child(t, v), v, b, n, e))
    else if v[b] then Inner(n, b, t, Leaf([e]))
    else Inner(n, b, Leaf([e]), t)
  }

  /** The subtree below the split edge. */
  ghost function StopAt(t: Tree, v: Key, b: nat): (s: Tree)
    requires b < |v| && Patricia(t, |v|)
    ensures Patricia(s, |v|)
  {
    if t.Inner? && t.b < b then StopAt(Child(t, v), v, b) else t
  }

  /** The index of the node above the split edge. */
  ghost function StopLo(t: Tree, lo: int, v: Key, b: nat): int
    requires b < |v| && Patricia(t, |v|)
  {
    if t.Inner? && t.b < b then StopLo(Child(t, v), t.b, v, b) else lo
  }

  /** `b` is the first bit at which `v` differs from the key the search finds. */
  ghost predicate Differs(t: Tree, v: Key, b: nat)
    requires Patricia(t, |v|)
  {
    b < |v| && Agree(FoundKey(t, v), v, b) && FoundKey(t, v)[b] != v[b]
  }

  /** Below the split edge every key has the opposite bit at `b` and agrees with `v` before it. */
  lemma {:induction false} StopKeys(t: Tree, v: Key, b: nat)
    requires Patricia(t, |v|) && Differs(t, v, b)
    requires t.Leaf? || b <= t.b
    ensures t.Leaf? || b < t.b
    ensures forall k :: k in t.Keys() ==> |k| == |v| && Agree(k, v, b) && k[b] != v[b]
  {
    FoundInside(t, v);
    if t.Inner? { FoundInside(Child(t, v), v); }
  }

  /** Above the split the new tree replaces one child. */
  lemma GraftDescends(t: Tree, v: Key, b: nat, n: Node, e: Entry)
    requires t.Inner? && t.b < b < |v| && Patricia(t, |v|)
    ensures Patricia(Child(t, v), |v|)
    ensures Graft(t, v, b, n, e) == WithChild(t, v, Graft(Child(t, v), v, b, n, e))
  {
  }

  /** At the split the new node stands over the old subtree and the new leaf. */
  lemma GraftHere(t: Tree, v: Key, b: nat, n: Node, e: Entry)
    requires b < |v| && Patricia(t, |v|) && !(t.Inner? && t.b < b)
    ensures Graft(t, v, b, n, e) == if v[b] then Inner(n, b, t, Leaf([e])) else Inner(n, b, Leaf([e]), t)
  {
  }

  lemma {:induction false} GraftKeys(t: Tree, v: Key, b: nat, n: Node, e: Entry)
    requires b < |v| && Patricia(t, |v|) && e.key == v
    ensures Graft(t, v, b, n, e).Keys() == t.Keys() + {v}
    ensures Graft(t, v, b, n, e).Entries() == t.Entries() + {e}
    ensures Graft(t, v, b, n, e).InnerNodes() == t.InnerNodes() + {n}
    ensures Graft(t, v, b, n, e).LeafNodes() == t.LeafNodes() + {e.n}
  {
    hide Patricia, Graft;
    if t.Inner? && t.b < b {
      GraftDescends(t, v, b, n, e);
      var c := Child(t, v);
      GraftKeys(c, v, b, n, e);
      WithChildSets(t, v, Graft(c, v, b, n, e));
      WithOwnChild(t, v);
    } else {
      GraftHere(t, v, b, n, e);
      SingleLeaf(e);
    }
  }

  lemma {:induction false} FoundAgrees(t: Tree, v: Key, b: nat)
    requires t.Inner? && Patricia(t, |v|) && Differs(t, v, b) && t.b <= b
    ensures forall k :: k in t.Keys() ==> |k| == |v| && Agree(k, v, t.b)
  {
    FoundInside(t, v);
  }

  /** Inserting a key that is not stored keeps the invariant of the tree. */
  lemma {:induction false} GraftPatricia(t: Tree, v: Key, b: nat, n: Node, e: Entry)
    requires Patricia(t, |v|) && Differs(t, v, b)
    requires e.key == v && e.Fits(|v|)
    ensures Patricia(Graft(t, v, b, n, e), |v|)
  {
    hide Patricia, Graft, Agree;
    if t.Inner? && t.b < b {
      GraftDescends(t, v, b, n, e);
      SidesOK(t, v);
      OrderedChild(t, v);
      var c := Child(t, v);
      GraftIndex(c, v, b, n, e);
      GraftPatricia(c, v, b, n, e);
      GraftKeys(c, v, b, n, e);
      FoundAgrees(t, v, b);
      WithChildPatricia(t, v, Graft(c, v, b, n, e));
    } else {
      StopKeys(t, v, b);
      SplitPatricia(t, v, b, n, e);
    }
  }

  lemma OrderedChild(t: Tree, v: Key)
    requires t.Inner? && Patricia(t, |v|)
    ensures Child(t, v).Inner? ==> t.b < Child(t, v).b
  {
  }

  lemma GraftIndex(t: Tree, v: Key, b: nat, n: Node, e: Entry)
    requires b < |v| && Patricia(t, |v|)
    ensures var g := Graft(t, v, b, n, e); g.Inner? && g.b == if t.Inner? && t.b < b then t.b else b
  {
  }

  lemma {:induction false} SplitPatricia(t: Tree, v: Key, b: nat, n: Node, e: Entry)
    requires Patricia(t, |v|) && b < |v| && (t.Leaf? || b < t.b)
    requires e.key == v && e.Fits(|v|)
    requires forall k :: k in t.Keys() ==> |k| == |v| && Agree(k, v, b) && k[b] != v[b]
    ensures Patricia(Graft(t, v, b, n, e), |v|)
  {
    hide Patricia, Graft, Agree;
    SingleLeaf(e);
    SingleOK(e, |v|);
    SelfAgree(v, b);
    MakeNode(n, b, v, Leaf([e]), t);
    GraftHere(t, v, b, n, e);
  }

  lemma SingleOK(e: Entry, w: nat)
    requires e.Fits(w)
    ensures Patricia(Leaf([e]), w)
  {
  }

  lemma SelfAgree(v: Key, b: nat)
    requires b <= |v|
    ensures Agree(v, v, b)
  {
  }

  lemma {:induction false} GraftDistinct(t: Tree, v: Key, b: nat, n: Node, e: Entry)
    requires b < |v| && Patricia(t, |v|) && e.key == v
    requires Distinct(t) && n != e.n && n !in t.Nodes() && e.n !in t.Nodes()
    ensures Distinct(Graft(t, v, b, n, e))
  {
    hide Patricia, Graft, Tree.Entries, Tree.Keys, WithChild;
    if t.Inner? && t.b < b {
      GraftDescends(t, v, b, n, e);
      var c := Child(t, v);
      NodesOfChild(t, v);
      GraftDistinct(c, v, b, n, e);
      GraftKeys(c, v, b, n, e);
      WithChildDistinct(t, v, Graft(c, v, b, n, e), {n, e.n});
    } else {
      GraftHere(t, v, b, n, e);
      SingleLeaf(e);
    }
  }

  // ---------- a route whose key is stored already ----------

  ghost function PutChain(t: Tree, v: Key, c: seq<Entry>): Tree
    requires Patricia(t, |v|)
  {
    if t.Leaf? then Leaf(c) else WithChild(t, v, PutChain(Child(t, v), v, c))
  }

  /** `c'` is `c` with `e` inserted at `i`. */
  ghost predicate Inserted(c: seq<Entry>, i: nat, e: Entry, c': seq<Entry>) {
    i <= |c| && c' == c[..i] + [e] + c[i..]
  }

  lemma {:induction false} PutChainFound(t: Tree, v: Key, c: seq<Entry>)
    requires Patricia(t, |v|)
    ensures var r := PutChain(t, v, c);
            Patricia(r, |v|) ==> Found(r, v) == Leaf(c)
  {
    if t.Inner? { PutChainFound(Child(t, v), v, c); }
  }

  lemma {:induction false} PutChainSets(t: Tree, v: Key, i: nat, e: Entry, c: seq<Entry>)
    requires Patricia(t, |v|) && FoundKey(t, v) == v && e.key == v
    requires Inserted(Found(t, v).chain, i, e, c)
    ensures PutChain(t, v, c).Keys() == t.Keys()
    ensures PutChain(t, v, c).Entries() == t.Entries() + {e}
    ensures PutChain(t, v, c).InnerNodes() == t.InnerNodes()
    ensures PutChain(t, v, c).LeafNodes() == t.LeafNodes() + {e.n}
  {
    if t.Inner? {
      hide Patricia;
      ChildFacts(t, v);
      var d := Child(t, v);
      PutChainSets(d, v, i, e, c);
      WithChildSets(t, v, PutChain(d, v, c));
      WithOwnChild(t, v);
    } else {
      InsertedSets(t.chain, i, e, c);
      assert t.chain[0].key in t.Keys();
    }
  }

  lemma InsertedSets(c: seq<Entry>, i: nat, e: Entry, c': seq<Entry>)
    requires Inserted(c, i, e, c')
    ensures (set x | x in c') == (set x | x in c) + {e}
    ensures Leaf(c').Keys() == Leaf(c).Keys() + {e.key}
    ensures Leaf(c').LeafNodes() == Leaf(c).LeafNodes() + {e.n}
  {
    assert c == c[..i] + c[i..];
    assert forall x :: x in c' <==> x in c || x == e;
    assert e in c';
  }

  lemma {:induction false} PutChainPatricia(t: Tree, v: Key, i: nat, e: Entry, c: seq<Entry>)
    requires Patricia(t, |v|) && FoundKey(t, v) == v && e.key == v
    requires Inserted(Found(t, v).chain, i, e, c) && ChainOK(c, |v|)
    ensures Patricia(PutChain(t, v, c), |v|)
  {
    if t.Inner? {
      var d := Child(t, v);
      PutChainPatricia(d, v, i, e, c);
      PutChainSets(d, v, i, e, c);
      FoundInside(t, v);
      assert PutChain(d, v, c).Inner? ==> PutChain(d, v, c).b == d.b;
      WithChildPatricia(t, v, PutChain(d, v, c));
    }
  }

  lemma {:induction false} PutChainDistinct(t: Tree, v: Key, i: nat, e: Entry, c: seq<Entry>)
    requires Patricia(t, |v|) && FoundKey(t, v) == v && e.key == v
    requires Inserted(Found(t, v).chain, i, e, c) && ChainOK(c, |v|)
    requires Distinct(t) && e.n !in t.Nodes()
    ensures Distinct(PutChain(t, v, c))
  {
    if t.Inner? {
      hide Patricia, WithChild;
      ChildFacts(t, v);
      NodesOfChild(t, v);
      PutChainDistinct(Child(t, v), v, i, e, c);
      PutChainSets(Child(t, v), v, i, e, c);
      WithChildDistinct(t, v, PutChain(Child(t, v), v, c), {e.n});
    } else {
      assert forall x :: x in t.chain ==> x.n in t.LeafNodes();
    }
  }

  // ---------- annotations ----------

  lemma {:induction false} MarksFrame(t: Tree, lo: int, marks: Marking, marks': Marking, s: set<Entry>)
    requires MarksOK(t, lo, marks, s)
    requires forall n :: n in t.InnerNodes() && n in marks ==> n in marks' && marks'[n] == marks[n]
    ensures MarksOK(t, lo, marks', s)
  {
    if t.Inner? {
      MarksFrame(t.left, t.b, marks, marks', s);
      MarksFrame(t.right, t.b, marks, marks', s);
    }
  }

  lemma MarkedTop(t: Tree, lo: int, marks: Marking, s: set<Entry>)
    requires t.Inner? && MarksOK(t, lo, marks, s)
    ensures t.n in marks && Listed(marks[t.n]) == Liftable(t.Entries() * s, lo, t.b) && Descending(marks[t.n])
    ensures MarksOK(t.left, t.b, marks, s) && MarksOK(t.right, t.b, marks, s)
  {
  }

  lemma MarkedChild(t: Tree, v: Key, lo: int, marks: Marking, s: set<Entry>)
    requires t.Inner? && t.b < |v| && MarksOK(t, lo, marks, s)
    ensures MarksOK(Child(t, v), t.b, marks, s) && MarksOK(Sibling(t, v), t.b, marks, s)
  {
  }

  lemma LeafMarks(c: seq<Entry>, lo: int, marks: Marking, s: set<Entry>)
    ensures MarksOK(Leaf(c), lo, marks, s)
  {
  }

  lemma MarkNode(t: Tree, lo: int, marks: Marking, s: set<Entry>)
    requires t.Inner? && t.n in marks && Listed(marks[t.n]) == Liftable(t.Entries() * s, lo, t.b) && Descending(marks[t.n])
    requires MarksOK(t.left, t.b, marks, s) && MarksOK(t.right, t.b, marks, s)
    ensures MarksOK(t, lo, marks, s)
  {
  }

  lemma {:induction false} PutChainMarks(t: Tree, v: Key, i: nat, e: Entry, c: seq<Entry>,
                                         lo: int, marks: Marking, s: set<Entry>)
    requires Patricia(t, |v|) && FoundKey(t, v) == v && e.key == v
    requires Inserted(Found(t, v).chain, i, e, c) && ChainOK(c, |v|)
    requires MarksOK(t, lo, marks, s) && e !in s
    ensures MarksOK(PutChain(t, v, c), lo, marks, s)
  {
    hide Patricia, MarksOK, ChainOK, Tree.Keys;
    if t.Leaf? {
      LeafMarks(c, lo, marks, s);
    } else {
      SidesOK(t, v);
      MarkedTop(t, lo, marks, s);
      var d := Child(t, v);
      MarkedChild(t, v, lo, marks, s);
      PutChainMarks(d, v, i, e, c, t.b, marks, s);
      PutChainSets(d, v, i, e, c);
      assert (d.Entries() + {e}) * s == d.Entries() * s;
      WithChildMarks(t, v, PutChain(d, v, c), lo, marks, marks, s);
    }
  }

  /** `marks'` splits the annotations of the edge between the new node and the node below it. */
  ghost predicate Promoted(x: Tree, lo: int, b: nat, n: Node, marks: Marking, marks': Marking, s: set<Entry>) {
    && n in marks'
    && Listed(marks'[n]) == Liftable(x.Entries() * s, lo, b) && Descending(marks'[n])
    && (x.Inner? ==>
          && x.n in marks'
          && Listed(marks'[x.n]) == Liftable(x.Entries() * s, b, x.b) && Descending(marks'[x.n]))
    && (forall m :: m in marks && m != n && !(x.Inner? && m == x.n) ==> m in marks' && marks'[m] == marks[m])
  }

  /** After promotion every stored route is still listed at the highest node it applies to. */
  lemma {:induction false} GraftMarks(t: Tree, v: Key, b: nat, n: Node, e: Entry,
                                      lo: int, marks: Marking, marks': Marking, s: set<Entry>)
    requires Patricia(t, |v|) && b < |v| && e.key == v && e !in s
    requires Distinct(t) && n !in t.Nodes()
    requires MarksOK(t, lo, marks, s)
    requires Promoted(StopAt(t, v, b), StopLo(t, lo, v, b), b, n, marks, marks', s)
    ensures MarksOK(Graft(t, v, b, n, e), lo, marks', s)
  {
    if t.Inner? && t.b < b {
      var c := Child(t, v);
      NodesOfChild(t, v);
      GraftMarks(c, v, b, n, e, t.b, marks, marks', s);
      GraftMarksAbove(t, v, b, n, e, lo, marks, marks', s);
    } else {
      SplitMarks(t, v, b, n, e, lo, marks, marks', s);
    }
  }

  lemma {:induction false} GraftMarksAbove(t: Tree, v: Key, b: nat, n: Node, e: Entry,
                                           lo: int, marks: Marking, marks': Marking, s: set<Entry>)
    requires t.Inner? && Patricia(t, |v|) && t.b < b < |v| && e.key == v && e !in s
    requires Distinct(t) && n !in t.Nodes()
    requires MarksOK(t, lo, marks, s)
    requires Promoted(StopAt(Child(t, v), v, b), StopLo(Child(t, v), t.b, v, b), b, n, marks, marks', s)
    requires MarksOK(Graft(Child(t, v), v, b, n, e), t.b, marks', s)
    ensures MarksOK(WithChild(t, v, Graft(Child(t, v), v, b, n, e)), lo, marks', s)
  {
    hide Patricia, MarksOK, Promoted, Distinct;
    SidesOK(t, v);
    MarkedTop(t, lo, marks, s);
    var c := Child(t, v);
    PromotedElsewhere(t, v, StopAt(c, v, b), StopLo(c, t.b, v, b), b, n, marks, marks', s);
    GraftKeys(c, v, b, n, e);
    assert (c.Entries() + {e}) * s == c.Entries() * s;
    WithChildMarks(t, v, Graft(c, v, b, n, e), lo, marks, marks', s);
  }

  /** Promotion touches nothing outside the subtree below the split edge. */
  lemma {:induction false} PromotedElsewhere(t: Tree, v: Key, x: Tree, lo: int, b: nat, n: Node,
                                             marks: Marking, marks': Marking, s: set<Entry>)
    requires t.Inner? && t.b < b < |v| && Patricia(t, |v|) && Distinct(t) && n !in t.Nodes()
    requires x == StopAt(Child(t, v), v, b) && Promoted(x, lo, b, n, marks, marks', s)
    ensures t.n in marks ==> t.n in marks' && marks'[t.n] == marks[t.n]
    ensures forall m :: m in Sibling(t, v).InnerNodes() && m in marks ==> m in marks' && marks'[m] == marks[m]
    ensures n !in Child(t, v).Nodes()
  {
    NodesOfChild(t, v);
    StopInside(Child(t, v), v, b);
    assert x.Inner? ==> x.n in x.InnerNodes();
    assert Sibling(t, v).InnerNodes() <= Sibling(t, v).Nodes();
    assert x.InnerNodes() <= Child(t, v).Nodes();
  }

  lemma {:induction false} WithChildMarks(t: Tree, v: Key, c: Tree,
                                          lo: int, marks: Marking, marks': Marking, s: set<Entry>)
    requires t.Inner? && t.b < |v| && MarksOK(t, lo, marks, s) && MarksOK(c, t.b, marks', s)
    requires c.Entries() * s == Child(t, v).Entries() * s
    requires t.n in marks' && marks'[t.n] == marks[t.n]
    requires forall m :: m in Sibling(t, v).InnerNodes() && m in marks ==> m in marks' && marks'[m] == marks[m]
    ensures MarksOK(WithChild(t, v, c), lo, marks', s)
  {
    MarksFrame(Sibling(t, v), t.b, marks, marks', s);
    WithChildSets(t, v, c);
    WithChildSets(t, v, Child(t, v));
    assert t == WithChild(t, v, Child(t, v));
    var (x, y, z) := (Sibling(t, v).Entries(), c.Entries(), Child(t, v).Entries());
    assert (x + y) * s == x * s + y * s == (x + z) * s;
  }

  lemma {:induction false} SplitMarks(t: Tree, v: Key, b: nat, n: Node, e: Entry,
                                      lo: int, marks: Marking, marks': Marking, s: set<Entry>)
    requires Patricia(t, |v|) && b < |v| && (t.Leaf? || b <= t.b) && e.key == v && e !in s
    requires Distinct(t) && n !in t.Nodes()
    requires MarksOK(t, lo, marks, s)
    requires Promoted(t, lo, b, n, marks, marks', s)
    ensures MarksOK(Graft(t, v, b, n, e), lo, marks', s)
  {
    SingleLeaf(e);
    assert (t.Entries() + {e}) * s == t.Entries() * s;
    if t.Inner? {
      MarksFrame(t.left, t.b, marks, marks', s);
      MarksFrame(t.right, t.b, marks, marks', s);
    }
  }

  lemma {:induction false} StopInside(t: Tree, v: Key, b: nat)
    requires b < |v| && Patricia(t, |v|)
    ensures StopAt(t, v, b).InnerNodes() <= t.InnerNodes()
    ensures StopAt(t, v, b).Entries() <= t.Entries()
    ensures StopAt(t, v, b).Nodes() <= t.Nodes()
  {
    if t.Inner? && t.b < b { StopInside(Child(t, v), v, b); }
  }

  /** A route too general for the subtree, or a host route, changes none of its lists. */
  lemma {:induction false} MarksIgnore(t: Tree, w: nat, lo: int, marks: Marking, s: set<Entry>, e: Entry)
    requires Patricia(t, w) && MarksOK(t, lo, marks, s) && (t.Inner? ==> lo <= t.b)
    requires e.prefix.Net? ==> e.prefix.plen <= lo
    ensures MarksOK(t, lo, marks, s + {e})
  {
    if t.Inner? {
      MarksIgnore(t.left, w, t.b, marks, s, e);
      MarksIgnore(t.right, w, t.b, marks, s, e);
      assert Liftable(t.Entries() * (s + {e}), lo, t.b) == Liftable(t.Entries() * s, lo, t.b);
    }
  }

  /** The highest node on the path of `v` whose index is at least `plen`. */
  ghost function LiftAt(t: Tree, v: Key, plen: nat): Option<Node>
    requires Patricia(t, |v|)
  {
    if t.Leaf? then None
    else if plen <= t.b then Some(t.n)
    else LiftAt(Child(t, v), v, plen)
  }

  ghost predicate Lifted(at: Option<Node>, e: Entry, marks: Marking, marks': Marking) {
    && (at.Some? ==>
          && at.value in marks && at.value in marks'
          && Listed(marks'[at.value]) == Listed(marks[at.value]) + {e}
          && Descending(marks'[at.value]))
    && (forall m :: m in marks && at != Some(m) ==> m in marks' && marks'[m] == marks[m])
  }

  lemma {:induction false} LiftInside(t: Tree, v: Key, plen: nat)
    requires Patricia(t, |v|)
    ensures LiftAt(t, v, plen).Some? ==> LiftAt(t, v, plen).value in t.InnerNodes()
  {
    if t.Inner? { LiftInside(Child(t, v), v, plen); }
  }

  /** Listing the new route at that node completes the annotations. */
  lemma {:induction false} LiftMarks(t: Tree, w: nat, lo: int, marks: Marking, marks': Marking,
                                     s: set<Entry>, e: Entry)
    requires Patricia(t, w) && Distinct(t) && MarksOK(t, lo, marks, s)
    requires e in t.Entries() && e.Fits(w) && e.prefix.Net? && lo < e.prefix.plen
    requires Lifted(LiftAt(t, e.key, e.prefix.plen), e, marks, marks')
    ensures MarksOK(t, lo, marks', s + {e})
  {
    if t.Leaf? {
    } else if e.prefix.plen <= t.b {
      LiftHere(t, w, lo, marks, marks', s, e);
    } else {
      LiftDeeper(t, w, lo, marks, marks', s, e);
      LiftMarks(Child(t, e.key), w, t.b, marks, marks', s, e);
      LiftAbove(t, lo, marks', s, e);
    }
  }

  /** A route that belongs below `t` leaves its own list as it is. */
  lemma {:induction false} LiftAbove(t: Tree, lo: int, marks': Marking, s: set<Entry>, e: Entry)
    requires t.Inner? && e.prefix.Net? && t.b < e.prefix.plen
    requires t.n in marks' && Listed(marks'[t.n]) == Liftable(t.Entries() * s, lo, t.b) && Descending(marks'[t.n])
    requires MarksOK(t.left, t.b, marks', s + {e}) && MarksOK(t.right, t.b, marks', s + {e})
    ensures MarksOK(t, lo, marks', s + {e})
  {
    hide MarksOK, Descending;
    assert Liftable(t.Entries() * (s + {e}), lo, t.b) == Liftable(t.Entries() * s, lo, t.b);
    MarkNode(t, lo, marks', s + {e});
  }

  /** What holds of the rest of `t` when the route is lifted below it. */
  lemma {:induction false} LiftDeeper(t: Tree, w: nat, lo: int, marks: Marking, marks': Marking,
                                      s: set<Entry>, e: Entry)
    requires Patricia(t, w) && Distinct(t) && MarksOK(t, lo, marks, s) && t.Inner?
    requires e in t.Entries() && e.Fits(w) && e.prefix.Net? && t.b < e.prefix.plen
    requires Lifted(LiftAt(t, e.key, e.prefix.plen), e, marks, marks')
    ensures var c := Child(t, e.key);
            && Patricia(c, w) && Distinct(c) && MarksOK(c, t.b, marks, s) && e in c.Entries()
            && Lifted(LiftAt(c, e.key, e.prefix.plen), e, marks, marks')
            && MarksOK(Sibling(t, e.key), t.b, marks', s + {e})
            && t.n in marks' && Listed(marks'[t.n]) == Liftable(t.Entries() * s, lo, t.b) && Descending(marks'[t.n])
  {
    hide Patricia, Distinct, MarksOK, Descending;
    SidesOK(t, e.key);
    DistinctChild(t, e.key);
    MarkedTop(t, lo, marks, s);
    LiftBelow(t, w, marks, marks', s, e);
    Sides(t, e.key);
    LiftInside(Child(t, e.key), e.key, e.prefix.plen);
  }

  lemma {:induction false} LiftHere(t: Tree, w: nat, lo: int, marks: Marking, marks': Marking,
                                    s: set<Entry>, e: Entry)
    requires Patricia(t, w) && Distinct(t) && MarksOK(t, lo, marks, s) && t.Inner?
    requires e in t.Entries() && e.prefix.Net? && lo < e.prefix.plen <= t.b
    requires Lifted(Some(t.n), e, marks, marks')
    ensures MarksOK(t, lo, marks', s + {e})
  {
    MarksIgnore(t.left, w, t.b, marks, s, e);
    MarksIgnore(t.right, w, t.b, marks, s, e);
    MarksFrame(t.left, t.b, marks, marks', s + {e});
    MarksFrame(t.right, t.b, marks, marks', s + {e});
    assert Liftable(t.Entries() * (s + {e}), lo, t.b) == Liftable(t.Entries() * s, lo, t.b) + {e};
  }

  lemma {:induction false} SideOf(t: Tree, w: nat, e: Entry)
    requires t.Inner? && Patricia(t, w) && e in t.Entries() && e.Fits(w)
    ensures e in Child(t, e.key).Entries() && e !in Sibling(t, e.key).Entries()
  {
    hide Patricia, Tree.Keys;
    SidesOK(t, e.key);
    SideKeys(t, e.key);
    var off := Sibling(t, e.key);
    if e in off.Entries() { KeysOfEntries(off, w, e); }
    WithOwnChild(t, e.key);
  }

  /** The side of `t` that the key of `e` does not take is untouched by the lift. */
  lemma {:induction false} LiftBelow(t: Tree, w: nat, marks: Marking, marks': Marking,
                                     s: set<Entry>, e: Entry)
    requires Patricia(t, w) && Distinct(t) && t.Inner?
    requires MarksOK(t.left, t.b, marks, s) && MarksOK(t.right, t.b, marks, s)
    requires e in t.Entries() && e.Fits(w) && e.prefix.Net? && t.b < e.prefix.plen
    requires Lifted(LiftAt(t, e.key, e.prefix.plen), e, marks, marks')
    ensures e in Child(t, e.key).Entries()
    ensures MarksOK(if e.key[t.b] then t.left else t.right, t.b, marks', s + {e})
  {
    hide Patricia, Distinct, MarksOK;
    SidesOK(t, e.key);
    Sides(t, e.key);
    var off := Sibling(t, e.key);
    SideOf(t, w, e);
    LiftInside(Child(t, e.key), e.key, e.prefix.plen);
    MarksFrame(off, t.b, marks, marks', s);
    assert off.Entries() * (s + {e}) == off.Entries() * s;
    MarksNarrow(off, t.b, marks', s, s + {e});
  }

  // ---------- searching with a mask ----------

  /** The leaf reached when bits at or past `plen` count as zero (squid_rn_search_m). */
  ghost function FoundMasked(t: Tree, v: Key, plen: nat): (f: Tree)
    requires Patricia(t, |v|)
    ensures f.Leaf? && ChainOK(f.chain, |v|)
  {
    if t.Leaf? then t
    else if t.b < plen && v[t.b] then FoundMasked(t.right, v, plen)
    else FoundMasked(t.left, v, plen)
  }

  /** Below the node where a route is listed, the masked search ends at that route's own key. */
  lemma {:induction false} MaskedSearchFinds(t: Tree, v: Key, e: Entry)
    requires Patricia(t, |v|) && e in t.Entries() && e.prefix.Net?
    requires t.Inner? ==> e.prefix.plen <= t.b
    ensures e in FoundMasked(t, v, e.prefix.plen).chain
  {
    if t.Inner? {
      KeysOfEntries(t, |v|, e);
      if e in t.right.Entries() { KeysOfEntries(t.right, |v|, e); }
      MaskedSearchFinds(t.left, v, e);
    }
  }

  lemma {:induction false} MaskedInside(t: Tree, v: Key, plen: nat)
    requires Patricia(t, |v|)
    ensures forall i :: 0 <= i < |FoundMasked(t, v, plen).chain| ==> FoundMasked(t, v, plen).chain[i] in t.Entries()
  {
    if t.Inner? {
      MaskedInside(t.left, v, plen);
      MaskedInside(t.right, v, plen);
    }
  }

  /** What is met first on the way up is met first overall. */
  lemma {:induction false} ClimbPrefix(t: Tree, v: Key, marks: Marking, j: nat)
    requires Patricia(t, |v|) && t.InnerNodes() <= marks.Keys && j < |Path(t, v)|
    ensures Patricia(Path(t, v)[j], |v|) && Path(t, v)[j].InnerNodes() <= marks.Keys
    ensures Climb(Path(t, v)[j], v, marks) <= Climb(t, v, marks)
  {
    hide Patricia, Tree.InnerNodes;
    if j > 0 {
      ChildFacts(t, v);
      ClimbPrefix(Child(t, v), v, marks, j - 1);
    }
  }

  lemma ChildFacts(t: Tree, v: Key)
    requires Patricia(t, |v|) && t.Inner?
    ensures t.b < |v| && Patricia(Child(t, v), |v|) && Child(t, v).InnerNodes() <= t.InnerNodes()
  {
  }

  /** Inserting a key leaves the leaf of every other key where searches find it. */
  lemma {:induction false} GraftKeepsFound(t: Tree, v: Key, b: nat, n: Node, e: Entry, k: Key)
    requires Patricia(t, |v|) && Differs(t, v, b) && e.key == v && e.Fits(|v|)
    requires k in t.Keys() && |k| == |v| && Patricia(Graft(t, v, b, n, e), |v|)
    ensures Found(Graft(t, v, b, n, e), k) == Found(t, k)
    ensures Found(Graft(t, v, b, n, e), v) == Leaf([e])
  {
    if t.Inner? && t.b < b {
      var c := Child(t, v);
      GraftPatricia(c, v, b, n, e);
      FoundInside(c, v);
      GraftKeepsFound(c, v, b, n, e, if Child(t, k) == c && k in c.Keys() then k else FoundKey(c, v));
    } else {
      StopKeys(t, v, b);
    }
  }

  /** A host route heads its chain. */
  lemma {:induction false} HostFirst(t: Tree, w: nat, e: Entry)
    requires Patricia(t, w) && e in t.Entries() && e.prefix.Host? && |e.key| == w
    ensures Found(t, e.key).chain[0] == e && FoundKey(t, e.key) == e.key
  {
    KeysOfEntries(t, w, e);
    SearchReachesStored(t, e.key);
    FoundChainComplete(t, e.key, e);
    var i :| 0 <= i < |Found(t, e.key).chain| && Found(t, e.key).chain[i] == e;
  }

  /** The highest node of a path that a route reaches is the first one, from the bottom, past its index. */
  lemma {:induction false} LiftAtPath(t: Tree, k: Key, p: nat, j: nat)
    requires Patricia(t, |k|) && j < |Path(t, k)|
    requires Path(t, k)[j].Inner? ==> p <= Path(t, k)[j].b
    requires 0 < j ==> Path(t, k)[j - 1].Inner? && Path(t, k)[j - 1].b < p
    ensures LiftAt(t, k, p) == if Path(t, k)[j].Inner? then Some(Path(t, k)[j].n) else None
  {
    if j > 0 {
      PathIncreasing(t, k, j - 1);
      if j > 1 { PathStep(t, k, 0); }
      var c := Child(t, k);
      LiftAtPath(c, k, p, j - 1);
    }
  }

  lemma {:induction false} PathIncreasing(t: Tree, k: Key, j: nat)
    requires t.Inner? && Patricia(t, |k|) && j < |Path(t, k)|
    ensures Path(t, k)[j].Inner? ==> t.b <= Path(t, k)[j].b
  {
    if j > 0 && Child(t, k).Inner? { PathIncreasing(Child(t, k), k, j - 1); }
  }

  // ---------- what is listed below a node ----------

  ghost function ListedIn(t: Tree, marks: Marking): set<Entry> {
    if t.Leaf? then {}
    else (if t.n in marks then Listed(marks[t.n]) else {}) + ListedIn(t.left, marks) + ListedIn(t.right, marks)
  }

  lemma {:induction false} ListedInEntries(t: Tree, lo: int, marks: Marking, s: set<Entry>)
    requires MarksOK(t, lo, marks, s)
    ensures ListedIn(t, marks) <= t.Entries() * s
  {
    if t.Inner? {
      ListedInEntries(t.left, t.b, marks, s);
      ListedInEntries(t.right, t.b, marks, s);
    }
  }

  /** A route of the leaf below the split edge is listed iff the node above reaches it. */
  lemma {:induction false} StopListed(t: Tree, lo: int, v: Key, b: nat, marks: Marking, s: set<Entry>, e: Entry)
    requires b < |v| && Patricia(t, |v|) && MarksOK(t, lo, marks, s)
    requires StopAt(t, v, b).Leaf? && e in StopAt(t, v, b).chain && e in s && e.prefix.Net? && lo < e.prefix.plen
    ensures e in ListedIn(t, marks) <==> e.prefix.plen <= StopLo(t, lo, v, b)
    ensures lo <= StopLo(t, lo, v, b) || t.Inner?
  {
    if t.Inner? && t.b < b {
      var c := Child(t, v);
      StopInside(c, v, b);
      assert e in StopAt(c, v, b).Entries() && e in c.Entries();
      StopLoGrows(c, t.b, v, b);
      if e.prefix.plen > t.b {
        StopListed(c, t.b, v, b, marks, s, e);
        OtherSide(t, v, e);
        ListedInEntries(Sibling(t, v), t.b, marks, s);
      }
    }
  }

  lemma {:induction false} StopLoGrows(t: Tree, lo: int, v: Key, b: nat)
    requires b < |v| && Patricia(t, |v|) && (t.Inner? ==> lo < t.b)
    ensures lo <= StopLo(t, lo, v, b)
  {
    if t.Inner? && t.b < b { StopLoGrows(Child(t, v), t.b, v, b); }
  }

  lemma {:induction false} OtherSide(t: Tree, v: Key, e: Entry)
    requires t.Inner? && Patricia(t, |v|) && e in Child(t, v).Entries()
    ensures e !in Sibling(t, v).Entries()
  {
    KeysOfEntries(Child(t, v), |v|, e);
    if e in Sibling(t, v).Entries() { KeysOfEntries(Sibling(t, v), |v|, e); }
  }

  /** The annotations of the node below the split edge. */
  lemma {:induction false} StopMarks(t: Tree, lo: int, v: Key, b: nat, marks: Marking, s: set<Entry>)
    requires b < |v| && Patricia(t, |v|) && MarksOK(t, lo, marks, s)
    ensures MarksOK(StopAt(t, v, b), StopLo(t, lo, v, b), marks, s)
  {
    if t.Inner? && t.b < b { StopMarks(Child(t, v), t.b, v, b, marks, s); }
  }

  /** The new pair ends the path of the new key, with the split subtree on the other side. */
  lemma {:induction false} GraftEnd(t: Tree, v: Key, b: nat, n: Node, e: Entry)
    requires Patricia(t, |v|) && b < |v| && Patricia(Graft(t, v, b, n, e), |v|)
    ensures var p := Path(Graft(t, v, b, n, e), v);
            && 2 <= |p| && p[|p| - 1] == Leaf([e]) && p[|p| - 2].Inner?
            && p[|p| - 2].n == n && p[|p| - 2].b == b
            && Child(p[|p| - 2], v) == Leaf([e]) && Sibling(p[|p| - 2], v) == StopAt(t, v, b)
  {
    hide Patricia, Graft;
    if t.Inner? && t.b < b {
      GraftDescends(t, v, b, n, e);
      var g := Graft(Child(t, v), v, b, n, e);
      PathDescends(t, v, g);
      GraftEnd(Child(t, v), v, b, n, e);
    } else {
      GraftHere(t, v, b, n, e);
      PathOfPair(Graft(t, v, b, n, e), v, [e]);
    }
  }

  lemma PathDescends(t: Tree, v: Key, g: Tree)
    requires t.Inner? && t.b < |v| && Patricia(WithChild(t, v, g), |v|)
    ensures Patricia(g, |v|) && Path(WithChild(t, v, g), v) == [WithChild(t, v, g)] + Path(g, v)
  {
  }

  lemma PathOfPair(t: Tree, v: Key, c: seq<Entry>)
    requires t.Inner? && Patricia(t, |v|) && t.b < |v| && Child(t, v) == Leaf(c)
    ensures Path(t, v) == [t, Leaf(c)]
  {
  }
}
