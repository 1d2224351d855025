// Adding a route (lib/radix.c: squid_rn_addroute): routes of the split subtree are promoted to the
// new node's list, and the whole operation keeps the table exact.

module RadixPromote {
  import opened Basics
  import opened RadixBits
  import opened RadixTrie
  import opened RadixGrowth
  import opened RadixImage
  import opened Radix
  import opened RadixRoutes
  import opened RadixMasks
  import opened RadixAddRoute

  // ---------- promotion ----------

  /** The nodes around the new pair. */
  lemma {:induction false} NewPairLinks(table: RouteTable, t0: Tree, marks0: Marking, e: Entry, b: nat, inner: Node)
    requires table.head.Valid() && table.head.Shape() && |e.key| == 8 * table.head.len
    requires Patricia(t0, |e.key|) && b < |e.key| && table.head.tree == Graft(t0, e.key, b, inner, e)
    ensures var x := StopAt(t0, e.key, b);
            && e.n.p == inner && inner.b == b && inner.l != null && inner.r != null
            && table.head.Inside(x, inner) && (x.Leaf? ==> x.chain != [])
            && x.Top() == (if inner.r == e.n then inner.l else inner.r)
            && (x.Leaf? <==> x.Top().b < 0) && (x.Inner? ==> b < x.b) && Found(table.head.tree, e.key).chain == [e]
  {
    hide ImageOf, Distinct, SubImage, Holds, Patricia, Graft, StopAt;
    var (h, k) := (table.head, e.key);
    GraftEnd(t0, k, b, inner, e);
    var j := h.Depth(k) - 2;
    h.PathLinks(k, j);
    h.PathLinks(k, j + 1);
    h.Sides(h.At(k, j), h.Above(k, j));
    PairDistinct(h, h.At(k, j), h.Above(k, j), k);
    ChildBelow(h.At(k, j), |k|);
  }

  lemma ChildBelow(t: Tree, w: nat)
    requires t.Inner? && Patricia(t, w)
    ensures (t.left.Inner? ==> t.b < t.left.b) && (t.right.Inner? ==> t.b < t.right.b)
  {
  }

  lemma {:induction false} PairDistinct(h: Head, cur: Tree, par: Node, k: Key)
    requires h.Shape() && h.Inside(cur, par) && cur.Inner? && |k| == 8 * h.len
    requires (cur.left.Leaf? ==> cur.left.chain != []) && (cur.right.Leaf? ==> cur.right.chain != [])
    ensures cur.left.Top() != cur.right.Top()
  {
    TopsDiffer(cur, k);
  }

  /** The routes of a chain up to `q` that the new node should list. */
  ghost function Promotable(c: seq<Entry>, q: nat, lo: int, b: nat): set<Entry>
    requires q <= |c|
  {
    Liftable((set e | e in c[..q]), lo, b)
  }

  /** `ms` lists the promotable routes of the first `q` chain members. */
  ghost predicate Promoting(c: seq<Entry>, q: nat, lo: int, b: nat, ms: seq<Annot>) {
    && q <= |c| && Descending(ms) && Listed(ms) == Promotable(c, q, lo, b)
  }

  lemma PromoteSkip(c: seq<Entry>, w: nat, q: nat, lo: int, b: nat, ms: seq<Annot>)
    requires ChainOK(c, w) && q < |c| && Promoting(c, q, lo, b, ms)
    requires !(c[q].prefix.Net? && lo < c[q].prefix.plen <= b)
    ensures Promoting(c, q + 1, lo, b, ms)
  {
    assert c[..q + 1] == c[..q] + [c[q]];
    assert Promotable(c, q + 1, lo, b) == Promotable(c, q, lo, b);
  }

  lemma PromoteTake(c: seq<Entry>, w: nat, q: nat, lo: int, b: nat, ms: seq<Annot>, a: Annot)
    requires ChainOK(c, w) && q < |c| && Promoting(c, q, lo, b, ms) && a.e == c[q]
    requires c[q].prefix.Net? && lo < c[q].prefix.plen <= b
    ensures Promoting(c, q + 1, lo, b, ms + [a])
  {
    assert c[..q + 1] == c[..q] + [c[q]];
    assert Promotable(c, q + 1, lo, b) == Promotable(c, q, lo, b) + {c[q]};
    assert Listed(ms + [a]) == Listed(ms) + {a.e} by { assert a in ms + [a]; }
    forall i | 0 <= i < |ms| ensures ms[i].e.prefix.plen > a.e.prefix.plen {
      assert ms[i].e in Listed(ms);
      assert ms[i].e in c[..q];
    }
  }

  /** The promotion is complete: the annotations of the grown tree list every older route. */
  lemma {:induction false} PromotedChain(t0: Tree, marks0: Marking, e: Entry, b: nat, inner: Node, ms: seq<Annot>)
    requires Patricia(t0, |e.key|) && Distinct(t0) && b < |e.key| && inner !in t0.Nodes() && e !in t0.Entries()
    requires MarksOK(t0, -1, marks0, t0.Entries()) && marks0.Keys == t0.InnerNodes()
    requires StopAt(t0, e.key, b).Leaf?
    requires Promoting(StopAt(t0, e.key, b).chain, |StopAt(t0, e.key, b).chain|, StopLo(t0, -1, e.key, b), b, ms)
    ensures MarksOK(Graft(t0, e.key, b, inner, e), -1, marks0[inner := ms], t0.Entries())
  {
    hide Patricia, Distinct, MarksOK;
    var x := StopAt(t0, e.key, b);
    StopInside(t0, e.key, b);
    assert x.chain[..|x.chain|] == x.chain;
    assert x.Entries() * t0.Entries() == x.Entries();
    GraftMarks(t0, e.key, b, inner, e, -1, marks0, marks0[inner := ms], t0.Entries());
  }

  /** The table between the split and the end of the promotion: the new node lists `ms`. */
  ghost predicate Between(table: RouteTable, t0: Tree, marks0: Marking, e: Entry, b: nat, inner: Node, ms: seq<Annot>)
    reads table, table.head, table.head.nodes, table.markObjs
  {
    && table.Loose() && |e.key| == 8 * table.head.len
    && SplitOf(t0, marks0, e, b, inner)
    && table.head.tree == Graft(t0, e.key, b, inner, e) && table.marks == marks0[inner := ms]
  }

  ghost predicate SplitOf(t0: Tree, marks0: Marking, e: Entry, b: nat, inner: Node) {
    && Patricia(t0, |e.key|) && Distinct(t0) && b < |e.key| && inner !in t0.Nodes() && e !in t0.Entries()
    && MarksOK(t0, -1, marks0, t0.Entries()) && marks0.Keys == t0.InnerNodes()
  }

  lemma {:induction false} ListedIsAll(t: Tree, marks: Marking)
    ensures ListedIn(t, marks) == set n, a | n in t.InnerNodes() && n in marks && a in marks[n] :: a.e
  {
    if t.Inner? {
      ListedIsAll(t.left, marks);
      ListedIsAll(t.right, marks);
    }
  }

  /** The entries listed after the new node got `ms`. */
  lemma {:induction false} AllListedBetween(t0: Tree, marks0: Marking, e: Entry, b: nat, inner: Node, ms: seq<Annot>)
    requires SplitOf(t0, marks0, e, b, inner)
    ensures AllListed(marks0[inner := ms]) == ListedIn(t0, marks0) + Listed(ms)
  {
    hide Patricia, Distinct, MarksOK;
    ListedIsAll(t0, marks0);
    assert inner !in t0.InnerNodes() by { InnerIsNode(t0); }
    var marks := marks0[inner := ms];
    forall d | d in AllListed(marks) ensures d in ListedIn(t0, marks0) + Listed(ms) {
      var n: Node, a: Annot :| n in marks && a in marks[n] && a.e == d;
    }
    forall d | d in ListedIn(t0, marks0) + Listed(ms) ensures d in AllListed(marks) {
      if d in ListedIn(t0, marks0) {
        var n: Node, a: Annot :| n in t0.InnerNodes() && n in marks0 && a in marks0[n] && a.e == d;
        assert marks[n] == marks0[n];
      } else {
        var a :| a in ms && a.e == d;
        assert a in marks[inner];
      }
    }
  }

  lemma InnerIsNode(t: Tree)
    ensures t.InnerNodes() <= t.Nodes()
  {
  }

  /** The test of the promotion loop holds exactly for the routes the new node should list. */
  lemma {:induction false} PromoteTest(table: RouteTable, t0: Tree, marks0: Marking, e: Entry, b: nat, inner: Node,
                                       ms: seq<Annot>, q: nat)
    requires Between(table, t0, marks0, e, b, inner, ms) && StopAt(t0, e.key, b).Leaf?
    requires q < |StopAt(t0, e.key, b).chain|
    requires Promoting(StopAt(t0, e.key, b).chain, q, StopLo(t0, -1, e.key, b), b, ms)
    ensures var d := StopAt(t0, e.key, b).chain[q];
            && d in table.head.tree.Entries() && d.n in table.head.nodes
            && ((d.n.mask.Some? && d.n.b >= -1 - (b as int) && d.n.mklist == null)
                <==> (d.prefix.Net? && StopLo(t0, -1, e.key, b) < d.prefix.plen <= b))
  {
    hide *;
    BetweenMeans(table, t0, marks0, e, b, inner, ms);
    var c := StopAt(t0, e.key, b).chain;
    var d := c[q];
    StopInside(t0, e.key, b);
    StopEntry(t0, e.key, b, d);
    GraftKeys(t0, e.key, b, inner, e);
    StopChain(t0, e.key, b);
    RouteRead(table, d);
    NotYet(c, |e.key|, q, StopLo(t0, -1, e.key, b), b, ms);
    AllListedBetween(t0, marks0, e, b, inner, ms);
    if d.prefix.Net? {
      StopListed(t0, -1, e.key, b, marks0, t0.Entries(), d);
    }
  }

  lemma BetweenMeans(table: RouteTable, t0: Tree, marks0: Marking, e: Entry, b: nat, inner: Node, ms: seq<Annot>)
    requires Between(table, t0, marks0, e, b, inner, ms)
    ensures table.Loose() && |e.key| == 8 * table.head.len && SplitOf(t0, marks0, e, b, inner)
    ensures table.head.tree == Graft(t0, e.key, b, inner, e) && table.marks == marks0[inner := ms]
    ensures Patricia(t0, |e.key|) && Distinct(t0) && b < |e.key| && inner !in t0.Nodes() && e !in t0.Entries()
    ensures MarksOK(t0, -1, marks0, t0.Entries()) && marks0.Keys == t0.InnerNodes()
  {
    hide Patricia, Distinct, MarksOK, RouteTable.Loose;
  }

  lemma BetweenIs(table: RouteTable, t0: Tree, marks0: Marking, e: Entry, b: nat, inner: Node, ms: seq<Annot>)
    requires table.Loose() && |e.key| == 8 * table.head.len && SplitOf(t0, marks0, e, b, inner)
    requires table.head.tree == Graft(t0, e.key, b, inner, e) && table.marks == marks0[inner := ms]
    ensures Between(table, t0, marks0, e, b, inner, ms)
  {
  }

  lemma StopEntry(t: Tree, v: Key, b: nat, d: Entry)
    requires b < |v| && Patricia(t, |v|) && StopAt(t, v, b).Leaf? && d in StopAt(t, v, b).chain
    ensures d in StopAt(t, v, b).Entries()
  {
  }

  lemma {:induction false} StopChain(t: Tree, v: Key, b: nat)
    requires b < |v| && Patricia(t, |v|) && StopAt(t, v, b).Leaf?
    ensures ChainOK(StopAt(t, v, b).chain, |v|)
  {
    if t.Inner? && t.b < b { StopChain(Child(t, v), v, b); }
  }

  /** What a leaf records about its route, and when it is annotated. */
  lemma RouteRead(table: RouteTable, d: Entry)
    requires table.Loose() && d in table.head.tree.Entries()
    ensures d.n in table.head.nodes && (d.n.mask.Some? <==> d.prefix.Net?)
    ensures d.prefix.Net? ==> d.n.b == -1 - (d.prefix.plen as int)
    ensures d.prefix.Net? ==> (d.n.mklist != null <==> d in AllListed(table.marks))
  {
    hide AllListed, Tree.Entries, MaskIs, Head.Valid, RouteTable.ListsHold, MarksDistinct, ZeroKey, OneKey;
    assert table.RoutesHold();
  }

  lemma NotYet(c: seq<Entry>, w: nat, q: nat, lo: int, b: nat, ms: seq<Annot>)
    requires ChainOK(c, w) && q < |c| && Promoting(c, q, lo, b, ms)
    ensures c[q] !in Listed(ms)
  {
  }

  ghost function LastMark(ms: seq<Annot>): Mark? {
    if ms == [] then null else ms[|ms| - 1].m
  }

  ghost function NodeAt(c: seq<Entry>, q: nat): Node? {
    if q < |c| then c[q].n else null
  }

  lemma {:induction false} ChainRead(table: RouteTable, t0: Tree, marks0: Marking, e: Entry, b: nat, inner: Node,
                                     ms: seq<Annot>, q: nat)
    requires Between(table, t0, marks0, e, b, inner, ms) && StopAt(t0, e.key, b).Leaf?
    requires q < |StopAt(t0, e.key, b).chain|
    ensures StopAt(t0, e.key, b).chain[q].n.dupedkey == NodeAt(StopAt(t0, e.key, b).chain, q + 1)
    ensures inner in table.marks && table.marks[inner] == ms
  {
    hide *;
    BetweenMeans(table, t0, marks0, e, b, inner, ms);
    LooseMeans(table);
    NewPairLinks(table, t0, marks0, e, b, inner);
    table.head.ChainLinks(StopAt(t0, e.key, b), inner, q);
    NodeAtIs(StopAt(t0, e.key, b).chain, q + 1);
  }

  lemma NodeAtIs(c: seq<Entry>, q: nat)
    ensures NodeAt(c, q) == if q < |c| then c[q].n else null
  {
  }

  lemma LastIs(ms: seq<Annot>)
    ensures LastMark(ms) == (if ms == [] then null else ms[|ms| - 1].m) && MarkAt(ms, |ms|) == null
  {
  }

  lemma LastMarkIs(ms: seq<Annot>, a: Annot)
    ensures LastMark(ms + [a]) == a.m && WithAnnot(ms, |ms|, a) == ms + [a]
  {
  }

  /** One turn of the promotion loop over the leaves of a chain. */
  method PromoteStep(table: RouteTable, y: Node, inner: Node, prev: Mark?, bLeaf: int, ghost t0: Tree,
                     ghost marks0: Marking, ghost e: Entry, ghost b: nat, ghost ms: seq<Annot>, ghost q: nat)
    returns (last: Mark?, ghost ms': seq<Annot>)
    requires Between(table, t0, marks0, e, b, inner, ms) && StopAt(t0, e.key, b).Leaf?
    requires q < |StopAt(t0, e.key, b).chain| && y == StopAt(t0, e.key, b).chain[q].n && bLeaf == -1 - (b as int)
    requires Promoting(StopAt(t0, e.key, b).chain, q, StopLo(t0, -1, e.key, b), b, ms) && prev == LastMark(ms)
    modifies table`marks, table`markObjs, table.markObjs`next, table.head.nodes`mklist
    ensures Between(table, t0, marks0, e, b, inner, ms') && last == LastMark(ms')
    ensures Promoting(StopAt(t0, e.key, b).chain, q + 1, StopLo(t0, -1, e.key, b), b, ms')
    ensures table.markObjs >= old(table.markObjs) && fresh(table.markObjs - old(table.markObjs))
  {
    hide *;
    BetweenMeans(table, t0, marks0, e, b, inner, ms);
    PromoteTest(table, t0, marks0, e, b, inner, ms, q);
    ChainRead(table, t0, marks0, e, b, inner, ms, q);
    StopChain(t0, e.key, b);
    ghost var (c, lo) := (StopAt(t0, e.key, b).chain, StopLo(t0, -1, e.key, b));
    last, ms' := prev, ms;
    if y.mask.Some? && y.b >= bLeaf && y.mklist == null {
      LastIs(ms);
      last := Annotate(table, inner, y, prev, null, c[q], |ms|);
      KeptMeans(table);
      ghost var a := Annot(last, c[q]);
      LastMarkIs(ms, a);
      ms' := ms + [a];
      assert marks0[inner := ms][inner := ms'] == marks0[inner := ms'];
      BetweenIs(table, t0, marks0, e, b, inner, ms');
      PromoteTake(c, |e.key|, q, lo, b, ms, a);
    } else {
      PromoteSkip(c, |e.key|, q, lo, b, ms);
    }
  }

  /** Promote the routes of a leaf chain that apply at the new node and nowhere above it. */
  method PromoteChain(table: RouteTable, x: Node, inner: Node, bLeaf: int, ghost t0: Tree,
                      ghost marks0: Marking, ghost e: Entry, ghost b: nat)
    requires Between(table, t0, marks0, e, b, inner, []) && StopAt(t0, e.key, b).Leaf?
    requires x == NodeAt(StopAt(t0, e.key, b).chain, 0) && bLeaf == -1 - (b as int)
    modifies table`marks, table`markObjs, table.markObjs`next, table.head.nodes`mklist
    ensures table.Partial(t0.Entries())
    ensures table.markObjs >= old(table.markObjs) && fresh(table.markObjs - old(table.markObjs))
  {
    hide *;
    BetweenMeans(table, t0, marks0, e, b, inner, []);
    ghost var (c, lo) := (StopAt(t0, e.key, b).chain, StopLo(t0, -1, e.key, b));
    ghost var ms: seq<Annot> := [];
    ghost var q := 0;
    var last: Mark? := null;
    var y: Node? := x;
    PromoteNone(c, lo, b);
    LastIs(ms);
    NodeAtIs(c, 0);
    while y != null
      invariant Between(table, t0, marks0, e, b, inner, ms) && q <= |c| && y == NodeAt(c, q)
      invariant Promoting(c, q, lo, b, ms) && last == LastMark(ms)
      invariant table.markObjs >= old(table.markObjs) && fresh(table.markObjs - old(table.markObjs))
      decreases |c| - q
    {
      NodeAtIs(c, q);
      last, ms := PromoteStep(table, y, inner, last, bLeaf, t0, marks0, e, b, ms, q);
      ChainRead(table, t0, marks0, e, b, inner, ms, q);
      y := y.dupedkey;
      q := q + 1;
    }
    NodeAtIs(c, q);
    BetweenMeans(table, t0, marks0, e, b, inner, ms);
    PromotedChain(t0, marks0, e, b, inner, ms);
    PartialIs(table, t0.Entries());
  }

  lemma PromoteNone(c: seq<Entry>, lo: int, b: nat)
    ensures Promoting(c, 0, lo, b, [])
  {
    assert Promotable(c, 0, lo, b) == {};
  }

  // ---------- splitting the list of an internal node ----------

  /** The first `i` annotations stay, the others move to the new node. */
  ghost predicate Cut(ms: seq<Annot>, i: nat, b: nat) {
    && i <= |ms|
    && (forall k :: 0 <= k < |ms| ==> ms[k].e.prefix.Net?)
    && (forall k :: 0 <= k < i ==> ms[k].e.prefix.plen > b)
    && (forall k :: i <= k < |ms| ==> ms[k].e.prefix.plen <= b)
  }

  lemma CutFound(ms: seq<Annot>, i: nat, b: nat)
    requires i <= |ms| && Descending(ms)
    requires forall k :: 0 <= k < |ms| ==> ms[k].e.prefix.Net?
    requires forall k :: 0 <= k < i ==> ms[k].e.prefix.plen > b
    requires i < |ms| ==> ms[i].e.prefix.plen <= b
    ensures Cut(ms, i, b)
  {
  }

  lemma CutListed(ms: seq<Annot>, i: nat, b: nat, es: set<Entry>, lo: int, hi: nat)
    requires Descending(ms) && Cut(ms, i, b) && lo < b < hi && Listed(ms) == Liftable(es, lo, hi)
    ensures Listed(ms[i..]) == Liftable(es, lo, b) && Descending(ms[i..])
    ensures Listed(ms[..i]) == Liftable(es, b, hi) && Descending(ms[..i])
  {
    assert ms == ms[..i] + ms[i..];
    forall d | d in Liftable(es, lo, b) ensures d in Listed(ms[i..]) {
      assert d in Listed(ms);
      var a :| a in ms && a.e == d;
    }
    forall d | d in Liftable(es, b, hi) ensures d in Listed(ms[..i]) {
      assert d in Listed(ms);
      var a :| a in ms && a.e == d;
    }
    forall a | a in ms[i..] ensures a.e in Liftable(es, lo, b) { assert a in ms && a.e in Listed(ms); }
    forall a | a in ms[..i] ensures a.e in Liftable(es, b, hi) { assert a in ms && a.e in Listed(ms); }
  }

  lemma {:induction false} StopLoBelow(t: Tree, lo: int, v: Key, b: nat)
    requires b < |v| && Patricia(t, |v|) && lo < b
    ensures StopLo(t, lo, v, b) < b
    ensures StopAt(t, v, b).Inner? ==> b <= StopAt(t, v, b).b
  {
    if t.Inner? && t.b < b { StopLoBelow(Child(t, v), t.b, v, b); }
  }

  /** The list of the split node holds exactly the routes it should, in order. */
  lemma {:induction false} StopList(t0: Tree, marks0: Marking, e: Entry, b: nat, inner: Node)
    requires SplitOf(t0, marks0, e, b, inner) && StopAt(t0, e.key, b).Inner?
    ensures var x := StopAt(t0, e.key, b);
            && x.n in marks0 && x.n != inner && Descending(marks0[x.n])
            && Listed(marks0[x.n]) == Liftable(x.Entries(), StopLo(t0, -1, e.key, b), x.b)
            && StopLo(t0, -1, e.key, b) < b <= x.b
            && Listed(marks0[x.n]) <= t0.Entries()
            && forall k :: 0 <= k < |marks0[x.n]| ==> marks0[x.n][k].e.prefix.Net?
  {
    hide Patricia, Distinct;
    var x := StopAt(t0, e.key, b);
    StopMarks(t0, -1, e.key, b, marks0, t0.Entries());
    StopLoBelow(t0, -1, e.key, b);
    StopInside(t0, e.key, b);
    assert x.Entries() * t0.Entries() == x.Entries();
    assert x.n in x.InnerNodes();
    InnerIsNode(t0);
    forall k | 0 <= k < |marks0[x.n]| ensures marks0[x.n][k].e.prefix.Net? {
      assert marks0[x.n][k].e in Listed(marks0[x.n]);
    }
  }

  ghost function CutMarks(marks: Marking, x: Node, inner: Node, i: nat): Marking
    requires x in marks && i <= |marks[x]|
  {
    marks[inner := marks[x][i..]][x := marks[x][..i]]
  }

  /** The split completes the annotations of the grown tree. */
  lemma {:induction false} PromotedList(t0: Tree, marks0: Marking, e: Entry, b: nat, inner: Node, i: nat)
    requires SplitOf(t0, marks0, e, b, inner) && StopAt(t0, e.key, b).Inner?
    requires StopAt(t0, e.key, b).n in marks0 && Cut(marks0[StopAt(t0, e.key, b).n], i, b)
    requires b != StopAt(t0, e.key, b).b
    ensures MarksOK(Graft(t0, e.key, b, inner, e), -1, CutMarks(marks0, StopAt(t0, e.key, b).n, inner, i), t0.Entries())
  {
    hide Patricia, Distinct, MarksOK;
    var x := StopAt(t0, e.key, b);
    StopList(t0, marks0, e, b, inner);
    CutListed(marks0[x.n], i, b, x.Entries(), StopLo(t0, -1, e.key, b), x.b);
    StopInside(t0, e.key, b);
    assert x.Entries() * t0.Entries() == x.Entries();
    GraftMarks(t0, e.key, b, inner, e, -1, marks0, CutMarks(marks0, x.n, inner, i), t0.Entries());
  }

  /** What the skip loop reads at position `k` of the split node's list. */
  lemma {:induction false} SkipRead(table: RouteTable, t0: Tree, marks0: Marking, e: Entry, b: nat, inner: Node, k: nat)
    requires Between(table, t0, marks0, e, b, inner, []) && StopAt(t0, e.key, b).Inner?
    ensures StopAt(t0, e.key, b).n in marks0
    ensures var (x, ms) := (StopAt(t0, e.key, b).n, marks0[StopAt(t0, e.key, b).n]);
            && x.mklist == MarkAt(ms, 0)
            && (k < |ms| ==> ms[k].e.prefix.Net? && ms[k].m.b == -1 - (ms[k].e.prefix.plen as int) && ms[k].m.next == MarkAt(ms, k + 1))
  {
    hide *;
    BetweenMeans(table, t0, marks0, e, b, inner, []);
    StopList(t0, marks0, e, b, inner);
    LooseMeans(table);
    GraftKeys(t0, e.key, b, inner, e);
    var ms := marks0[StopAt(t0, e.key, b).n];
    FirstRead(table, StopAt(t0, e.key, b).n);
    if k < |ms| {
      ListedAt(ms, k);
      RouteRead(table, ms[k].e);
      ListRead(table, StopAt(t0, e.key, b).n, k);
    }
  }

  lemma ListedAt(ms: seq<Annot>, k: nat)
    requires k < |ms|
    ensures ms[k].e in Listed(ms)
  {
  }

  lemma FirstRead(table: RouteTable, x: Node)
    requires table.ListsHold() && x in table.marks
    ensures x.mklist == MarkAt(table.marks[x], 0)
  {
    assert ListHolds(x.mklist, table.marks[x]);
  }

  lemma ListRead(table: RouteTable, x: Node, k: nat)
    requires table.ListsHold() && x in table.marks && k < |table.marks[x]|
    ensures var a := table.marks[x][k];
            && a.m.b == a.e.n.b && a.m.next == MarkAt(table.marks[x], k + 1)
  {
    assert ListHolds(x.mklist, table.marks[x]);
  }

  /** Skip the annotations whose index is beyond the new node. */
  method FindCut(table: RouteTable, x: Node, bLeaf: int, ghost t0: Tree, ghost marks0: Marking,
                 ghost e: Entry, ghost b: nat, ghost inner: Node) returns (prev: Mark?, m: Mark?, ghost i: nat)
    requires Between(table, t0, marks0, e, b, inner, []) && StopAt(t0, e.key, b).Inner?
    requires x == StopAt(t0, e.key, b).n && bLeaf == -1 - (b as int)
    ensures x in marks0 && Cut(marks0[x], i, b) && m == MarkAt(marks0[x], i)
    ensures if i == 0 then prev == null else prev == marks0[x][i - 1].m
  {
    hide *;
    BetweenMeans(table, t0, marks0, e, b, inner, []);
    StopList(t0, marks0, e, b, inner);
    ghost var ms := marks0[x];
    SkipRead(table, t0, marks0, e, b, inner, 0);
    prev, m, i := null, x.mklist, 0;
    MarkAtMeans(ms, 0);
    while m != null && m.b < bLeaf
      invariant i <= |ms| && m == MarkAt(ms, i)
      invariant if i == 0 then prev == null else prev == ms[i - 1].m
      invariant forall k :: 0 <= k < i ==> ms[k].e.prefix.Net? && ms[k].e.prefix.plen > b
      decreases |ms| - i
    {
      MarkAtMeans(ms, i);
      SkipRead(table, t0, marks0, e, b, inner, i);
      prev, m := m, m.next;
      i := i + 1;
      MarkAtMeans(ms, i);
    }
    MarkAtMeans(ms, i);
    SkipRead(table, t0, marks0, e, b, inner, i);
    CutFound(ms, i, b);
  }

  lemma CutDistinct(marks: Marking, x: Node, inner: Node, i: nat)
    requires MarksDistinct(marks) && x in marks && i <= |marks[x]| && x != inner
    requires inner in marks && marks[inner] == []
    ensures MarksDistinct(CutMarks(marks, x, inner, i))
  {
    var marks': Marking := CutMarks(marks, x, inner, i);
    forall n: Node, n': Node, p, p' | n in marks' && n' in marks' && 0 <= p < |marks'[n]| && 0 <= p' < |marks'[n']|
                          && marks'[n][p].m == marks'[n'][p'].m
      ensures n == n' && p == p'
    {
      var (m, k) := if n == inner then (x, p + i) else (n, p);
      var (m', k') := if n' == inner then (x, p' + i) else (n', p');
      assert marks[m][k] == marks'[n][p] && marks[m'][k'] == marks'[n'][p'];
    }
  }

  lemma CutAllListed(marks: Marking, x: Node, inner: Node, i: nat)
    requires x in marks && i <= |marks[x]| && x != inner && inner in marks && marks[inner] == []
    ensures AllListed(CutMarks(marks, x, inner, i)) == AllListed(marks)
  {
    var marks': Marking := CutMarks(marks, x, inner, i);
    forall d | d in AllListed(marks) ensures d in AllListed(marks') {
      var n: Node, a: Annot :| n in marks && a in marks[n] && a.e == d;
      if n == x {
        assert marks[x] == marks[x][..i] + marks[x][i..];
        assert a in marks'[x] || a in marks'[inner];
      } else {
        assert marks'[n] == marks[n];
      }
    }
    forall d | d in AllListed(marks') ensures d in AllListed(marks) {
      var n: Node, a: Annot :| n in marks' && a in marks'[n] && a.e == d;
      if n == x || n == inner { assert a in marks[x]; } else { assert a in marks[n]; }
    }
  }

  lemma MarkAtCut(ms: seq<Annot>, i: nat, k: nat)
    requires i <= |ms|
    ensures MarkAt(ms[i..], k) == MarkAt(ms, i + k)
    ensures k < i ==> MarkAt(ms[..i], k) == MarkAt(ms, k)
    ensures k >= i ==> MarkAt(ms[..i], k) == null
  {
  }

  /** The part handed to the new node is linked as it was. */
  twostate lemma TailHolds(ms: seq<Annot>, new i: nat, new first: Mark?)
    requires i <= |ms| && first == MarkAt(ms, i)
    requires forall k :: 0 <= k < |ms| ==> old(allocated(ms[k].m)) && old(allocated(ms[k].e.n)) && SameLinks(ms[k].e.n)
    requires forall k :: 0 <= k < |ms| ==> old(MarkHolds(ms[k].m, ms[k].e, MarkAt(ms, k + 1)))
    requires forall k :: i <= k < |ms| ==> SameMark(ms[k].m)
    ensures ListHolds(first, ms[i..])
  {
    hide MarkHolds, SameLinks, SameMark, MarkAt;
    MarkAtCut(ms, i, 0);
    forall k | 0 <= k < |ms[i..]| ensures MarkHolds(ms[i..][k].m, ms[i..][k].e, MarkAt(ms[i..], k + 1)) {
      MarkAtCut(ms, i, k + 1);
      MarkStays(ms[i + k], MarkAt(ms, i + k + 1));
    }
  }

  /** The part that stays ends at the cut. */
  twostate lemma FrontHolds(ms: seq<Annot>, new i: nat, new first: Mark?)
    requires i <= |ms| && first == if i == 0 then null else MarkAt(ms, 0)
    requires forall k :: 0 <= k < |ms| ==> old(allocated(ms[k].m)) && old(allocated(ms[k].e.n)) && SameLinks(ms[k].e.n)
    requires forall k :: 0 <= k < |ms| ==> old(MarkHolds(ms[k].m, ms[k].e, MarkAt(ms, k + 1)))
    requires forall k :: 0 <= k < i - 1 ==> SameMark(ms[k].m)
    requires i > 0 ==> PrevLinked(ms[i - 1].m, null)
    ensures ListHolds(first, ms[..i])
  {
    hide MarkHolds, SameLinks, SameMark, PrevLinked, MarkAt;
    MarkAtCut(ms, i, 0);
    forall k | 0 <= k < i ensures MarkHolds(ms[..i][k].m, ms[..i][k].e, MarkAt(ms[..i], k + 1)) {
      MarkAtCut(ms, i, k + 1);
      if k == i - 1 { MarkRelinked(ms[k], MarkAt(ms, k + 1), null); } else { MarkStays(ms[k], MarkAt(ms, k + 1)); }
    }
  }

  /** Leaves keep their annotation pointer, and the set of listed routes is unchanged. */
  twostate lemma AnnotatedStays(table: RouteTable, new x: Node, new inner: Node)
    requires old(table.Annotated()) && table.head.tree == old(table.head.tree) && table.head.nodes == old(table.head.nodes)
    requires x in table.head.tree.InnerNodes() && inner in table.head.tree.InnerNodes() && Distinct(table.head.tree)
    requires AllListed(table.marks) == AllListed(old(table.marks))
    requires forall y :: y in table.head.nodes && y != x && y != inner ==> y.mklist == old(y.mklist)
    ensures table.Annotated()
  {
    hide AllListed, Distinct, Tree.Entries, Tree.InnerNodes, Tree.LeafNodes;
    InnerNotLeaf(table.head.tree, x);
    InnerNotLeaf(table.head.tree, inner);
    forall d | d in table.head.tree.Entries() && d.prefix.Net? && d.n in table.head.nodes
      ensures d.n.mklist != null <==> d in AllListed(table.marks)
    {
      EntryNodeIn(table.head.tree, d);
      assert d in old(table.head.tree.Entries());
    }
  }

  /** What the cut changed. */
  twostate predicate WasCut(table: RouteTable, new x: Node, new inner: Node, new i: nat, new prev: Mark?, new m: Mark?)
    reads table, table.head, table.head.nodes, table.markObjs, prev, x, inner
  {
    && LinksKept(table) && x in old(table.marks) && inner in old(table.marks) && x != inner
    && i <= |old(table.marks)[x]| && old(table.marks)[inner] == []
    && table.marks == CutMarks(old(table.marks), x, inner, i) && table.markObjs == old(table.markObjs)
    && m == MarkAt(old(table.marks)[x], i) && inner.mklist == m
    && (if i == 0 then prev == null else prev == old(table.marks)[x][i - 1].m)
    && x.mklist == (if i == 0 then null else old(x.mklist))
    && (forall a :: a in table.markObjs && a != prev ==> SameMark(a))
    && (prev != null ==> old(allocated(prev)) && PrevLinked(prev, null))
    && (forall y :: y in table.head.nodes && y != x && y != inner ==> y.mklist == old(y.mklist))
  }

  twostate lemma CutLists(table: RouteTable, new x: Node, new inner: Node, new i: nat, new prev: Mark?, new m: Mark?)
    requires old(table.ListsHold()) && MarksDistinct(old(table.marks)) && WasCut(table, x, inner, i, prev, m)
    ensures ListHolds(inner.mklist, table.marks[inner]) && ListHolds(x.mklist, table.marks[x])
  {
    hide MarksDistinct, Tree.InnerNodes, MarkHolds, SameMark, SameLinks, PrevLinked;
    OneList(old(table.marks), x, i, prev);
    ghost var ms := old(table.marks)[x];
    assert old(ListHolds(x.mklist, table.marks[x]));
    forall k | 0 <= k < |ms|
      ensures old(allocated(ms[k].m)) && old(allocated(ms[k].e.n)) && SameLinks(ms[k].e.n)
      ensures ms[k].m in table.markObjs
    {
      assert ms[k] in ms;
    }
    TailHolds(ms, i, m);
    FrontHolds(ms, i, x.mklist);
  }

  twostate lemma CutListsHold(table: RouteTable, new x: Node, new inner: Node, new i: nat, new prev: Mark?, new m: Mark?)
    requires old(table.Loose()) && WasCut(table, x, inner, i, prev, m)
    ensures table.ListsHold()
  {
    hide Head.Valid, AllListed, MarksDistinct, MarksOK, Distinct, Tree.Entries, Tree.InnerNodes, ListHolds, RouteTable.Annotated;
    hide RouteTable.RoutesHold, RouteTable.Loose, SameMark, SameLinks, PrevLinked, MarkAt;
    LooseBefore(table);
    ghost var marks := old(table.marks);
    OneList(marks, x, i, prev);
    CutLists(table, x, inner, i, prev, m);
    ListsStay(table, {x, inner}, if prev == null then {} else {prev});
    forall n, b | n in table.marks && b in table.marks[n] ensures b.m in table.markObjs && b.e.n in table.head.nodes {
      if n == x || n == inner { assert b in marks[x]; }
    }
  }

  twostate lemma CutDone(table: RouteTable, new x: Node, new inner: Node, new i: nat, new prev: Mark?, new m: Mark?)
    requires old(table.Loose()) && WasCut(table, x, inner, i, prev, m)
    ensures table.Loose()
  {
    hide Head.Valid, AllListed, MarksDistinct, MarksOK, Distinct, Tree.Entries, Tree.InnerNodes, ListHolds, RouteTable.Annotated;
    hide RouteTable.RoutesHold, RouteTable.Loose, SameMark, SameLinks, PrevLinked, MarkAt, RouteTable.ListsHold;
    LooseBefore(table);
    RoutesStay(table);
    ghost var marks := old(table.marks);
    CutListsHold(table, x, inner, i, prev, m);
    CutDistinct(marks, x, inner, i);
    CutAllListed(marks, x, inner, i);
    AnnotatedStays(table, x, inner);
    LooseIs(table);
  }

  /** Cut the list of `x` before `m` and hand the rest to `inner`. */
  method CutList(table: RouteTable, x: Node, inner: Node, prev: Mark?, m: Mark?, ghost i: nat)
    requires x in table.marks && i <= |table.marks[x]| && x in table.head.nodes && inner in table.head.nodes
    requires inner in table.marks && x != inner && table.marks[inner] == [] && m == MarkAt(table.marks[x], i)
    requires if i == 0 then prev == null else prev == table.marks[x][i - 1].m && prev in table.markObjs
    modifies table`marks, table.markObjs`next, table.head.nodes`mklist
    ensures WasCut(table, x, inner, i, prev, m)
  {
    hide MarkAt;
    inner.mklist := m;
    if prev == null { x.mklist := null; } else { prev.next := null; }
    table.marks := CutMarks(table.marks, x, inner, i);
  }

  lemma {:induction false} CutBefore(table: RouteTable, t0: Tree, marks0: Marking, e: Entry, b: nat, inner: Node, i: nat)
    requires Between(table, t0, marks0, e, b, inner, []) && StopAt(t0, e.key, b).Inner?
    requires StopAt(t0, e.key, b).n in marks0 && i <= |marks0[StopAt(t0, e.key, b).n]|
    ensures var x := StopAt(t0, e.key, b).n;
            && x in table.marks && x in table.head.nodes && inner in table.head.nodes && inner in table.marks && x != inner
            && table.marks[inner] == [] && table.marks[x] == marks0[x] && table.head.Shape()
            && (i > 0 ==> marks0[x][i - 1].m in table.markObjs)
            && CutMarks(table.marks, x, inner, i) == CutMarks(marks0, x, inner, i)
    ensures b != StopAt(t0, e.key, b).b
  {
    hide *;
    BetweenMeans(table, t0, marks0, e, b, inner, []);
    LooseMeans(table);
    ListsMean(table);
    StopList(t0, marks0, e, b, inner);
    NewPairLinks(table, t0, marks0, e, b, inner);
    var x := StopAt(t0, e.key, b).n;
    assert x in table.marks && inner in table.marks;
    CutSame(marks0, x, inner, i);
    assert i > 0 ==> marks0[x][i - 1] in table.marks[x];
  }

  lemma CutSame(marks: Marking, x: Node, inner: Node, i: nat)
    requires x in marks && x != inner && i <= |marks[x]|
    ensures CutMarks(marks[inner := []], x, inner, i) == CutMarks(marks, x, inner, i)
  {
  }

  /** Hand the annotations of the split node that apply at the new node to the new node. */
  method PromoteList(table: RouteTable, x: Node, inner: Node, bLeaf: int, ghost t0: Tree,
                     ghost marks0: Marking, ghost e: Entry, ghost b: nat)
    requires Between(table, t0, marks0, e, b, inner, []) && StopAt(t0, e.key, b).Inner?
    requires x == StopAt(t0, e.key, b).n && bLeaf == -1 - (b as int)
    modifies table`marks, table.markObjs`next, table.head.nodes`mklist
    ensures table.Partial(t0.Entries())
  {
    hide *;
    BetweenMeans(table, t0, marks0, e, b, inner, []);
    var prev, m, i := FindCut(table, x, bLeaf, t0, marks0, e, b, inner);
    CutMeans(marks0[x], i, b);
    CutBefore(table, t0, marks0, e, b, inner, i);
    label Uncut:
    CutList(table, x, inner, prev, m, i);
    CutDone@Uncut(table, x, inner, i, prev, m);
    WasCutMeans@Uncut(table, x, inner, i, prev, m);
    PromotedList(t0, marks0, e, b, inner, i);
    PartialIs(table, t0.Entries());
  }

  lemma CutMeans(ms: seq<Annot>, i: nat, b: nat)
    requires Cut(ms, i, b)
    ensures i <= |ms|
  {
  }

  twostate lemma WasCutMeans(table: RouteTable, new x: Node, new inner: Node, new i: nat, new prev: Mark?, new m: Mark?)
    requires WasCut(table, x, inner, i, prev, m)
    ensures table.head.tree == old(table.head.tree) && x in old(table.marks) && i <= |old(table.marks)[x]|
    ensures table.marks == CutMarks(old(table.marks), x, inner, i)
  {
  }

  /** A split node with an empty list has nothing to hand over. */
  lemma {:induction false} PromoteEmpty(table: RouteTable, t0: Tree, marks0: Marking, e: Entry, b: nat, inner: Node)
    requires Between(table, t0, marks0, e, b, inner, []) && StopAt(t0, e.key, b).Inner?
    requires StopAt(t0, e.key, b).n.mklist == null
    ensures table.Partial(t0.Entries())
  {
    hide *;
    BetweenMeans(table, t0, marks0, e, b, inner, []);
    StopList(t0, marks0, e, b, inner);
    var x := StopAt(t0, e.key, b).n;
    SkipRead(table, t0, marks0, e, b, inner, 0);
    MarkAtMeans(marks0[x], 0);
    CutFound(marks0[x], 0, b);
    CutBefore(table, t0, marks0, e, b, inner, 0);
    PromotedList(t0, marks0, e, b, inner, 0);
    CutNone(table.marks, x, inner);
    PartialIs(table, t0.Entries());
  }

  lemma CutNone(marks: Marking, x: Node, inner: Node)
    requires x in marks && inner in marks && marks[x] == [] && marks[inner] == []
    ensures CutMarks(marks, x, inner, 0) == marks
  {
  }

  lemma GrownMeans(table: RouteTable, t0: Tree, marks0: Marking, e: Entry, b: nat, inner: Node)
    requires Grown(table, t0, marks0, e, b, inner)
    ensures Between(table, t0, marks0, e, b, inner, []) && Patricia(t0, |e.key|) && b < |e.key|
    ensures table.Loose() && |e.key| == 8 * table.head.len && table.head.tree == Graft(t0, e.key, b, inner, e)
  {
    hide Patricia, Distinct, MarksOK, RouteTable.Loose;
  }

  /** Promote general routes from below the new internal node. */
  method Promote(table: RouteTable, leaf: Node, ghost inner: Node, ghost t0: Tree, ghost marks0: Marking,
                 ghost e: Entry, ghost b: nat)
    requires Grown(table, t0, marks0, e, b, inner) && e.n == leaf
    modifies table`marks, table`markObjs, table.markObjs`next, table.head.nodes`mklist
    ensures table.Partial(t0.Entries())
    ensures table.markObjs >= old(table.markObjs) && fresh(table.markObjs - old(table.markObjs))
  {
    hide *;
    GrownMeans(table, t0, marks0, e, b, inner);
    LooseMeans(table);
    NewPairLinks(table, t0, marks0, e, b, inner);
    ghost var sx := StopAt(t0, e.key, b);
    TopIs(sx);
    if sx.Leaf? { NodeAtIs(sx.chain, 0); }
    var t: Node := leaf.p;
    var bLeaf := -1 - t.b;
    var x: Node := if t.r == leaf then t.l else t.r;
    if x.b < 0 {
      PromoteChain(table, x, t, bLeaf, t0, marks0, e, b);
    } else if x.mklist != null {
      PromoteList(table, x, t, bLeaf, t0, marks0, e, b);
    } else {
      PromoteEmpty(table, t0, marks0, e, b, inner);
    }
  }

  // ---------- squid_rn_addroute ----------

  /** The prefix a netmask argument stands for: ones that end inside the skipped bytes mean every address. */
  ghost function PrefixOf(mask: Option<seq<Byte>>, off: nat, p: nat): Prefix {
    if mask.None? then Host else Net(if p <= 8 * Skip(off / 8) then 0 else p)
  }

  /** The route an addroute call asks for. */
  ghost function RouteOf(off: nat, v: seq<Byte>, mask: Option<seq<Byte>>, p: nat, leaf: Node): Entry {
    Entry(leaf, Bits(v, off), PrefixOf(mask, off, p), false)
  }

  /** What the caller passes: a full-length key, masked already, and no mask or a contiguous one with `p` ones. */
  ghost predicate CallArg(len: nat, off: nat, v: seq<Byte>, mask: Option<seq<Byte>>, p: nat) {
    && |v| == len && v != [] && v[0] == len && p <= 8 * len
    && (mask.Some? ==>
          && mask.value != [] && mask.value[0] <= |mask.value| && p <= 8 * (mask.value[0] as int)
          && Contiguous(mask.value, Skip(off / 8), p))
    && (PrefixOf(mask, off, p).Net? ==> ZeroFrom(Bits(v, off), PrefixOf(mask, off, p).plen))
  }

  /** The mask table and the route table share no nodes, and masks are stored at the width routes expect. */
  ghost predicate Apart(table: RouteTable, masks: MaskTable)
    reads table.head, masks.head
  {
    && table.head != masks.head && table.head.nodes !! masks.head.nodes && table.maskLen == masks.head.len
  }

  ghost predicate IsStored(t: Tree, e: Entry) {
    exists d :: d in t.Entries() && d.key == e.key && d.prefix == e.prefix
  }

  /** Enter the netmask, as the routes refer to it. */
  method InternMask(table: RouteTable, masks: MaskTable, v: seq<Byte>, mask: Option<seq<Byte>>, leaf: Node, ghost p: nat)
    returns (m: Option<seq<Byte>>, bLeaf: int, normal: bool)
    requires table.Valid() && masks.Valid() && Apart(table, masks) && CallArg(table.head.len, table.head.off, v, mask, p)
    modifies masks`lastZeroed, masks.buf, masks.head`tree, masks.head`nodes
    modifies masks.head.nodes`l, masks.head.nodes`r, masks.head.nodes`p
    ensures masks.Valid() && table.Valid() && Apart(table, masks) && table.head.tree == old(table.head.tree)
    ensures old(masks.head.nodes) <= masks.head.nodes && fresh(masks.head.nodes - old(masks.head.nodes))
    ensures RouteArg(table, v, m, bLeaf, RouteOf(table.head.off, v, mask, p, leaf))
  {
    hide MaskTable.Valid, RouteTable.Valid, Bits, ZeroFrom, MaskIs, Contiguous, NormalFlag;
    assert |Bits(v, table.head.off)| == 8 * |v|;
    m, bLeaf, normal := None, 0, false;
    if mask.Some? {
      MaskWidth(table);
      var x := masks.AddMask(mask.value, false, table.head.off / 8, p);
      m, bLeaf, normal := Some(x.key), x.b, x.normal;
    }
  }

  lemma MaskWidth(table: RouteTable)
    requires table.Valid()
    ensures table.head.len <= table.maskLen && 8 <= table.head.off < 8 * table.head.len
  {
    hide MarksOK, Patricia, Distinct, RouteHolds, MarksDistinct, ListHolds, ImageOf;
  }

  /** The new key: promote, then list the route. */
  method AddNew(table: RouteTable, mask: Option<seq<Byte>>, bLeaf: int, leaf: Node, ghost inner: Node, ghost t0: Tree,
                ghost marks0: Marking, ghost e: Entry, ghost b: nat)
    requires Grown(table, t0, marks0, e, b, inner) && e.n == leaf && MaskArg(table, mask, bLeaf, e.prefix)
    modifies table`marks, table`markObjs, table.markObjs`next, table.head.nodes`mklist
    ensures table.Valid() && table.head.tree.Entries() == t0.Entries() + {e}
    ensures table.markObjs >= old(table.markObjs) && fresh(table.markObjs - old(table.markObjs))
  {
    hide *;
    GrownMeans(table, t0, marks0, e, b, inner);
    BetweenMeans(table, t0, marks0, e, b, inner, []);
    LooseMeans(table);
    NewPairLinks(table, t0, marks0, e, b, inner);
    GraftKeys(t0, e.key, b, inner, e);
    ChainIs(table, e.key);
    Promote(table, leaf, inner, t0, marks0, e, b);
    Lift(table, mask, bLeaf, leaf, leaf, t0.Entries(), e);
    ValidIs(table);
  }

  lemma ValidIs(table: RouteTable)
    requires table.Partial(table.head.tree.Entries())
    ensures table.Valid()
  {
  }

  /** Two stored routes with the same key and prefix are one route. */
  lemma {:induction false} OnlyOneIn(t: Tree, w: nat, t0: Tree, e: Entry)
    requires Patricia(t, w) && t.Entries() == t0.Entries() + {e} && e !in t0.Entries() && |e.key| == w
    ensures !IsStored(t0, e)
  {
    hide Patricia, Tree.Entries;
    if d :| d in t0.Entries() && d.key == e.key && d.prefix == e.prefix {
      SameRoute(t, w, e, d);
    }
  }

  lemma {:induction false} OnlyOne(table: RouteTable, t0: Tree, e: Entry)
    requires table.Valid() && table.head.tree.Entries() == t0.Entries() + {e} && e !in t0.Entries()
    requires |e.key| == 8 * table.head.len
    ensures !IsStored(t0, e)
  {
    hide *;
    ValidMeans(table);
    OnlyOneIn(table.head.tree, 8 * table.head.len, t0, e);
  }

  lemma StoredIs(t: Tree, e: Entry)
    requires exists d :: d in t.Entries() && d.key == e.key && d.prefix == e.prefix
    ensures IsStored(t, e)
  {
  }

  lemma ArgMask(table: RouteTable, v: seq<Byte>, mask: Option<seq<Byte>>, bLeaf: int, e: Entry)
    requires RouteArg(table, v, mask, bLeaf, e)
    ensures MaskArg(table, mask, bLeaf, e.prefix) && |e.key| == 8 * table.head.len
  {
  }

  /** The stored-key case: join the chain, then list the route. */
  method AddSame(table: RouteTable, v: seq<Byte>, mask: Option<seq<Byte>>, bLeaf: int, normal: bool,
                 leaf: Node, saved: Node, ghost e: Entry) returns (ok: bool)
    requires table.Valid() && RouteArg(table, v, mask, bLeaf, e) && FoundKey(table.head.tree, e.key) == e.key
    requires saved == table.Chain(e.key)[0].n && leaf !in table.head.nodes && e.n == leaf && Blank(leaf)
    modifies table.head`tree, table.head`nodes, table`marks, table`markObjs, table.markObjs`next
    modifies table.head.nodes`l, table.head.nodes`r, table.head.nodes`dupedkey, table.head.nodes`mklist
    modifies leaf`b, leaf`key, leaf`mask, leaf`normal, leaf`p, leaf`dupedkey, leaf`mklist
    ensures table.Valid() && (!ok ==> table.head.nodes == old(table.head.nodes))
    ensures ok ==> table.head.nodes == old(table.head.nodes) + {leaf}
    ensures table.markObjs >= old(table.markObjs) && fresh(table.markObjs - old(table.markObjs))
    ensures ok <==> !IsStored(old(table.head.tree), e)
    ensures table.head.tree.Entries() == old(table.head.tree.Entries()) + (if ok then {e} else {})
  {
    hide *;
    ghost var t0 := table.head.tree;
    ArgMask(table, v, mask, bLeaf, e);
    var first;
    ok, first := Join(table, v, mask, bLeaf, normal, leaf, saved, e);
    if !ok {
      StoredIs(t0, e);
      return;
    }
    Lift(table, mask, bLeaf, leaf, first, t0.Entries(), e);
    ValidIs(table);
    OnlyOne(table, t0, e);
  }

  /** The rest of squid_rn_addroute, once the mask is interned. */
  method AddInterned(table: RouteTable, v: seq<Byte>, m: Option<seq<Byte>>, bLeaf: int, normal: bool,
                     leaf: Node, inner: Node, ghost e: Entry) returns (ok: bool)
    requires table.Valid() && RouteArg(table, v, m, bLeaf, e) && e.n == leaf && Blank(leaf) && Blank(inner)
    requires leaf != inner && leaf !in table.head.nodes && inner !in table.head.nodes
    modifies table.head`tree, table.head`nodes, table`marks, table`markObjs, table.markObjs`next
    modifies table.head.nodes`l, table.head.nodes`r, table.head.nodes`p, table.head.nodes`dupedkey, table.head.nodes`mklist
    modifies leaf, inner
    ensures table.Valid() && (ok <==> !IsStored(old(table.head.tree), e))
    ensures table.head.tree.Entries() == old(table.head.tree.Entries()) + (if ok then {e} else {})
    ensures table.head.nodes <= old(table.head.nodes) + {leaf, inner}
    ensures table.markObjs >= old(table.markObjs) && fresh(table.markObjs - old(table.markObjs))
  {
    hide *;
    ghost var t0 := table.head.tree;
    ArgMask(table, v, m, bLeaf, e);
    ValidMeans(table);
    ghost var marks0 := table.marks;
    var x, dup, b := StoreKey(table, v, m, bLeaf, normal, leaf, inner, e);
    if dup {
      ChainOf(table, e.key);
      ok := AddSame(table, v, m, bLeaf, normal, leaf, x, e);
    } else {
      GrownNew(table, t0, marks0, e, b, inner);
      AddNew(table, m, bLeaf, leaf, inner, t0, marks0, e, b);
      OnlyOne(table, t0, e);
      ok := true;
    }
  }

  /**
   squid_rn_addroute. The route is refused exactly when one with the same key and prefix is stored;
   otherwise the table holds one route more, and its annotations are again exact.
   */
  method AddRoute(table: RouteTable, masks: MaskTable, v: seq<Byte>, mask: Option<seq<Byte>>,
                  leaf: Node, inner: Node, ghost p: nat) returns (r: Node?)
    requires table.Valid() && masks.Valid() && Apart(table, masks) && CallArg(table.head.len, table.head.off, v, mask, p)
    requires leaf != inner && Blank(leaf) && Blank(inner) && leaf !in table.head.nodes && inner !in table.head.nodes
    requires leaf !in masks.head.nodes && inner !in masks.head.nodes
    modifies masks`lastZeroed, masks.buf, masks.head`tree, masks.head`nodes
    modifies masks.head.nodes`l, masks.head.nodes`r, masks.head.nodes`p
    modifies table.head`tree, table.head`nodes, table`marks, table`markObjs, table.markObjs`next
    modifies table.head.nodes`l, table.head.nodes`r, table.head.nodes`p, table.head.nodes`dupedkey, table.head.nodes`mklist
    modifies leaf, inner
    ensures table.Valid() && masks.Valid() && Apart(table, masks)
    ensures r == null <==> IsStored(old(table.head.tree), RouteOf(table.head.off, v, mask, p, leaf))
    ensures r != null ==> r == leaf
    ensures table.head.tree.Entries() ==
            old(table.head.tree.Entries()) + (if r == null then {} else {RouteOf(table.head.off, v, mask, p, leaf)})
    ensures table.head.nodes <= old(table.head.nodes) + {leaf, inner}
    ensures table.markObjs >= old(table.markObjs) && fresh(table.markObjs - old(table.markObjs))
    ensures masks.head.nodes >= old(masks.head.nodes) && fresh(masks.head.nodes - old(masks.head.nodes))
  {
    hide *;
    ghost var e := RouteOf(table.head.off, v, mask, p, leaf);
    RouteNode(table.head.off, v, mask, p, leaf);
    var m, bLeaf, normal := InternMask(table, masks, v, mask, leaf, p);
    ApartMeans(table, masks);
    var ok := AddInterned(table, v, m, bLeaf, normal, leaf, inner, e);
    MasksApart(table, masks);
    r := if ok then leaf else null;
  }

  lemma RouteNode(off: nat, v: seq<Byte>, mask: Option<seq<Byte>>, p: nat, leaf: Node)
    ensures RouteOf(off, v, mask, p, leaf).n == leaf
  {
  }

  lemma ApartMeans(table: RouteTable, masks: MaskTable)
    requires Apart(table, masks)
    ensures table.head != masks.head && table.head.nodes !! masks.head.nodes && table.maskLen == masks.head.len
  {
  }

  lemma MasksApart(table: RouteTable, masks: MaskTable)
    requires table.head != masks.head && table.head.nodes !! masks.head.nodes && table.maskLen == masks.head.len
    ensures Apart(table, masks)
  {
  }

  lemma ChainOf(table: RouteTable, k: Key)
    requires table.Valid() && |k| == 8 * table.head.len
    ensures table.head.Shape() && table.Chain(k) == Found(table.head.tree, k).chain
  {
    hide Patricia, Distinct, MarksOK, ImageOf, Holds, RouteHolds, ListHolds;
  }

  lemma GrownNew(table: RouteTable, t0: Tree, marks0: Marking, e: Entry, b: nat, inner: Node)
    requires Grown(table, t0, marks0, e, b, inner)
    ensures e !in t0.Entries() && |e.key| == 8 * table.head.len
  {
    hide Patricia, Distinct, MarksOK, RouteTable.Loose;
  }
}
