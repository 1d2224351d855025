/**
 squid_rn_addroute: store the key or join the chain of a stored key, promote annotations past a new
 internal node, and list the new route at the highest node it applies to.
 */
module RadixAddRoute {
  import opened Basics
  import opened RadixBits
  import opened RadixTrie
  import opened RadixGrowth
  import opened RadixImage
  import opened Radix
  import opened RadixRoutes
  import opened RadixMasks

  /** The arguments describe the prefix: no mask for a host route, else an interned mask and its index. */
  ghost predicate MaskArg(table: RouteTable, mask: Option<seq<Byte>>, bLeaf: int, prefix: Prefix) {
    match prefix
    case Host => mask == None
    case Net(p) =>
      mask.Some? && |mask.value| == table.maskLen && MaskIs(mask.value, p) && bLeaf == -1 - p
  }

  /** `e` is a route for `v` that these arguments describe. */
  ghost predicate RouteArg(table: RouteTable, v: seq<Byte>, mask: Option<seq<Byte>>, bLeaf: int, e: Entry) {
    && |v| == table.head.len && v != [] && v[0] == table.head.len
    && e.key == Bits(v, table.head.off) && !e.root && e.Fits(8 * table.head.len)
    && MaskArg(table, mask, bLeaf, e.prefix)
  }

  /** The mask comparisons of the chain loop, for its `i`-th member. */
  lemma ChainCompare(table: RouteTable, v: seq<Byte>, mask: Option<seq<Byte>>, bLeaf: int, e: Entry, i: nat)
    requires table.Valid() && RouteArg(table, v, mask, bLeaf, e) && i < |table.Chain(e.key)|
    ensures var (x, d) := (table.Chain(e.key)[i].n, table.Chain(e.key)[i]);
            && (x.mask == mask <==> d.prefix == e.prefix)
            && (x.mask.Some? <==> d.prefix.Net?) && (mask.Some? <==> e.prefix.Net?)
            && (mask.Some? && x.mask.Some? ==>
                  && MaskIs(mask.value, e.prefix.plen) && MaskIs(x.mask.value, d.prefix.plen)
                  && |mask.value| == |x.mask.value| && (bLeaf < x.b <==> e.prefix.plen > d.prefix.plen))
            && x.dupedkey == (if i + 1 < |table.Chain(e.key)| then table.Chain(e.key)[i + 1].n else null)
  {
    hide Patricia, Distinct, ImageOf, SubImage, Holds, BitOf, Found, Path, MarksOK, MaskIs;
    table.ChainNode(e.key, i);
    var (x, d) := (table.Chain(e.key)[i].n, table.Chain(e.key)[i]);
    if d.prefix.Net? && e.prefix.Net? {
      MaskIsUnique(mask.value, x.mask.value, e.prefix.plen, d.prefix.plen);
    }
  }

  /** `e` belongs at position `i` of the sorted chain `c`. */
  ghost predicate Fitting(c: seq<Entry>, i: nat, e: Entry) {
    && i <= |c|
    && (forall j :: 0 <= j < i ==> c[j].prefix.Finer(e.prefix))
    && (i < |c| ==> e.prefix.Finer(c[i].prefix))
  }

  lemma FittingStep(c: seq<Entry>, i: nat, e: Entry)
    requires i < |c| && forall j :: 0 <= j < i ==> c[j].prefix.Finer(e.prefix)
    ensures c[i].prefix.Finer(e.prefix) ==> forall j :: 0 <= j < i + 1 ==> c[j].prefix.Finer(e.prefix)
    ensures e.prefix.Finer(c[i].prefix) ==> Fitting(c, i, e)
    ensures i + 1 == |c| && c[i].prefix.Finer(e.prefix) ==> Fitting(c, i + 1, e)
    ensures e.prefix.Net? && c[i].prefix.Host? ==> c[i].prefix.Finer(e.prefix)
    ensures e.prefix.Net? && c[i].prefix.Net? && c[i].prefix != e.prefix && c[i].prefix.plen >= e.prefix.plen ==>
              c[i].prefix.Finer(e.prefix)
    ensures e.prefix.Net? && c[i].prefix.Net? && c[i].prefix.plen < e.prefix.plen ==> e.prefix.Finer(c[i].prefix)
    ensures e.prefix.Host? && c[i].prefix.Net? ==> e.prefix.Finer(c[i].prefix)
  {
  }

  /**
   The chain loop: a route with the same mask, or else the place where the new route belongs, with `t`
   the node before it.
   */
  method FindSpot(table: RouteTable, v: seq<Byte>, mask: Option<seq<Byte>>, bLeaf: int, saved: Node, ghost e: Entry)
    returns (dup: bool, t: Node, tt: Node?, ghost i: nat)
    requires table.Valid() && RouteArg(table, v, mask, bLeaf, e) && saved == table.Chain(e.key)[0].n
    ensures i <= |table.Chain(e.key)|
    ensures dup ==> i < |table.Chain(e.key)| && table.Chain(e.key)[i].prefix == e.prefix
    ensures !dup ==> Fitting(table.Chain(e.key), i, e)
    ensures !dup ==> tt == (if i < |table.Chain(e.key)| then table.Chain(e.key)[i].n else null)
    ensures !dup ==> t == table.Chain(e.key)[if i == 0 then 0 else i - 1].n
  {
    hide *;
    ghost var k := e.key;
    ArgMeans(table, v, mask, bLeaf, e);
    table.Facts(k);
    ghost var c := table.Chain(k);
    i, t, tt, dup := 0, saved, saved, false;
    while tt != null
      invariant 0 <= i <= |c| && tt == (if i < |c| then c[i].n else null) && t == c[if i == 0 then 0 else i - 1].n
      invariant forall j :: 0 <= j < i ==> c[j].prefix.Finer(e.prefix)
      invariant !dup && (i == |c| ==> Fitting(c, i, e))
      decreases |c| - i
    {
      ChainCompare(table, v, mask, bLeaf, e, i);
      FittingStep(c, i, e);
      if tt.mask == mask {
        dup := true;
        return;
      }
      if mask.None? { break; }
      if tt.mask.Some? {
        if bLeaf < tt.b { break; }
        RefinesRuns(mask.value, tt.mask.value, e.prefix.plen, c[i].prefix.plen);
        var finer := Refines(mask.value, tt.mask.value);
        if finer { break; }
        finer := LexoBetter(mask.value, tt.mask.value, e.prefix.plen, c[i].prefix.plen);
        if finer { break; }
      }
      t := tt;
      tt := tt.dupedkey;
      i := i + 1;
    }
  }

  lemma ArgMeans(table: RouteTable, v: seq<Byte>, mask: Option<seq<Byte>>, bLeaf: int, e: Entry)
    requires RouteArg(table, v, mask, bLeaf, e)
    ensures |v| == table.head.len && v != [] && v[0] == table.head.len
    ensures e.key == Bits(v, table.head.off) && |e.key| == 8 * table.head.len && !e.root && e.Fits(8 * table.head.len)
    ensures (mask.None? <==> e.prefix.Host?) && (mask.Some? ==> bLeaf < 0)
  {
  }

  // ---------- what one step leaves alone ----------

  twostate predicate SameNode(x: Node)
    reads x
  {
    x.b == old(x.b) && x.mask == old(x.mask) && x.normal == old(x.normal) && x.key == old(x.key) && x.mklist == old(x.mklist)
  }

  /** The route fields of every node that was in the tree are as they were. */
  twostate predicate NodesKept(table: RouteTable)
    reads table, table.head, table.head.nodes
  {
    old(table.head.nodes) <= table.head.nodes && forall x :: x in old(table.head.nodes) ==> SameNode(x)
  }

  twostate predicate SameMark(m: Mark)
    reads m
  {
    m.b == old(m.b) && m.mask == old(m.mask) && m.normal == old(m.normal) && m.leaf == old(m.leaf) && m.next == old(m.next)
  }

  /** The annotation objects are as they were. */
  twostate predicate MarksKept(table: RouteTable)
    reads table, table.markObjs
  {
    table.markObjs == old(table.markObjs) && forall m :: m in old(table.markObjs) ==> SameMark(m)
  }

  twostate lemma ListsKept(table: RouteTable)
    requires old(table.ListsHold()) && NodesKept(table) && MarksKept(table)
    requires forall n :: n in old(table.marks) ==> n in table.marks && table.marks[n] == old(table.marks)[n]
    ensures forall n :: n in old(table.marks) ==> ListHolds(n.mklist, table.marks[n])
    ensures forall n, a :: n in old(table.marks) && a in table.marks[n] ==> a.m in table.markObjs && a.e.n in table.head.nodes
  {
    hide Tree.InnerNodes;
    forall n | n in old(table.marks) ensures ListHolds(n.mklist, table.marks[n]) {
      assert old(ListHolds(n.mklist, table.marks[n]));
    }
  }

  // ---------- a key that is stored already ----------

  lemma {:induction false} ChainNodesDiffer(table: RouteTable, k: Key, i: nat)
    requires table.head.Valid() && |k| == 8 * table.head.len && i < |table.Chain(k)|
    ensures table.Chain(k)[i].n == table.Chain(k)[0].n <==> i == 0
  {
    hide ImageOf, Holds, SubImage;
    var j := table.head.Depth(k) - 1;
    table.head.PathLinks(k, j);
    assert Distinct(table.head.At(k, j));
  }

  lemma {:induction false} ListedInside(t: Tree, lo: int, marks: Marking, s: set<Entry>, n: Node)
    requires MarksOK(t, lo, marks, s) && n in t.InnerNodes()
    ensures n in marks && Listed(marks[n]) <= t.Entries() * s
  {
    if n != t.n {
      if n in t.left.InnerNodes() {
        ListedInside(t.left, t.b, marks, s, n);
      } else {
        ListedInside(t.right, t.b, marks, s, n);
      }
    }
  }

  lemma {:induction false} AllListedInside(t: Tree, marks: Marking, s: set<Entry>)
    requires MarksOK(t, -1, marks, s) && marks.Keys == t.InnerNodes()
    ensures AllListed(marks) <= t.Entries() * s
  {
    forall e | e in AllListed(marks) ensures e in t.Entries() * s {
      var n, a :| n in marks && a in marks[n] && a.e == e;
      ListedInside(t, -1, marks, s, n);
      assert a.e in Listed(marks[n]);
    }
  }

  lemma SpotInserts(c: seq<Entry>, w: nat, i: nat, e: Entry)
    requires ChainOK(c, w) && Fitting(c, i, e) && e.Fits(w) && e.key == c[0].key
    ensures ChainOK(c[..i] + [e] + c[i..], w)
  {
    var d := c[..i] + [e] + c[i..];
    forall a | 0 <= a < |d| ensures d[a].Fits(w) && d[a].key == e.key {
      assert d[a] == if a < i then c[a] else if a == i then e else c[a - 1];
    }
    forall a, b | 0 <= a < b < |d| ensures d[a].prefix.Finer(d[b].prefix) {
      assert d[a] == if a < i then c[a] else if a == i then e else c[a - 1];
      assert d[b] == if b < i then c[b] else if b == i then e else c[b - 1];
    }
  }

  /** Facts about the tree once the route has joined the chain. */
  lemma {:induction false} JoinFacts(table: RouteTable, i: nat, e: Entry, c: seq<Entry>)
    requires table.Valid() && table.head.Joins(e.key, i, e, c) && e.n !in table.head.nodes
    ensures var t := PutChain(table.head.tree, e.key, c);
            && t.Entries() == table.head.tree.Entries() + {e} && e !in table.head.tree.Entries()
            && t.InnerNodes() == table.head.tree.InnerNodes()
            && MarksOK(t, -1, table.marks, table.head.tree.Entries())
            && e !in AllListed(table.marks)
  {
    hide ImageOf, Holds, SubImage, RouteHolds, ListHolds, MarksDistinct, ZeroKey, OneKey;
    var h := table.head;
    PutChainSets(h.tree, e.key, i, e, c);
    PutChainMarks(h.tree, e.key, i, e, c, -1, table.marks, h.tree.Entries());
    AllListedInside(h.tree, table.marks, h.tree.Entries());
  }

  lemma {:induction false} JoinStart(table: RouteTable, v: seq<Byte>, i: nat, e: Entry, c: seq<Entry>)
    requires table.Valid() && |e.key| == 8 * table.head.len && FoundKey(table.head.tree, e.key) == e.key
    requires e.Fits(8 * table.head.len) && !e.root && Fitting(table.Chain(e.key), i, e)
    requires c == table.Chain(e.key)[..i] + [e] + table.Chain(e.key)[i..]
    ensures table.head.Joins(e.key, i, e, c) && table.Chain(e.key) == Found(table.head.tree, e.key).chain
  {
    hide Holds, ImageOf, Distinct, MarksOK;
    SpotInserts(table.Chain(e.key), 8 * table.head.len, i, e);
  }

  twostate lemma JoinDone(table: RouteTable, new v: seq<Byte>, new mask: Option<seq<Byte>>, new bLeaf: int, new e: Entry)
    requires old(table.Valid()) && table.head.Valid() && NodesKept(table) && MarksKept(table)
    requires table.marks == old(table.marks) && RouteArg(table, v, mask, bLeaf, e)
    requires table.head.tree.Entries() == old(table.head.tree.Entries()) + {e}
    requires table.head.tree.InnerNodes() == old(table.head.tree.InnerNodes())
    requires MarksOK(table.head.tree, -1, table.marks, old(table.head.tree.Entries()))
    requires e !in AllListed(table.marks) && e !in old(table.head.tree.Entries())
    requires e.n in table.head.nodes && e.n.mask == mask && e.n.key == v && e.n.mklist == null
    requires e.n.b == if mask.None? then -1 else bLeaf
    ensures table.Partial(old(table.head.tree.Entries()))
  {
    hide Head.Valid, MarksOK, Tree.Entries, Tree.InnerNodes, MarksDistinct, AllListed, MaskIs, ListHolds;
    ListsKept(table);
  }

  /** The new leaf as the caller provides it. */
  ghost predicate Blank(leaf: Node)
    reads leaf
  {
    leaf.dupedkey == null && leaf.mklist == null && leaf.mask == None && !leaf.root && !leaf.normal
  }

  /** Link the new leaf into the chain and give it its mask. */
  method LinkIn(table: RouteTable, v: seq<Byte>, mask: Option<seq<Byte>>, b: int, normal: bool,
                leaf: Node, t: Node, first: bool, ghost i: nat, ghost e: Entry, ghost c: seq<Entry>)
    requires table.head.Valid() && table.head.Joins(Bits(v, table.head.off), i, e, c) && (first <==> i == 0) && b < 0
    requires t == Found(table.head.tree, Bits(v, table.head.off)).chain[if i == 0 then 0 else i - 1].n
    requires t in table.head.nodes && leaf !in table.head.nodes && e.n == leaf && Blank(leaf)
    modifies table.head`tree, table.head`nodes
    modifies table.head.nodes`l, table.head.nodes`r, table.head.nodes`dupedkey
    modifies leaf`b, leaf`key, leaf`mask, leaf`normal, leaf`p, leaf`dupedkey
    ensures table.head.Valid() && table.head.tree == PutChain(old(table.head.tree), Bits(v, table.head.off), c)
    ensures table.head.nodes == old(table.head.nodes) + {leaf} && NodesKept(table) && MarksKept(table)
    ensures leaf.mask == mask && leaf.b == b && leaf.key == v && leaf.mklist == null && leaf.normal == normal
  {
    hide Head.Valid, Head.Shape, Head.Joins, Found, PutChain, Patricia, Bits;
    if first {
      table.head.LinkFirst(v, t, leaf, e, c);
    } else {
      table.head.LinkAfter(v, t, leaf, i, e, c);
    }
    table.head.SetMask(leaf, b, mask, normal);
  }

  /** The head of the joined chain. */
  lemma {:induction false} JoinFirst(table: RouteTable, t0: Tree, e: Entry, c: seq<Entry>)
    requires table.head.Valid() && |e.key| == 8 * table.head.len && Patricia(t0, |e.key|)
    requires table.head.tree == PutChain(t0, e.key, c)
    ensures table.head.Shape() && table.Chain(e.key) == c && c != []
  {
    hide Patricia, Distinct, ImageOf, Holds, PutChain;
    PutChainFound(t0, e.key, c);
    table.head.IsShape();
  }

  /** A route whose key is stored joins that key's chain, unless its mask is there already. */
  method Join(table: RouteTable, v: seq<Byte>, mask: Option<seq<Byte>>, bLeaf: int, normal: bool,
              leaf: Node, saved: Node, ghost e: Entry) returns (ok: bool, first: Node)
    requires table.Valid() && RouteArg(table, v, mask, bLeaf, e) && FoundKey(table.head.tree, e.key) == e.key
    requires saved == table.Chain(e.key)[0].n && leaf !in table.head.nodes && e.n == leaf && Blank(leaf)
    modifies table.head`tree, table.head`nodes
    modifies table.head.nodes`l, table.head.nodes`r, table.head.nodes`dupedkey
    modifies leaf`b, leaf`key, leaf`mask, leaf`normal, leaf`p, leaf`dupedkey
    ensures !ok ==> table.Valid() && table.head.tree == old(table.head.tree) && table.head.nodes == old(table.head.nodes)
    ensures !ok ==> exists d :: d in table.head.tree.Entries() && d.key == e.key && d.prefix == e.prefix
    ensures ok ==> table.Partial(old(table.head.tree.Entries())) && table.head.nodes == old(table.head.nodes) + {leaf}
    ensures ok ==> table.head.tree.Entries() == old(table.head.tree.Entries()) + {e}
    ensures ok ==> e !in old(table.head.tree.Entries()) && |e.key| == 8 * table.head.len
    ensures ok ==> table.Chain(e.key) != [] && first == table.Chain(e.key)[0].n
  {
    hide *;
    first := saved;
    ArgMeans(table, v, mask, bLeaf, e);
    table.Facts(e.key);
    var dup, t, tt, i := FindSpot(table, v, mask, bLeaf, saved, e);
    ghost var c0 := table.Chain(e.key);
    if dup {
      table.ChainNode(e.key, i);
      return false, saved;
    }
    ghost var c := c0[..i] + [e] + c0[i..];
    ghost var t0 := table.head.tree;
    JoinStart(table, v, i, e, c);
    JoinFacts(table, i, e, c);
    if i < |c0| { ChainNodesDiffer(table, e.key, i); }
    table.ChainNode(e.key, if i == 0 then 0 else i - 1);
    label Spotted:
    LinkIn(table, v, mask, if mask.None? then -1 else bLeaf, normal && mask.Some?, leaf, t, tt == saved, i, e, c);
    JoinDone@Spotted(table, v, mask, bLeaf, e);
    JoinFirst(table, t0, e, c);
    if tt == saved { first := leaf; }
    ok := true;
  }

  // ---------- listing a route ----------

  twostate predicate SameLinks(x: Node)
    reads x
  {
    && x.b == old(x.b) && x.p == old(x.p) && x.l == old(x.l) && x.r == old(x.r) && x.key == old(x.key)
    && x.root == old(x.root) && x.dupedkey == old(x.dupedkey) && x.mask == old(x.mask) && x.normal == old(x.normal)
  }

  /** Nothing but annotations changed. */
  twostate predicate LinksKept(table: RouteTable)
    reads table, table.head, table.head.nodes
  {
    && table.head.tree == old(table.head.tree) && table.head.nodes == old(table.head.nodes)
    && table.head.top == old(table.head.top)
    && forall x :: x in table.head.nodes ==> SameLinks(x)
  }

  twostate lemma RoutesStay(table: RouteTable)
    requires old(table.RoutesHold()) && LinksKept(table)
    ensures table.RoutesHold()
  {
    hide ImageOf, Distinct, Patricia, ZeroBefore, Tree.Nodes, Tree.Keys, Tree.Entries, Bits, ZeroKey, OneKey, MaskIs;
    assert table.head.Shape();
    forall y | y in table.head.Img() ensures Holds(y, table.head.Img()[y], table.head.off) {
      assert y in table.head.nodes;
    }
    assert table.head.Valid();
  }

  /** Lists of nodes other than those in `touched` stay, when only objects outside them changed. */
  twostate lemma ListsStay(table: RouteTable, new touched: set<Node>, new changed: set<Mark>)
    requires old(table.ListsHold()) && LinksKept(table)
    requires old(table.markObjs) <= table.markObjs
    requires forall m :: m in old(table.markObjs) && m !in changed ==> SameMark(m)
    requires forall n :: n in old(table.marks) && n !in touched ==>
               && n in table.marks && table.marks[n] == old(table.marks)[n] && n.mklist == old(n.mklist)
               && forall a :: a in table.marks[n] ==> a.m !in changed
    ensures forall n :: n in old(table.marks) && n !in touched ==> ListHolds(n.mklist, table.marks[n])
  {
    hide Tree.InnerNodes, Tree.Entries;
    forall n | n in old(table.marks) && n !in touched ensures ListHolds(n.mklist, table.marks[n]) {
      assert old(ListHolds(n.mklist, table.marks[n]));
      forall i | 0 <= i < |table.marks[n]|
        ensures MarkHolds(table.marks[n][i].m, table.marks[n][i].e, MarkAt(table.marks[n], i + 1))
      {
        assert table.marks[n][i] in table.marks[n];
      }
    }
  }

  /** rn_new_radix_mask: an annotation for the route of `leaf`, which remembers it. */
  method NewMark(leaf: Node, next: Mark?) returns (m: Mark)
    modifies leaf`mklist
    ensures fresh(m) && leaf.mklist == m
    ensures m.next == next && m.b == leaf.b && m.normal == leaf.normal
    ensures (m.normal ==> m.leaf == leaf) && (!m.normal ==> m.mask == leaf.mask)
  {
    m := new Mark();
    m.b, m.normal := leaf.b, leaf.normal;
    if leaf.normal { m.leaf := leaf; } else { m.mask := leaf.mask; }
    m.next := next;
    leaf.mklist := m;
  }

  /** `p` belongs at position `i` of a list of routes sorted from most to least specific. */
  ghost predicate Place(ms: seq<Annot>, i: nat, p: nat) {
    && i <= |ms|
    && (forall j :: 0 <= j < i ==> ms[j].e.prefix.Net? && ms[j].e.prefix.plen > p)
    && (forall j :: i <= j < |ms| ==> ms[j].e.prefix.Net? && ms[j].e.prefix.plen < p)
  }

  lemma DescendingParts(ms: seq<Annot>, i: nat)
    requires Descending(ms) && i <= |ms|
    ensures Descending(ms[..i]) && Descending(ms[i..])
  {
  }

  lemma ListedConcat(s: seq<Annot>, ms: seq<Annot>)
    ensures Listed(s + ms) == Listed(s) + Listed(ms)
  {
    forall e | e in Listed(s) + Listed(ms) ensures e in Listed(s + ms) {
      var a :| (a in s || a in ms) && a.e == e;
      assert a in s + ms;
    }
  }

  lemma ListedOne(a: Annot)
    ensures Listed([a]) == {a.e}
  {
    assert a in [a];
  }

  lemma {:induction false} PlaceDescending(ms: seq<Annot>, i: nat, a: Annot)
    requires Descending(ms) && a.e.prefix.Net? && Place(ms, i, a.e.prefix.plen)
    ensures Descending(ms[..i] + [a] + ms[i..])
    ensures Listed(ms[..i] + [a] + ms[i..]) == Listed(ms) + {a.e}
  {
    hide Listed, Descending;
    var (p, front, back) := (a.e.prefix.plen, ms[..i], ms[i..]);
    PlaceOrder(ms, i, a);
    ListedConcat(front, [a]);
    ListedConcat(front + [a], back);
    ListedOne(a);
    assert ms == front + back;
    ListedConcat(front, back);
  }

  lemma {:induction false} PlaceOrder(ms: seq<Annot>, i: nat, a: Annot)
    requires Descending(ms) && a.e.prefix.Net? && Place(ms, i, a.e.prefix.plen)
    ensures Descending(ms[..i] + [a] + ms[i..])
  {
    hide Descending;
    var (p, front, back) := (a.e.prefix.plen, ms[..i], ms[i..]);
    DescendingParts(ms, i);
    DescendingOne(a);
    forall x | x in front ensures p < x.e.prefix.plen { var y :| 0 <= y < i && ms[y] == x; }
    ClimbConcat(front, [a], p);
    if back == [] {
      assert front + [a] + back == front + [a];
    } else {
      forall x | x in back ensures x.e.prefix.plen < p { var y :| i <= y < |ms| && ms[y] == x; }
      assert back[0] in back;
      ClimbConcat(front + [a], back, p - 1);
    }
  }

  lemma DescendingOne(a: Annot)
    requires a.e.prefix.Net?
    ensures Descending([a])
  {
  }

  /** Two routes at one node, or a route and one listed above its key, never have the same index. */
  lemma {:induction false} NoTwin(table: RouteTable, s: set<Entry>, e: Entry, j: nat, a: Annot)
    requires table.Partial(s) && e in table.head.tree.Entries() && e !in s && e.prefix.Net? && |e.key| == 8 * table.head.len
    requires j < table.head.Depth(e.key) && a in table.MarksAt(e.key, j) && e.prefix.plen <= table.head.At(e.key, j).b
    requires table.head.At(e.key, j).Inner?
    ensures a.e.prefix.Net? && a.e.prefix != e.prefix
  {
    hide *;
    var (h, k) := (table.head, e.key);
    PartialMeans(table, s);
    h.PathLinks(k, j);
    var cur := h.At(k, j);
    MarkInside(table, s, k, j, a);
    KeysOfEntries(h.tree, |k|, e);
    SearchReachesStored(h.tree, k);
    FoundInside(cur, k);
    FoundKeySame(cur, h.tree, k);
    NoTwinIn(h.tree, cur, |k|, e, a.e);
  }

  lemma FoundKeySame(cur: Tree, t: Tree, k: Key)
    requires Patricia(cur, |k|) && Patricia(t, |k|) && Found(cur, k) == Found(t, k)
    ensures FoundKey(cur, k) == FoundKey(t, k)
  {
  }

  lemma PartialMeans(table: RouteTable, s: set<Entry>)
    requires table.Partial(s)
    ensures table.Loose() && MarksOK(table.head.tree, -1, table.marks, s)
    ensures table.RoutesHold() && table.head.Valid() && table.head.Shape() && table.ListsHold() && MarksDistinct(table.marks)
    ensures Patricia(table.head.tree, 8 * table.head.len) && Distinct(table.head.tree) && table.Annotated()
    ensures table.marks.Keys == table.head.tree.InnerNodes() && table.marks.Keys <= table.head.nodes
  {
    hide Patricia, Distinct, MarksOK, ImageOf, Holds, RouteHolds, ListHolds;
  }

  lemma PartialIs(table: RouteTable, s: set<Entry>)
    requires table.Loose() && MarksOK(table.head.tree, -1, table.marks, s)
    ensures table.Partial(s)
  {
  }

  lemma {:induction false} MarkInside(table: RouteTable, s: set<Entry>, k: Key, j: nat, a: Annot)
    requires table.Partial(s) && |k| == 8 * table.head.len && j < table.head.Depth(k) && a in table.MarksAt(k, j)
    ensures a.e in table.head.At(k, j).Entries() && a.e in s && a.e.prefix.Net?
  {
    hide ImageOf, Distinct, SubImage, Holds, BitOf, RouteHolds, MarkHolds, ListHolds, MarksDistinct;
    PathMarks(table.head.tree, -1, k, table.marks, s, j);
    var n := table.head.At(k, j).n;
    assert n in table.marks && a in table.marks[n];
    ListedInside(table.head.tree, -1, table.marks, s, n);
    assert a.e in Listed(table.marks[n]);
  }

  lemma {:induction false} NoTwinIn(t: Tree, cur: Tree, w: nat, e: Entry, d: Entry)
    requires Patricia(t, w) && cur.Inner? && Patricia(cur, w) && cur.Entries() <= t.Entries()
    requires e in t.Entries() && d in cur.Entries() && d != e && e.prefix.Net? && |e.key| == w
    requires e.key in cur.Keys() && e.prefix.plen <= cur.b && e.Fits(w)
    ensures d.prefix != e.prefix
  {
    if d.prefix == e.prefix {
      TwinFree(cur, w, e.prefix.plen, e.key, d);
      SameRoute(t, w, e, d);
    }
  }

  /** Below index `plen`, a route of that index has the key of any other key that is zero past `plen`. */
  lemma {:induction false} TwinFree(t: Tree, w: nat, plen: nat, k: Key, d: Entry)
    requires t.Inner? && Patricia(t, w) && k in t.Keys() && plen <= t.b && |k| == w && ZeroFrom(k, plen)
    requires d in t.Entries() && d.prefix == Net(plen)
    ensures d.key == k
  {
    KeysOfEntries(t, w, d);
  }

  lemma {:induction false} SameRoute(t: Tree, w: nat, e: Entry, d: Entry)
    requires Patricia(t, w) && e in t.Entries() && d in t.Entries() && e.key == d.key && e.prefix == d.prefix && |e.key| == w
    ensures e == d
  {
    KeysOfEntries(t, w, e);
    SearchReachesStored(t, e.key);
    FoundChainComplete(t, e.key, e);
    FoundChainComplete(t, e.key, d);
  }

  /** The list at step `j` of the path is in memory. */
  lemma {:induction false} ListInMemory(table: RouteTable, s: set<Entry>, k: Key, j: nat)
    requires table.Partial(s) && |k| == 8 * table.head.len && j < table.head.Depth(k) && table.head.At(k, j).Inner?
    ensures table.head.At(k, j).n in table.marks && table.MarksAt(k, j) == table.marks[table.head.At(k, j).n]
    ensures ListHolds(table.head.At(k, j).n.mklist, table.MarksAt(k, j)) && Descending(table.MarksAt(k, j))
    ensures forall a :: a in table.MarksAt(k, j) ==> a.m in table.markObjs && a.e.n in table.head.nodes
  {
    hide ImageOf, Distinct, SubImage, Holds, BitOf, RouteHolds, MarkHolds, ListHolds, MarksDistinct;
    PathMarks(table.head.tree, -1, k, table.marks, s, j);
    PathDescending(table.head.tree, -1, k, table.marks, s, j);
  }

  lemma {:induction false} PathDescending(t: Tree, lo: int, k: Key, marks: Marking, s: set<Entry>, j: nat)
    requires Patricia(t, |k|) && MarksOK(t, lo, marks, s) && j < |Path(t, k)|
    ensures Path(t, k)[j].Inner? ==> Path(t, k)[j].n in marks && Descending(marks[Path(t, k)[j].n])
  {
    if j > 0 { PathDescending(Child(t, k), t.b, k, marks, s, j - 1); }
  }

  /** What the code reads from the `i`-th annotation. */
  lemma {:induction false} MarkRead(table: RouteTable, s: set<Entry>, k: Key, j: nat, i: nat)
    requires table.Partial(s) && |k| == 8 * table.head.len && j < table.head.Depth(k) && i < |table.MarksAt(k, j)|
    requires table.head.At(k, j).Inner?
    ensures var a := table.MarksAt(k, j)[i];
            && a.m in table.markObjs && a.m.next == MarkAt(table.MarksAt(k, j), i + 1)
            && a.e.prefix.Net? && a.m.b == -1 - a.e.prefix.plen && a.e in s && a.e in table.head.tree.Entries()
  {
    hide Tree.Entries, Patricia, ImageOf, Distinct, SubImage, Holds, MarksOK, Path, MarksDistinct, MaskIs;
    ListInMemory(table, s, k, j);
    MarkInside(table, s, k, j, table.MarksAt(k, j)[i]);
    table.head.PathLinks(k, j);
  }

  lemma PlaceFound(ms: seq<Annot>, i: nat, p: nat)
    requires Descending(ms) && i <= |ms| && (forall j :: 0 <= j < i ==> ms[j].e.prefix.plen > p)
    requires i < |ms| ==> ms[i].e.prefix.plen < p
    ensures Place(ms, i, p)
  {
  }

  /**
   The list loop: the place of index `p` in the list of `x`. Annotations of equal index, which the code
   merges or refuses, do not occur for contiguous masks.
   */
  method FindPlace(table: RouteTable, x: Node, bLeaf: int, ghost s: set<Entry>, ghost e: Entry, ghost j: nat)
    returns (prev: Mark?, m: Mark?, ghost i: nat)
    requires table.Partial(s) && e in table.head.tree.Entries() && e !in s && e.prefix.Net? && |e.key| == 8 * table.head.len
    requires j < table.head.Depth(e.key) && table.head.At(e.key, j).Inner? && x == table.head.At(e.key, j).n
    requires e.prefix.plen <= table.head.At(e.key, j).b && bLeaf == -1 - e.prefix.plen
    ensures Place(table.MarksAt(e.key, j), i, e.prefix.plen) && m == MarkAt(table.MarksAt(e.key, j), i)
    ensures i <= |table.MarksAt(e.key, j)|
    ensures if i == 0 then prev == null else prev == table.MarksAt(e.key, j)[i - 1].m
  {
    hide *;
    ghost var ms := table.MarksAt(e.key, j);
    ListInMemory(table, s, e.key, j);
    ListHead(x.mklist, ms);
    prev, m, i := null, x.mklist, 0;
    MarkAtMeans(ms, 0);
    while m != null
      invariant 0 <= i <= |ms| && m == MarkAt(ms, i) && (m == null <==> i == |ms|) && (i < |ms| ==> m == ms[i].m)
      invariant if i == 0 then prev == null else prev == ms[i - 1].m
      invariant forall q :: 0 <= q < i ==> ms[q].e.prefix.Net? && ms[q].e.prefix.plen > e.prefix.plen
      decreases |ms| - i
    {
      MarkRead(table, s, e.key, j, i);
      NoTwin(table, s, e, j, ms[i]);
      assert m.b != bLeaf;
      if m.b > bLeaf { break; }
      prev := m;
      m := m.next;
      i := i + 1;
      MarkAtMeans(ms, i);
    }
    PlaceFound(ms, i, e.prefix.plen);
  }

  // ---------- inserting an annotation ----------

  ghost function WithAnnot(ms: seq<Annot>, i: nat, a: Annot): seq<Annot>
    requires i <= |ms|
  {
    ms[..i] + [a] + ms[i..]
  }

  lemma {:induction false} NodeOwner(t: Tree, e: Entry, d: Entry)
    requires Distinct(t) && e in t.Entries() && d in t.Entries() && e.n == d.n
    ensures e == d
  {
    if t.Inner? {
      EntryNodeIn(t.left, e);
      EntryNodeIn(t.right, e);
      EntryNodeIn(t.left, d);
      EntryNodeIn(t.right, d);
      if e in t.left.Entries() && d in t.left.Entries() { NodeOwner(t.left, e, d); }
      if e in t.right.Entries() && d in t.right.Entries() { NodeOwner(t.right, e, d); }
    }
  }

  lemma {:induction false} EntryNodeIn(t: Tree, e: Entry)
    ensures e in t.Entries() ==> e.n in t.LeafNodes()
  {
    if t.Inner? { EntryNodeIn(t.left, e); EntryNodeIn(t.right, e); }
  }

  lemma {:induction false} InnerNotLeaf(t: Tree, n: Node)
    requires Distinct(t) && n in t.InnerNodes()
    ensures n !in t.LeafNodes()
  {
    if n != t.n {
      if n in t.left.InnerNodes() { InnerNotLeaf(t.left, n); } else { InnerNotLeaf(t.right, n); }
    }
  }

  lemma DistinctGrown(marks: Marking, x: Node, i: nat, a: Annot)
    requires MarksDistinct(marks) && x in marks && i <= |marks[x]|
    requires forall n, b :: n in marks && b in marks[n] ==> b.m != a.m
    ensures MarksDistinct(marks[x := WithAnnot(marks[x], i, a)])
  {
    var marks': Marking := marks[x := WithAnnot(marks[x], i, a)];
    forall n, n', p, p' | n in marks' && n' in marks' && 0 <= p < |marks'[n]| && 0 <= p' < |marks'[n']| &&
                          marks'[n][p].m == marks'[n'][p'].m
      ensures n == n' && p == p'
    {
      OldIndex(marks, x, i, a, n, p);
      OldIndex(marks, x, i, a, n', p');
    }
  }

  /** Where an element of the grown lists was before. */
  lemma OldIndex(marks: Marking, x: Node, i: nat, a: Annot, n: Node, p: nat)
    requires x in marks && i <= |marks[x]| && n in marks
    requires p < |marks[x := WithAnnot(marks[x], i, a)][n]|
    ensures var b := marks[x := WithAnnot(marks[x], i, a)][n][p];
            if n == x && p == i then b == a
            else var q := if n == x && p > i then p - 1 else p; q < |marks[n]| && b == marks[n][q] && b in marks[n]
  {
  }

  lemma AllListedGrown(marks: Marking, x: Node, i: nat, a: Annot)
    requires x in marks && i <= |marks[x]|
    ensures AllListed(marks[x := WithAnnot(marks[x], i, a)]) == AllListed(marks) + {a.e}
  {
    var marks': Marking := marks[x := WithAnnot(marks[x], i, a)];
    var d := WithAnnot(marks[x], i, a);
    assert marks[x] == marks[x][..i] + marks[x][i..];
    assert a in d by { assert d[i] == a; }
    assert x in marks' && a in marks'[x];
    forall e | e in AllListed(marks') ensures e in AllListed(marks) + {a.e} {
      var n, b :| n in marks' && b in marks'[n] && b.e == e;
      if n == x { assert b == a || b in marks[x]; }
    }
    forall e | e in AllListed(marks) ensures e in AllListed(marks') {
      var n, b :| n in marks && b in marks[n] && b.e == e;
      if n == x { assert b in d; }
      assert n in marks' && b in marks'[n];
    }
  }

  /** The list of `x` after the insertion. */
  twostate lemma ListGrown(ms: seq<Annot>, new x: Node, new i: nat, new a: Annot, new prev: Mark?)
    requires old(allocated(x)) && old(ListHolds(x.mklist, ms)) && i <= |ms|
    requires forall b :: b in ms ==> old(allocated(b.m)) && old(allocated(b.e.n)) && SameLinks(b.e.n)
    requires forall p, q :: 0 <= p < q < |ms| ==> ms[p].m != ms[q].m
    requires if i == 0 then prev == null else prev == ms[i - 1].m
    requires forall b :: b in ms && b.m != prev ==> SameMark(b.m)
    requires i > 0 ==> PrevLinked(prev, a.m)
    requires x.mklist == if i == 0 then a.m else old(x.mklist)
    requires MarkHolds(a.m, a.e, MarkAt(ms, i))
    ensures ListHolds(x.mklist, WithAnnot(ms, i, a))
  {
    hide MarkHolds, SameLinks, SameMark, WithAnnot, MarkAt, PrevLinked;
    var d := WithAnnot(ms, i, a);
    WithAnnotAt(ms, i, a, 0);
    forall q | 0 <= q < |d| ensures MarkHolds(d[q].m, d[q].e, MarkAt(d, q + 1)) {
      WithAnnotAt(ms, i, a, q);
      if q != i {
        var p := if q < i then q else q - 1;
        assert ms[p] in ms;
        assert old(MarkHolds(ms[p].m, ms[p].e, MarkAt(ms, p + 1)));
        if q + 1 == i { MarkRelinked(ms[p], MarkAt(ms, p + 1), a.m); } else { MarkStays(ms[p], MarkAt(ms, p + 1)); }
      }
    }
  }

  lemma WithAnnotAt(ms: seq<Annot>, i: nat, a: Annot, q: nat)
    requires i <= |ms| && q <= |ms|
    ensures var d := WithAnnot(ms, i, a);
            && |d| == |ms| + 1 && d[q] == (if q < i then ms[q] else if q == i then a else ms[q - 1])
            && MarkAt(d, q + 1) == (if q + 1 < i then MarkAt(ms, q + 1) else if q + 1 == i then a.m else MarkAt(ms, q))
            && MarkAt(d, 0) == (if i == 0 then a.m else MarkAt(ms, 0))
  {
  }

  twostate lemma MarkStays(b: Annot, new next: Mark?)
    requires old(allocated(next)) && old(MarkHolds(b.m, b.e, next)) && SameMark(b.m) && SameLinks(b.e.n)
    ensures MarkHolds(b.m, b.e, next)
  {
  }

  twostate lemma MarkRelinked(b: Annot, new next: Mark?, new m: Mark?)
    requires old(allocated(next)) && old(MarkHolds(b.m, b.e, next)) && PrevLinked(b.m, m) && SameLinks(b.e.n)
    ensures MarkHolds(b.m, b.e, m)
  {
  }

  /** Only the new route's leaf gains an annotation. */
  twostate lemma AnnotatedGrown(table: RouteTable, new x: Node, new e: Entry)
    requires old(table.Annotated()) && old(table.RoutesHold()) && LinksKept(table)
    requires Distinct(table.head.tree) && e in table.head.tree.Entries() && x in table.head.tree.InnerNodes()
    requires AllListed(table.marks) == old(AllListed(table.marks)) + {e}
    requires e.n.mklist != null && forall y :: y in table.head.nodes && y != x && y != e.n ==> y.mklist == old(y.mklist)
    ensures table.Annotated()
  {
    hide Head.Valid, AllListed, RouteHolds, ZeroKey, OneKey, Distinct, Tree.Entries, Tree.InnerNodes, Tree.LeafNodes;
    forall d | d in table.head.tree.Entries() && d.prefix.Net? && d.n in table.head.nodes
      ensures d.n.mklist != null <==> d in AllListed(table.marks)
    {
      if d != e {
        if d.n == e.n { NodeOwner(table.head.tree, e, d); }
        InnerNotLeaf(table.head.tree, x);
        EntryNodeIn(table.head.tree, d);
        assert d in old(table.head.tree.Entries());
      }
    }
  }

  twostate lemma LooseBefore(table: RouteTable)
    requires old(table.Loose())
    ensures old(table.RoutesHold()) && old(table.ListsHold()) && MarksDistinct(old(table.marks)) && old(table.Annotated())
    ensures Distinct(old(table.head.tree)) && old(table.marks).Keys == old(table.head.tree).InnerNodes()
    ensures forall n, a :: n in old(table.marks) && a in old(table.marks)[n] ==> a.m in old(table.markObjs) && a.e.n in old(table.head.nodes)
    ensures forall n :: n in old(table.marks) ==> old(ListHolds(n.mklist, table.marks[n])) && n in old(table.head.nodes)
  {
    hide Distinct, MarksOK, Patricia, ImageOf, Holds, RouteHolds, ListHolds;
  }

  lemma OneList(marks: Marking, x: Node, i: nat, prev: Mark?)
    requires MarksDistinct(marks) && x in marks && i <= |marks[x]|
    requires if i == 0 then prev == null else prev == marks[x][i - 1].m
    ensures forall n, b :: n in marks && n != x && b in marks[n] ==> b.m != prev
    ensures forall p, q :: 0 <= p < q < |marks[x]| ==> marks[x][p].m != marks[x][q].m
  {
    forall n, b | n in marks && n != x && b in marks[n] ensures b.m != prev {
      var p :| 0 <= p < |marks[n]| && marks[n][p] == b;
    }
  }

  /** Every list is in memory after inserting annotation `a` at position `i` of the list of `x`. */
  twostate lemma InsertLists(table: RouteTable, new x: Node, new i: nat, new a: Annot, new prev: Mark?)
    requires old(table.ListsHold()) && MarksDistinct(old(table.marks)) && LinksKept(table)
    requires x in old(table.marks) && i <= |old(table.marks)[x]| && MarksIn(table)
    requires table.marks == old(table.marks)[x := WithAnnot(old(table.marks)[x], i, a)]
    requires table.markObjs == old(table.markObjs) + {a.m} && a.e.n in table.head.nodes
    requires if i == 0 then prev == null else prev == old(table.marks)[x][i - 1].m
    requires forall m :: m in old(table.markObjs) && m != prev ==> SameMark(m)
    requires i > 0 ==> PrevLinked(prev, a.m)
    requires x.mklist == if i == 0 then a.m else old(x.mklist)
    requires forall n :: n in old(table.marks) && n != x ==> n.mklist == old(n.mklist)
    requires MarkHolds(a.m, a.e, MarkAt(old(table.marks)[x], i))
    ensures forall n :: n in table.marks ==> ListHolds(n.mklist, table.marks[n])
  {
    hide MarksDistinct, Tree.InnerNodes, ListHolds, MarkHolds, WithAnnot;
    OneList(old(table.marks), x, i, prev);
    ListsStay(table, {x}, if prev == null then {} else {prev});
    ListGrown(old(table.marks)[x], x, i, a, prev);
  }

  /** All annotation objects and leaves in the lists were there before. */
  twostate predicate MarksIn(table: RouteTable) {
    && old(table.marks).Keys <= old(table.head.nodes)
    && forall n, a :: n in old(table.marks) && a in old(table.marks)[n] ==>
         a.m in old(table.markObjs) && a.e.n in old(table.head.nodes)
  }

  twostate predicate PrevLinked(prev: Mark?, new m: Mark?)
    requires prev != null
    reads prev
  {
    && prev.next == m && prev.b == old(prev.b) && prev.normal == old(prev.normal)
    && prev.leaf == old(prev.leaf) && prev.mask == old(prev.mask)
  }

  /** Memory after inserting annotation `a` at `x`. */
  twostate lemma InsertDone(table: RouteTable, new x: Node, new i: nat, new a: Annot)
    requires old(table.Loose()) && LinksKept(table)
    requires x in old(table.marks) && i <= |old(table.marks)[x]|
    requires table.marks == old(table.marks)[x := WithAnnot(old(table.marks)[x], i, a)]
    requires table.markObjs == old(table.markObjs) + {a.m}
    requires a.e in table.head.tree.Entries() && a.e.n in table.head.nodes && a.e.n.mklist != null
    requires forall y :: y in table.head.nodes && y != x && y != a.e.n ==> y.mklist == old(y.mklist)
    requires forall n :: n in table.marks ==> ListHolds(n.mklist, table.marks[n])
    requires MarksDistinct(table.marks) && AllListed(table.marks) == old(AllListed(table.marks)) + {a.e}
    ensures table.Loose()
  {
    hide Head.Valid, AllListed, MarksDistinct, MarksOK, Distinct, Tree.Entries, Tree.InnerNodes, ListHolds, RouteTable.Annotated;
    hide RouteTable.RoutesHold, RouteTable.Loose;
    LooseBefore(table);
    RoutesStay(table);
    AnnotatedGrown(table, x, a.e);
    forall n, b | n in table.marks && b in table.marks[n] ensures b.m in table.markObjs && b.e.n in table.head.nodes {
      if n == x {
        var p :| 0 <= p < |table.marks[n]| && table.marks[n][p] == b;
        OldIndex(old(table.marks), x, i, a, n, p);
      }
    }
    assert table.ListsHold();
    LooseIs(table);
  }

  lemma LooseIs(table: RouteTable)
    requires table.RoutesHold() && table.ListsHold() && MarksDistinct(table.marks) && table.Annotated()
    ensures table.Loose()
  {
  }

  lemma LooseMeans(table: RouteTable)
    requires table.Loose()
    ensures table.RoutesHold() && table.head.Valid() && table.head.Shape() && table.ListsHold() && MarksDistinct(table.marks)
    ensures Patricia(table.head.tree, 8 * table.head.len) && Distinct(table.head.tree) && table.Annotated()
    ensures table.marks.Keys == table.head.tree.InnerNodes() && table.marks.Keys <= table.head.nodes
  {
    hide Patricia, Distinct, MarksOK, ImageOf, Holds, RouteHolds, ListHolds;
  }

  /** `e` is a stored network route not yet listed, and `x`, at step `j` of its path, is where it belongs. */
  ghost predicate ToList(table: RouteTable, s: set<Entry>, e: Entry, j: nat, x: Node)
    reads table, table.head, table.head.nodes, table.markObjs
  {
    && table.Partial(s) && e in table.head.tree.Entries() && e !in s && e.prefix.Net? && |e.key| == 8 * table.head.len
    && j < table.head.Depth(e.key) && table.head.At(e.key, j).Inner? && x == table.head.At(e.key, j).n
    && e.prefix.plen <= table.head.At(e.key, j).b
    && table.head.Shape() && LiftAt(table.head.tree, e.key, e.prefix.plen) == Some(x)
  }

  /** The pure side of the insertion: the annotations are complete once `e` is listed at `x`. */
  lemma {:induction false} InsertPure(t: Tree, w: nat, marks: Marking, s: set<Entry>, e: Entry, x: Node, i: nat, m: Mark)
    requires Patricia(t, w) && Distinct(t) && MarksOK(t, -1, marks, s)
    requires e in t.Entries() && e.prefix.Net? && |e.key| == w && LiftAt(t, e.key, e.prefix.plen) == Some(x)
    requires x in marks && Descending(marks[x]) && i <= |marks[x]| && Place(marks[x], i, e.prefix.plen)
    ensures var marks' := marks[x := WithAnnot(marks[x], i, Annot(m, e))];
            MarksOK(t, -1, marks', s + {e})
  {
    hide *;
    var a := Annot(m, e);
    var marks' := marks[x := WithAnnot(marks[x], i, a)];
    PlaceDescending(marks[x], i, a);
    WithAnnotIs(marks[x], i, a);
    LiftedIs(x, e, marks, marks');
    KeysOfEntries(t, w, e);
    LiftMarks(t, w, -1, marks, marks', s, e);
  }

  /** What holds before the insertion. */
  lemma {:induction false} InsertBefore(table: RouteTable, s: set<Entry>, e: Entry, j: nat, x: Node)
    requires ToList(table, s, e, j, x)
    ensures var (t, marks) := (table.head.tree, table.marks);
            && Patricia(t, |e.key|) && Distinct(t) && MarksOK(t, -1, marks, s)
            && e in t.Entries() && e.prefix.Net? && LiftAt(t, e.key, e.prefix.plen) == Some(x)
            && x in marks && Descending(marks[x]) && marks[x] == table.MarksAt(e.key, j)
    ensures table.Loose()
  {
    hide *;
    ToListMeans(table, s, e, j, x);
    PartialMeans(table, s);
    ListInMemory(table, s, e.key, j);
  }

  lemma ListsMean(table: RouteTable)
    requires table.ListsHold()
    ensures forall n, b :: n in table.marks && b in table.marks[n] ==> b.m in table.markObjs && b.e.n in table.head.nodes
  {
  }

  lemma ToListMeans(table: RouteTable, s: set<Entry>, e: Entry, j: nat, x: Node)
    requires ToList(table, s, e, j, x)
    ensures table.Partial(s) && e in table.head.tree.Entries() && e !in s && e.prefix.Net? && |e.key| == 8 * table.head.len
    ensures j < table.head.Depth(e.key) && table.head.At(e.key, j).Inner? && x == table.head.At(e.key, j).n
    ensures e.prefix.plen <= table.head.At(e.key, j).b && Patricia(table.head.tree, |e.key|)
    ensures LiftAt(table.head.tree, e.key, e.prefix.plen) == Some(x)
  {
  }

  lemma WithAnnotIs(ms: seq<Annot>, i: nat, a: Annot)
    requires i <= |ms|
    ensures WithAnnot(ms, i, a) == ms[..i] + [a] + ms[i..]
  {
  }

  lemma LiftedIs(x: Node, e: Entry, marks: Marking, marks': Marking)
    requires x in marks && marks' == marks[x := if x in marks' then marks'[x] else []] && x in marks'
    requires Listed(marks'[x]) == Listed(marks[x]) + {e} && Descending(marks'[x])
    ensures Lifted(Some(x), e, marks, marks')
  {
  }

  /** Make an annotation for the route of `leaf` and link it after `prev`, or first at `x`. */
  method LinkMark(x: Node, leaf: Node, prev: Mark?, next: Mark?) returns (m: Mark)
    requires x != leaf
    modifies leaf`mklist, x`mklist, (if prev == null then {} else {prev})`next
    ensures fresh(m) && leaf.mklist == m && MarkHolds(m, Entry(leaf, [], Host, false), next)
    ensures prev == null ==> x.mklist == m
    ensures prev != null ==> x.mklist == old(x.mklist) && PrevLinked(prev, m)
  {
    m := NewMark(leaf, next);
    if prev == null { x.mklist := m; } else { prev.next := m; }
  }

  lemma MarkOfLeaf(m: Mark, e: Entry, next: Mark?)
    requires MarkHolds(m, Entry(e.n, [], Host, false), next)
    ensures MarkHolds(m, e, next)
  {
  }

  /** Link a new annotation into the list of `x`; nothing else changes. */
  method AddToList(table: RouteTable, x: Node, leaf: Node, prev: Mark?, next: Mark?, ghost e: Entry, ghost i: nat)
    returns (m: Mark)
    requires x in table.marks && i <= |table.marks[x]| && table.marks.Keys <= table.head.nodes
    requires x in table.head.nodes && leaf in table.head.nodes && x != leaf && e.n == leaf
    requires forall n, b :: n in table.marks && b in table.marks[n] ==> b.m in table.markObjs && b.e.n in table.head.nodes
    requires forall n :: n in table.marks ==> n != leaf
    requires if i == 0 then prev == null else prev == table.marks[x][i - 1].m
    modifies table`marks, table`markObjs, table.markObjs`next, table.head.nodes`mklist
    ensures fresh(m) && LinksKept(table) && MarksIn(table) && MarkHolds(m, e, next)
    ensures table.marks == old(table.marks)[x := WithAnnot(old(table.marks)[x], i, Annot(m, e))]
    ensures table.markObjs == old(table.markObjs) + {m}
    ensures forall b :: b in old(table.markObjs) && b != prev ==> SameMark(b)
    ensures i > 0 ==> PrevLinked(prev, m)
    ensures x.mklist == (if i == 0 then m else old(x.mklist)) && leaf.mklist == m
    ensures forall y :: y in table.head.nodes && y != x && y != leaf ==> y.mklist == old(y.mklist)
    ensures forall n :: n in old(table.marks) && n != x ==> n.mklist == old(n.mklist)
  {
    hide WithAnnot, MarkHolds, PrevLinked;
    assert i > 0 ==> table.marks[x][i - 1] in table.marks[x];
    m := LinkMark(x, leaf, prev, next);
    MarkOfLeaf(m, e, next);
    table.marks := table.marks[x := WithAnnot(table.marks[x], i, Annot(m, e))];
    table.markObjs := table.markObjs + {m};
  }

  /** Insert an annotation of a stored route between `prev` and `next` in the list of `x`. */
  method Annotate(table: RouteTable, x: Node, leaf: Node, prev: Mark?, next: Mark?, ghost e: Entry, ghost i: nat)
    returns (m: Mark)
    requires table.Loose() && e in table.head.tree.Entries() && e.n == leaf
    requires x in table.marks && i <= |table.marks[x]| && next == MarkAt(table.marks[x], i)
    requires if i == 0 then prev == null else prev == table.marks[x][i - 1].m
    modifies table`marks, table`markObjs, table.markObjs`next, table.head.nodes`mklist
    ensures table.Loose() && LinksKept(table)
    ensures table.marks == old(table.marks)[x := WithAnnot(old(table.marks)[x], i, Annot(m, e))]
    ensures table.markObjs >= old(table.markObjs) && fresh(table.markObjs - old(table.markObjs))
  {
    hide *;
    AnnotateBefore(table, e);
    ghost var marks := table.marks;
    m := AddToList(table, x, leaf, prev, next, e, i);
    ghost var a := Annot(m, e);
    KeptMeans(table);
    DistinctGrown(marks, x, i, a);
    AllListedGrown(marks, x, i, a);
    InsertLists(table, x, i, a, prev);
    InsertDone(table, x, i, a);
  }

  lemma {:induction false} AnnotateBefore(table: RouteTable, e: Entry)
    requires table.Loose() && e in table.head.tree.Entries()
    ensures e.n in table.head.nodes && table.ListsHold() && MarksDistinct(table.marks) && table.marks.Keys <= table.head.nodes
    ensures forall n, b :: n in table.marks && b in table.marks[n] ==> b.m in table.markObjs && b.e.n in table.head.nodes
    ensures forall n :: n in table.marks ==> n != e.n
  {
    hide *;
    LooseMeans(table);
    table.head.EntryLinks(e);
    ListsMean(table);
    forall n | n in table.marks ensures n != e.n {
      InnerNotLeaf(table.head.tree, n);
      EntryNodeIn(table.head.tree, e);
    }
  }

  /** List route `e` at `x`. */
  method InsertMark(table: RouteTable, x: Node, leaf: Node, prev: Mark?, next: Mark?,
                    ghost s: set<Entry>, ghost e: Entry, ghost j: nat, ghost i: nat)
    requires ToList(table, s, e, j, x) && e.n == leaf
    requires i <= |table.MarksAt(e.key, j)| && Place(table.MarksAt(e.key, j), i, e.prefix.plen)
    requires next == MarkAt(table.MarksAt(e.key, j), i)
    requires if i == 0 then prev == null else prev == table.MarksAt(e.key, j)[i - 1].m
    modifies table`marks, table`markObjs, table.markObjs`next, table.head.nodes`mklist
    ensures table.Partial(s + {e}) && table.markObjs >= old(table.markObjs) && fresh(table.markObjs - old(table.markObjs))
    ensures LinksKept(table)
  {
    hide *;
    InsertBefore(table, s, e, j, x);
    ghost var marks := table.marks;
    var m := Annotate(table, x, leaf, prev, next, e, i);
    KeptMeans(table);
    InsertPure(table.head.tree, |e.key|, marks, s, e, x, i, m);
    PartialIs(table, s + {e});
  }

  twostate lemma KeptMeans(table: RouteTable)
    requires LinksKept(table)
    ensures table.head.tree == old(table.head.tree) && table.head.nodes == old(table.head.nodes)
  {
  }

  // ---------- lifting ----------

  /** A host route, or a route too specific for the node above its leaf, is not listed anywhere. */
  lemma {:induction false} NotListed(table: RouteTable, s: set<Entry>, e: Entry)
    requires table.Partial(s) && e in table.head.tree.Entries() && |e.key| == 8 * table.head.len
    requires e.prefix.Net? ==> LiftAt(table.head.tree, e.key, e.prefix.plen) == None
    ensures table.Partial(s + {e})
  {
    hide ImageOf, Distinct, SubImage, Holds, BitOf, RouteHolds, MarkHolds, ListHolds, MarksDistinct, Patricia, MarksOK, LiftAt;
    PartialMeans(table, s);
    var (t, w) := (table.head.tree, 8 * table.head.len);
    KeysOfEntries(t, w, e);
    if e.prefix.Net? {
      LiftMarks(t, w, -1, table.marks, table.marks, s, e);
    } else {
      IgnoreHost(t, w, table.marks, s, e);
    }
  }

  lemma {:induction false} IgnoreHost(t: Tree, w: nat, marks: Marking, s: set<Entry>, e: Entry)
    requires Patricia(t, w) && MarksOK(t, -1, marks, s) && e.prefix.Host?
    ensures MarksOK(t, -1, marks, s + {e})
  {
    MarksIgnore(t, w, -1, marks, s, e);
  }

  /** What the climb reads at step `j` of the path. */
  lemma {:induction false} ClimbRead(table: RouteTable, s: set<Entry>, k: Key, j: nat)
    requires table.Partial(s) && |k| == 8 * table.head.len && j + 1 < table.head.Depth(k)
    ensures table.head.At(k, j).Inner? && table.head.At(k, j).n.b == table.head.At(k, j).b
    ensures table.head.At(k, j).n == table.head.top <==> j == 0
    ensures table.head.At(k, j).n.p != null
    ensures 0 < j ==> table.head.At(k, j - 1).Inner? && table.head.At(k, j).n.p == table.head.At(k, j - 1).n
    ensures 0 < j ==> table.head.At(k, j - 1).n.b == table.head.At(k, j - 1).b
  {
    hide *;
    PartialMeans(table, s);
    table.head.PathLinks(k, j);
    TopIs(table.head.At(k, j));
    if 0 < j {
      table.head.PathLinks(k, j - 1);
      TopIs(table.head.At(k, j - 1));
    }
  }

  lemma {:induction false} LeafRead(table: RouteTable, s: set<Entry>, k: Key)
    requires table.Partial(s) && |k| == 8 * table.head.len
    ensures table.head.Shape() && 2 <= table.head.Depth(k) && table.Chain(k) != []
    ensures table.head.At(k, table.head.Depth(k) - 2).Inner?
    ensures table.Chain(k)[0].n.p == table.head.At(k, table.head.Depth(k) - 2).n
  {
    hide *;
    PartialMeans(table, s);
    table.head.LeafLinks(k);
    ChainIs(table, k);
  }

  lemma ChainIs(table: RouteTable, k: Key)
    requires table.head.Shape() && |k| == 8 * table.head.len
    ensures table.Chain(k) == Found(table.head.tree, k).chain
  {
  }

  /** Where the climb ends is where the route is listed. */
  lemma {:induction false} LiftHereIs(table: RouteTable, s: set<Entry>, k: Key, p: nat, j: nat)
    requires table.Partial(s) && |k| == 8 * table.head.len && j < table.head.Depth(k)
    requires table.head.At(k, j).Inner? ==> p <= table.head.At(k, j).b
    requires 0 < j ==> table.head.At(k, j - 1).Inner? && table.head.At(k, j - 1).b < p
    ensures Patricia(table.head.tree, |k|)
    ensures LiftAt(table.head.tree, k, p) == if table.head.At(k, j).Inner? then Some(table.head.At(k, j).n) else None
  {
    hide ImageOf, Distinct, SubImage, Holds, BitOf, RouteHolds, MarkHolds, ListHolds, MarksDistinct, MarksOK, LiftAt;
    LiftAtPath(table.head.tree, k, p, j);
  }

  /** Climb from the node above the leaf to the highest node whose index is at least `b`. */
  method ClimbTo(table: RouteTable, b: nat, t0: Node, ghost s: set<Entry>, ghost e: Entry, ghost j0: nat)
    returns (x: Node, ghost j: nat)
    requires table.Partial(s) && e in table.head.tree.Entries() && e !in s && e.prefix == Net(b)
    requires |e.key| == 8 * table.head.len
    requires j0 + 1 < table.head.Depth(e.key) && table.head.At(e.key, j0).Inner? && t0 == table.head.At(e.key, j0).n
    requires b <= table.head.At(e.key, j0).b
    ensures ToList(table, s, e, j, x) && j < table.head.Depth(e.key) && table.head.At(e.key, j).Inner?
    ensures x == table.head.At(e.key, j).n && b <= table.head.At(e.key, j).b
  {
    hide *;
    j := j0;
    ClimbRead(table, s, e.key, j);
    x := t0;
    var t: Node := t0.p;
    while b <= t.b && x != table.head.top
      invariant j + 1 < table.head.Depth(e.key) && table.head.At(e.key, j).Inner? && x == table.head.At(e.key, j).n
      invariant b <= table.head.At(e.key, j).b && t == x.p
      decreases j
    {
      ClimbRead(table, s, e.key, j);
      x := t;
      j := j - 1;
      ClimbRead(table, s, e.key, j);
      t := t.p;
    }
    ClimbRead(table, s, e.key, j);
    LiftHereIs(table, s, e.key, b, j);
    MakeToList(table, s, e, j, x);
  }

  /** List the new route at its highest possible ancestor, if it can be lifted at all. */
  method Lift(table: RouteTable, mask: Option<seq<Byte>>, bLeaf: int, leaf: Node, saved: Node,
              ghost s: set<Entry>, ghost e: Entry)
    requires table.Partial(s) && e in table.head.tree.Entries() && e !in s && |e.key| == 8 * table.head.len
    requires e.n == leaf && MaskArg(table, mask, bLeaf, e.prefix)
    requires saved == table.Chain(e.key)[0].n
    modifies table`marks, table`markObjs, table.markObjs`next, table.head.nodes`mklist
    ensures table.Partial(s + {e}) && table.markObjs >= old(table.markObjs) && fresh(table.markObjs - old(table.markObjs))
  {
    hide *;
    ArgPrefix(table, mask, bLeaf, e.prefix);
    LeafRead(table, s, e.key);
    if mask.None? {
      NotListed(table, s, e);
      return;
    }
    var b := -1 - bLeaf;
    var t: Node := saved.p;
    ghost var j: nat := table.head.Depth(e.key) - 2;
    ClimbRead(table, s, e.key, j);
    if b > t.b {
      LeafAt(table, s, e.key, j + 1);
      LiftHereIs(table, s, e.key, b, j + 1);
      NotListed(table, s, e);
      return;
    }
    var x, j' := ClimbTo(table, b, t, s, e, j);
    j := j';
    var prev, m, i := FindPlace(table, x, bLeaf, s, e, j);
    InsertMark(table, x, leaf, prev, m, s, e, j, i);
  }

  lemma ArgPrefix(table: RouteTable, mask: Option<seq<Byte>>, bLeaf: int, prefix: Prefix)
    requires MaskArg(table, mask, bLeaf, prefix)
    ensures mask.None? <==> prefix.Host?
    ensures mask.Some? ==> bLeaf == -1 - prefix.plen
  {
  }

  lemma {:induction false} LeafAt(table: RouteTable, s: set<Entry>, k: Key, j: nat)
    requires table.Partial(s) && |k| == 8 * table.head.len && j + 1 == table.head.Depth(k)
    ensures table.head.At(k, j).Leaf?
  {
    hide *;
    PartialMeans(table, s);
    table.head.PathLinks(k, j);
  }

  lemma MakeToList(table: RouteTable, s: set<Entry>, e: Entry, j: nat, x: Node)
    requires table.Partial(s) && e in table.head.tree.Entries() && e !in s && e.prefix.Net? && |e.key| == 8 * table.head.len
    requires j < table.head.Depth(e.key) && table.head.At(e.key, j).Inner? && x == table.head.At(e.key, j).n
    requires e.prefix.plen <= table.head.At(e.key, j).b
    requires Patricia(table.head.tree, |e.key|) && LiftAt(table.head.tree, e.key, e.prefix.plen) == Some(x)
    ensures ToList(table, s, e, j, x)
  {
  }

  // ---------- a key that is not stored yet ----------

  /** The state after a new key went in: tree `t0` grew by `e` at index `b`, and `inner` has no annotations. */
  ghost predicate Grown(table: RouteTable, t0: Tree, marks0: Marking, e: Entry, b: nat, inner: Node)
    reads table, table.head, table.head.nodes, table.markObjs
  {
    && table.Loose() && |e.key| == 8 * table.head.len
    && Patricia(t0, |e.key|) && Distinct(t0) && Differs(t0, e.key, b) && inner !in t0.Nodes() && e !in t0.Entries()
    && MarksOK(t0, -1, marks0, t0.Entries()) && marks0.Keys == t0.InnerNodes()
    && table.head.tree == Graft(t0, e.key, b, inner, e) && table.marks == marks0[inner := []]
    && t0.Inner? && t0.b < b
  }

  twostate lemma StoreDone(table: RouteTable, new v: seq<Byte>, new mask: Option<seq<Byte>>, new bLeaf: int, new e: Entry,
                           new inner: Node)
    requires old(table.Valid()) && table.head.Valid() && NodesKept(table) && MarksKept(table)
    requires table.marks == old(table.marks)[inner := []] && RouteArg(table, v, mask, bLeaf, e)
    requires table.head.tree.Entries() == old(table.head.tree.Entries()) + {e}
    requires table.head.tree.InnerNodes() == old(table.head.tree.InnerNodes()) + {inner}
    requires inner !in old(table.marks) && inner in table.head.nodes && inner.mklist == null
    requires e !in old(AllListed(table.marks)) && e !in old(table.head.tree.Entries())
    requires e.n in table.head.nodes && e.n.mask == mask && e.n.key == v && e.n.mklist == null
    requires e.n.b == if mask.None? then -1 else bLeaf
    ensures table.Loose()
  {
    hide Head.Valid, MarksOK, Tree.Entries, Tree.InnerNodes, AllListed, MaskIs, ListHolds, MarksDistinct;
    ListsKept(table);
    EmptyListed(old(table.marks), inner);
    EmptyHolds(inner.mklist);
  }

  lemma EmptyListed(marks: Marking, inner: Node)
    requires inner !in marks
    ensures AllListed(marks[inner := []]) == AllListed(marks)
    ensures MarksDistinct(marks) ==> MarksDistinct(marks[inner := []])
  {
    var marks': Marking := marks[inner := []];
    forall e | e in AllListed(marks) ensures e in AllListed(marks') {
      var n, a :| n in marks && a in marks[n] && a.e == e;
      assert n in marks' && a in marks'[n];
    }
  }

  lemma EmptyHolds(first: Mark?)
    requires first == null
    ensures ListHolds(first, [])
  {
  }

  /** Facts about the tree once the key is in. */
  lemma {:induction false} StoreFacts(t0: Tree, marks: Marking, e: Entry, b: nat, inner: Node)
    requires Patricia(t0, |e.key|) && Differs(t0, e.key, b) && e.n !in t0.Nodes() && inner !in t0.Nodes()
    requires MarksOK(t0, -1, marks, t0.Entries()) && marks.Keys == t0.InnerNodes()
    ensures var t := Graft(t0, e.key, b, inner, e);
            && t.Entries() == t0.Entries() + {e} && t.InnerNodes() == t0.InnerNodes() + {inner}
            && e !in t0.Entries() && e !in AllListed(marks) && inner !in marks
  {
    GraftKeys(t0, e.key, b, inner, e);
    AllListedInside(t0, marks, t0.Entries());
    EntryNodeIn(t0, e);
  }

  lemma ValidMeans(table: RouteTable)
    requires table.Valid()
    ensures table.Partial(table.head.tree.Entries()) && table.Loose() && table.head.Valid() && table.head.Shape()
    ensures MarksOK(table.head.tree, -1, table.marks, table.head.tree.Entries())
    ensures table.marks.Keys == table.head.tree.InnerNodes() && Distinct(table.head.tree)
    ensures Patricia(table.head.tree, 8 * table.head.len) && table.head.tree.Nodes() == table.head.nodes
    ensures table.head.tree.Inner? && table.head.tree.b == table.head.off
  {
    hide Patricia, Distinct, MarksOK, ImageOf, Holds, RouteHolds, ListHolds;
  }

  lemma FullLength(table: RouteTable, v: seq<Byte>)
    requires table.Valid() && |v| == table.head.len && v != [] && v[0] == table.head.len
    ensures table.head.LengthDecides(v)
  {
    hide Patricia, Distinct, MarksOK, ImageOf, Holds, RouteHolds, ListHolds, BitOf, Bit;
  }

  /** Insert the key; a new leaf also gets its mask, and its new parent an empty list. */
  method StoreKey(table: RouteTable, v: seq<Byte>, mask: Option<seq<Byte>>, bLeaf: int, normal: bool,
                  leaf: Node, inner: Node, ghost e: Entry) returns (x: Node, dup: bool, ghost b: nat)
    requires table.Valid() && RouteArg(table, v, mask, bLeaf, e) && e.n == leaf && Blank(leaf) && Blank(inner)
    requires leaf != inner && leaf !in table.head.nodes && inner !in table.head.nodes
    modifies table`marks, table.head`tree, table.head`nodes
    modifies table.head.nodes`l, table.head.nodes`r, table.head.nodes`p
    modifies inner`b, inner`l, inner`r, inner`p, leaf`b, leaf`key, leaf`p, leaf`mask, leaf`normal
    ensures dup ==> table.Valid() && table.head.tree == old(table.head.tree) && table.head.nodes == old(table.head.nodes)
    ensures dup ==> x == Found(table.head.tree, e.key).chain[0].n && FoundKey(table.head.tree, e.key) == e.key
    ensures dup ==> Blank(leaf) && table.marks == old(table.marks)
    ensures !dup ==> x == leaf && Grown(table, old(table.head.tree), old(table.marks), e, b, inner)
    ensures !dup ==> leaf.mklist == null && table.head.nodes == old(table.head.nodes) + {inner, leaf}
  {
    hide RouteTable.Valid, Head.Valid, Head.Shape, Graft, Found, FoundKey, Patricia, Tree.Entries, Tree.InnerNodes, Tree.Keys;
    hide Bits, Differs, MarksOK, AllListed, Distinct, Tree.Nodes, RouteArg, RouteTable.Loose, Head.LengthDecides;
    ArgMeans(table, v, mask, bLeaf, e);
    ValidMeans(table);
    FullLength(table, v);
    ghost var (t0, marks) := (table.head.tree, table.marks);
    x, dup, b := table.head.Insert(v, leaf, inner, e);
    if !dup {
      StoreFacts(t0, marks, e, b, inner);
      table.head.SetMask(leaf, if mask.None? then -1 else bLeaf, mask, normal && mask.Some?);
      table.marks := table.marks[inner := []];
      StoreDone(table, v, mask, bLeaf, e, inner);
    }
  }
}
