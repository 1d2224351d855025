/**
 lib/radix.c as a whole: any list of route additions, from the two empty trees, and the match on what they
 leave behind.
 */
module RadixBuild {
  import opened Basics
  import opened RadixBits
  import opened RadixTrie
  import opened Radix
  import opened RadixRoutes
  import opened RadixMasks
  import opened RadixAddRoute
  import opened RadixPromote

  /** The arguments of one squid_rn_addroute call. */
  datatype Call = Call(v: seq<Byte>, mask: Option<seq<Byte>>)

  /** Every call has arguments as the interface asks, with `ps[i]` ones in the mask of call `i`. */
  ghost predicate WellFormed(len: nat, off: nat, calls: seq<Call>, ps: seq<nat>) {
    |ps| == |calls| && forall i :: 0 <= i < |calls| ==> CallArg(len, off, calls[i].v, calls[i].mask, ps[i])
  }

  /** The routes the calls ask for, each with the leaf handed over. */
  ghost function Requested(off: nat, calls: seq<Call>, ps: seq<nat>, leaves: seq<Node>): (es: seq<Entry>)
    requires |ps| == |calls| && |leaves| <= |calls|
    ensures |es| == |leaves|
  {
    seq(|leaves|, i requires 0 <= i < |leaves| => RouteOf(off, calls[i].v, calls[i].mask, ps[i], leaves[i]))
  }

  ghost predicate Known(s: seq<Entry>, e: Entry) {
    exists d :: d in s && d.key == e.key && d.prefix == e.prefix
  }

  ghost predicate RootKey(len: nat, off: nat, k: Key) {
    k == ZeroKey(len) || k == OneKey(len, off)
  }

  /** A route is refused when the same one was accepted before, or when a root leaf stands for it. */
  ghost predicate Refused(len: nat, off: nat, before: seq<Entry>, e: Entry) {
    Known(before, e) || (e.prefix.Host? && RootKey(len, off, e.key))
  }

  /** First come, first served. */
  ghost function Accepted(len: nat, off: nat, es: seq<Entry>): seq<Entry> {
    if es == [] then []
    else
      var (front, e) := (es[..|es| - 1], es[|es| - 1]);
      var before := Accepted(len, off, front);
      if Refused(len, off, before, e) then before else before + [e]
  }

  lemma AcceptedMore(len: nat, off: nat, es: seq<Entry>, e: Entry)
    ensures var before := Accepted(len, off, es);
            Accepted(len, off, es + [e]) == if Refused(len, off, before, e) then before else before + [e]
  {
    assert (es + [e])[..|es|] == es;
  }

  lemma RequestedMore(off: nat, calls: seq<Call>, ps: seq<nat>, leaves: seq<Node>, leaf: Node)
    requires |ps| == |calls| && |leaves| < |calls|
    ensures var i := |leaves|;
            Requested(off, calls, ps, leaves + [leaf]) ==
            Requested(off, calls, ps, leaves) + [RouteOf(off, calls[i].v, calls[i].mask, ps[i], leaf)]
  {
    hide RouteOf;
  }

  ghost function Members(s: seq<Entry>): set<Entry> {
    set e | e in s
  }

  /** The routes of a table are those of a list. */
  ghost predicate Holding(table: RouteTable, s: seq<Entry>)
    reads table.head
  {
    Routes(table.head.tree) == Members(s)
  }

  /** A table that holds `s` refuses what a list that holds `s` refuses. */
  lemma {:induction false} StoredIff(table: RouteTable, s: seq<Entry>, e: Entry)
    requires table.Valid() && Holding(table, s)
    ensures IsStored(table.head.tree, e) <==> Refused(table.head.len, table.head.off, s, e)
  {
    hide MarksOK, Patricia, Distinct, MarksDistinct, ListHolds, Tree.Entries, ZeroKey, OneKey, RouteHolds, Head.Valid;
    var t := table.head.tree;
    if IsStored(t, e) {
      var d :| d in t.Entries() && d.key == e.key && d.prefix == e.prefix;
      if d.root { table.EntryNode(d); } else { assert d in Routes(t); }
    }
    if Known(s, e) {
      var d :| d in s && d.key == e.key && d.prefix == e.prefix;
      assert d in Routes(t);
    } else if Refused(table.head.len, table.head.off, s, e) {
      var d := Entry(if e.key == ZeroKey(table.head.len) then table.head.zeroLeaf else table.head.oneLeaf, e.key, Host, true);
      assert d in t.Entries();
    }
  }

  /** One accepted route more. */
  lemma HoldingMore(t: Tree, t': Tree, s: seq<Entry>, e: Entry, ok: bool)
    requires Routes(t) == Members(s) && t'.Entries() == t.Entries() + (if ok then {e} else {}) && !e.root
    ensures Routes(t') == Members(if ok then s + [e] else s)
  {
    hide Tree.Entries;
    if ok {
      assert Routes(t') == Routes(t) + {e};
      assert Members(s + [e]) == Members(s) + {e};
    }
  }

  /** One call, on tables that no one else uses. */
  method AddOne(table: RouteTable, masks: MaskTable, call: Call, ghost p: nat, ghost s: seq<Entry>)
    returns (leaf: Node, ok: bool)
    requires table.Valid() && masks.Valid() && Apart(table, masks) && Holding(table, s)
    requires CallArg(table.head.len, table.head.off, call.v, call.mask, p)
    modifies masks`lastZeroed, masks.buf, masks.head`tree, masks.head`nodes
    modifies masks.head.nodes`l, masks.head.nodes`r, masks.head.nodes`p
    modifies table.head`tree, table.head`nodes, table`marks, table`markObjs, table.markObjs`next
    modifies table.head.nodes`l, table.head.nodes`r, table.head.nodes`p, table.head.nodes`dupedkey, table.head.nodes`mklist
    ensures table.Valid() && masks.Valid() && Apart(table, masks)
    ensures var e := RouteOf(table.head.off, call.v, call.mask, p, leaf);
            && ok == !Refused(table.head.len, table.head.off, s, e)
            && Holding(table, if ok then s + [e] else s)
    ensures fresh(table.head.nodes - old(table.head.nodes)) && fresh(table.markObjs - old(table.markObjs))
    ensures fresh(masks.head.nodes - old(masks.head.nodes))
  {
    hide RouteTable.Valid, MaskTable.Valid, CallArg, Tree.Entries, IsStored, Refused;
    leaf := new Node();
    var inner := new Node();
    ghost var t0 := table.head.tree;
    ghost var e := RouteOf(table.head.off, call.v, call.mask, p, leaf);
    StoredIff(table, s, e);
    var r := AddRoute(table, masks, call.v, call.mask, leaf, inner, p);
    ok := r != null;
    HoldingMore(t0, table.head.tree, s, e, ok);
  }

  /** Any list of additions leaves exactly the accepted routes in the table. */
  method Build(len: nat, off: nat, maskLen: nat, signedChar: bool, calls: seq<Call>, ghost ps: seq<nat>)
    returns (table: RouteTable, masks: MaskTable, leaves: seq<Node>, oks: seq<bool>)
    requires off % 8 == 0 && 8 <= off < 8 * len && len <= maskLen < 255 && WellFormed(len, off, calls, ps)
    ensures fresh(table) && fresh(masks) && table.Valid() && masks.Valid() && Apart(table, masks)
    ensures table.head.len == len && table.head.off == off && |leaves| == |oks| == |calls|
    ensures Holding(table, Accepted(len, off, Requested(off, calls, ps, leaves)))
    ensures forall i :: 0 <= i < |calls| ==>
                          var es := Requested(off, calls, ps, leaves);
                          oks[i] == !Refused(len, off, Accepted(len, off, es[..i]), es[i])
  {
    hide RouteTable.Valid, MaskTable.Valid, CallArg, RouteOf, Refused, Accepted;
    table := new RouteTable(len, off, maskLen);
    masks := new MaskTable(maskLen, signedChar);
    leaves, oks := [], [];
    AcceptedNone(len, off);
    while |leaves| < |calls|
      invariant fresh(table) && fresh(table.head) && fresh(table.head.nodes) && fresh(table.markObjs)
      invariant fresh(masks) && fresh(masks.head) && fresh(masks.head.nodes) && fresh(masks.buf)
      invariant table.Valid() && masks.Valid() && Apart(table, masks) && table.head.len == len && table.head.off == off
      invariant |leaves| == |oks| <= |calls| && Holding(table, Accepted(len, off, Requested(off, calls, ps, leaves)))
      invariant forall i :: 0 <= i < |leaves| ==>
                              var es := Requested(off, calls, ps, leaves);
                              oks[i] == !Refused(len, off, Accepted(len, off, es[..i]), es[i])
      decreases |calls| - |leaves|
    {
      ghost var es := Requested(off, calls, ps, leaves);
      var i := |leaves|;
      var leaf, ok := AddOne(table, masks, calls[i], ps[i], Accepted(len, off, es));
      RequestedMore(off, calls, ps, leaves, leaf);
      ghost var e := RouteOf(off, calls[i].v, calls[i].mask, ps[i], leaf);
      AcceptedMore(len, off, es, e);
      leaves, oks := leaves + [leaf], oks + [ok];
      Prefixes(es, e);
    }
  }

  lemma AcceptedNone(len: nat, off: nat)
    ensures Accepted(len, off, []) == []
  {
  }

  lemma Prefixes(es: seq<Entry>, e: Entry)
    ensures (es + [e])[..|es|] == es && (es + [e])[|es|] == e
    ensures forall i :: 0 <= i < |es| ==> (es + [e])[..i] == es[..i] && (es + [e])[i] == es[i]
  {
  }

  /** A scan of the table's routes and a scan of any list of the same routes agree. */
  lemma {:induction false} ScanAny(t: Tree, s: seq<Entry>, k: Key)
    requires Patricia(t, |k|) && Routes(t) == Members(s)
    ensures LinearScan(NonRoot(AllEntries(t)), k) == LinearScan(s, k)
  {
    hide Patricia, Tree.Entries, LinearScan, IsBest;
    forall e | e in s ensures e in t.Entries() { assert e in Routes(t); }
    ScanIsBest(t, s, k);
    BestIsLinearScan(t, k, LinearScan(s, k));
  }

  /** What a linear scan over a list of routes answers. */
  ghost function ScanNode(routes: seq<Entry>, k: Key): Node? {
    var best := LinearScan(routes, k);
    if best.None? then null else best.value.n
  }

  /** A root leaf stands in the way: it has this very key, and no route of the list has. */
  ghost predicate InTheWay(len: nat, off: nat, routes: seq<Entry>, k: Key) {
    RootKey(len, off, k) && forall e :: e in routes ==> e.key != k
  }

  /**
   squid_rn_match after any list of squid_rn_addroute calls: the answer is that of a linear scan over the
   accepted calls if and only if no root leaf is in the way, and the root leaf otherwise.
   */
  method Answer(len: nat, off: nat, maskLen: nat, signedChar: bool, calls: seq<Call>, ghost ps: seq<nat>, v: seq<Byte>)
    returns (r: Node?, leaves: seq<Node>)
    requires off % 8 == 0 && 8 <= off < 8 * len && len <= maskLen < 255 && WellFormed(len, off, calls, ps)
    requires |v| == len && v[0] == len
    ensures |leaves| == |calls|
    ensures var (k, routes) := (Bits(v, off), Accepted(len, off, Requested(off, calls, ps, leaves)));
            && (r == ScanNode(routes, k) <==> !InTheWay(len, off, routes, k))
            && (InTheWay(len, off, routes, k) ==> r != null && r.root)
  {
    hide RouteTable.Valid, MaskTable.Valid, RouteOf, Accepted, LinearScan, ZeroKey, OneKey, Bits, AllEntries, NonRoot;
    hide Tree.Entries, Requested;
    var table, masks, oks;
    table, masks, leaves, oks := Build(len, off, maskLen, signedChar, calls, ps);
    ghost var (k, routes) := (Bits(v, off), Accepted(len, off, Requested(off, calls, ps, leaves)));
    assert |k| == 8 * |v|;
    ghost var hit;
    r, hit := table.Match(v);
    ValidMeans(table);
    ScanAny(table.head.tree, routes, k);
    ShadowedIff(table, routes, k);
    NoRootScanned(table, routes, k);
  }

  /** A scan never answers with a root leaf. */
  lemma {:induction false} NoRootScanned(table: RouteTable, s: seq<Entry>, k: Key)
    requires table.Valid() && Holding(table, s)
    ensures ScanNode(s, k) != null ==> !ScanNode(s, k).root
  {
    hide MarksOK, Patricia, Distinct, MarksDistinct, ListHolds, Tree.Entries, ZeroKey, OneKey, RouteHolds, Head.Valid, LinearScan;
    ScanInside(s, k);
    var best := LinearScan(s, k);
    if best.Some? {
      assert best.value in Routes(table.head.tree);
      table.EntryNode(best.value);
    }
  }

  lemma DefaultArg()
    ensures CallArg(2, 8, [2, 0], Some([2, 0]), 0) && Bits([2, 0], 8) == ZeroKey(2) && PrefixOf(Some([2, 0]), 8, 0) == Net(0)
  {
    hide BitOf;
    forall i | 8 <= i < 16 ensures !Bit([2, 0], i) { ZeroBits(7 - i % 8); }
    assert Bits([2, 0], 8) == ZeroKey(2);
  }

  lemma OnesAddress()
    ensures Bits([2, 255], 8) == OneKey(2, 8) && OneKey(2, 8)[8] != ZeroKey(2)[8]
  {
    hide BitOf;
    forall i | 8 <= i < 16 ensures Bit([2, 255], i) { Byte255(7 - i % 8); }
  }

  lemma OnlyRoute(e: Entry, k: Key)
    requires e.prefix == Net(0)
    ensures Accepted(2, 8, [e]) == [e] && ScanNode([e], k) == e.n
  {
    hide ZeroKey, OneKey;
    AcceptedNone(2, 8);
    assert [e] == [] + [e];
    AcceptedMore(2, 8, [], e);
    assert [e][1..] == [] && LinearScan([], k) == None && e.Matches(k);
  }

  /** With a default route as the only one, the address of all ones is answered by the root leaf. */
  lemma {:induction false} HiddenDefault(leaf: Node)
    ensures var (call, k) := (Call([2, 0], Some([2, 0])), Bits([2, 255], 8));
            var e := RouteOf(8, call.v, call.mask, 0, leaf);
            && WellFormed(2, 8, [call], [0]) && Accepted(2, 8, [e]) == [e]
            && InTheWay(2, 8, [e], k) && ScanNode([e], k) == leaf
  {
    hide Bits, ZeroKey, OneKey, CallArg, PrefixOf, Accepted, ScanNode;
    DefaultArg();
    OnesAddress();
    OnlyRoute(RouteOf(8, [2, 0], Some([2, 0]), 0, leaf), Bits([2, 255], 8));
  }

  lemma ShadowedIff(table: RouteTable, s: seq<Entry>, k: Key)
    requires Holding(table, s)
    ensures table.Shadowed(k) <==> InTheWay(table.head.len, table.head.off, s, k)
  {
    hide Tree.Entries, ZeroKey, OneKey;
    forall e | e in s ensures e in Routes(table.head.tree) { }
    forall e | e in Routes(table.head.tree) ensures e in s { }
  }
}
