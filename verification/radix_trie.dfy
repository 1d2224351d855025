/**
 The key structure behind lib/radix.c: a bit-indexed tree with one-way branching removed,
 chains of routes that share a key, and mask lists lifted to internal nodes.

 This module is pure: a `Tree` is the mathematical value that the linked nodes of a radix tree
 represent, with the node objects kept only as identities. Module `Radix` holds the pointer code.
 */
module RadixTrie {
  import opened Basics
  import opened RadixBits

  /** A node of the tree: the fields of an internal node and of a leaf, as in include/radix.h. */
  class Node {
    var b: int                 // bit index of an internal node; -1-index(mask) of a leaf
    var p: Node?               // parent
    var l: Node?               // internal: progeny
    var r: Node?
    var key: seq<Byte>          // leaf: the key bytes
    var mask: Option<seq<Byte>> // leaf: the interned mask bytes, or none for a host route
    var normal: bool           // RNF_NORMAL
    var root: bool             // RNF_ROOT
    var dupedkey: Node?        // leaf: next route with the same key
    var mklist: Mark?          // internal: masks lifted here; leaf: own annotation, if lifted

    constructor ()
      ensures l == null && r == null && dupedkey == null && mklist == null
      ensures mask == None && !normal && !root && b == 0 && p == null
    {
      b, p, l, r, key, mask := 0, null, null, null, [], None;
      normal, root, dupedkey, mklist := false, false, null, null;
    }
  }

  /** An annotation of an internal node: a route that applies to the subtree. */
  class Mark {
    var b: int                 // -1-index(mask)
    var normal: bool
    var leaf: Node?            // for normal routes
    var mask: Option<seq<Byte>> // for the others
    var next: Mark?            // rm_mklist
    var refs: int

    constructor ()
      ensures next == null && leaf == null && mask == None && refs == 0
    {
      b, normal, leaf, mask, next, refs := 0, false, null, None, null, 0;
    }
  }

  /** Keys as bits, most significant first. */
  type Key = seq<bool>

  ghost predicate Agree(a: Key, b: Key, n: nat)
    requires n <= |a| && n <= |b|
  {
    forall i :: 0 <= i < n ==> a[i] == b[i]
  }

  ghost predicate ZeroFrom(k: Key, n: nat) {
    forall i :: n <= i < |k| ==> !k[i]
  }

  /** A host route has no mask; `plen` is the index of a contiguous mask. */
  datatype Prefix = Host | Net(plen: nat) {
    /** Strictly more specific. */
    predicate Finer(other: Prefix) {
      other.Net? && (Host? || plen > other.plen)
    }
  }

  /** A leaf node together with the route it stores. */
  datatype Entry = Entry(n: Node, key: Key, prefix: Prefix, root: bool) {
    ghost predicate Fits(w: nat) {
      && |key| == w
      && (prefix.Net? ==> prefix.plen <= w && ZeroFrom(key, prefix.plen))
      && (root ==> prefix.Host?)
    }

    ghost predicate Matches(v: Key) {
      match prefix
      case Host => key == v
      case Net(p) => p <= |key| && p <= |v| && Agree(key, v, p)
    }
  }

  datatype Tree = Leaf(chain: seq<Entry>) | Inner(n: Node, b: nat, left: Tree, right: Tree) {

    /** The node object a parent's link refers to. */
    function Top(): Node
      requires Leaf? ==> chain != []
    {
      if Leaf? then chain[0].n else n
    }

    ghost function Keys(): set<Key> {
      match this
      case Leaf(chain) => set e | e in chain :: e.key
      case Inner(_, _, l, r) => l.Keys() + r.Keys()
    }

    ghost function Entries(): set<Entry> {
      match this
      case Leaf(chain) => set e | e in chain
      case Inner(_, _, l, r) => l.Entries() + r.Entries()
    }

    ghost function InnerNodes(): set<Node> {
      match this
      case Leaf(_) => {}
      case Inner(n, _, l, r) => {n} + l.InnerNodes() + r.InnerNodes()
    }

    ghost function LeafNodes(): set<Node> {
      match this
      case Leaf(chain) => set e | e in chain :: e.n
      case Inner(_, _, l, r) => l.LeafNodes() + r.LeafNodes()
    }

    ghost function Nodes(): set<Node> {
      InnerNodes() + LeafNodes()
    }
  }

  /** All routes of a chain have the same key and are sorted from most to least specific. */
  ghost predicate ChainOK(c: seq<Entry>, w: nat) {
    && c != []
    && (forall i :: 0 <= i < |c| ==> c[i].Fits(w) && c[i].key == c[0].key)
    && (forall i, j :: 0 <= i < j < |c| ==> c[i].prefix.Finer(c[j].prefix))
  }

  /** The invariant stated in prose at the top of lib/radix.c. */
  ghost predicate Patricia(t: Tree, w: nat) {
    match t
    case Leaf(c) => ChainOK(c, w)
    case Inner(_, b, l, r) =>
      && b < w
      && Patricia(l, w) && Patricia(r, w)
      && (l.Inner? ==> b < l.b) && (r.Inner? ==> b < r.b)
      && (forall k :: k in l.Keys() ==> |k| == w && !k[b])
      && (forall k :: k in r.Keys() ==> |k| == w && k[b])
      && (forall k, k' :: k in t.Keys() && k' in t.Keys() ==> Agree(k, k', b))
  }

  /** No node object is used twice. */
  ghost predicate Distinct(t: Tree) {
    match t
    case Leaf(c) => forall i, j :: 0 <= i < j < |c| ==> c[i].n != c[j].n
    case Inner(n, _, l, r) =>
      && Distinct(l) && Distinct(r)
      && n !in l.Nodes() && n !in r.Nodes()
      && l.Nodes() !! r.Nodes()
  }

  lemma {:induction false} KeysOfEntries(t: Tree, w: nat, e: Entry)
    requires Patricia(t, w) && e in t.Entries()
    ensures e.Fits(w) && e.key in t.Keys()
  {
    match t
    case Leaf(c) =>
    case Inner(_, _, l, r) =>
      if e in l.Entries() { KeysOfEntries(l, w, e); } else { KeysOfEntries(r, w, e); }
  }

  // ---------- searching ----------

  ghost function Child(t: Tree, v: Key): Tree
    requires t.Inner? && t.b < |v|
  {
    if v[t.b] then t.right else t.left
  }

  /** The subtrees visited on the way down for `v`, from the top to a leaf. */
  ghost function Path(t: Tree, v: Key): (p: seq<Tree>)
    requires Patricia(t, |v|)
    ensures p != [] && p[0] == t
  {
    if t.Leaf? then [t] else [t] + Path(Child(t, v), v)
  }

  ghost function Found(t: Tree, v: Key): (f: Tree)
    requires Patricia(t, |v|)
    ensures f.Leaf? && ChainOK(f.chain, |v|)
  {
    if t.Leaf? then t else Found(Child(t, v), v)
  }

  ghost function FoundKey(t: Tree, v: Key): (k: Key)
    requires Patricia(t, |v|)
    ensures |k| == |v|
  {
    Found(t, v).chain[0].key
  }

  lemma {:induction false} FoundInside(t: Tree, v: Key)
    requires Patricia(t, |v|)
    ensures FoundKey(t, v) in t.Keys()
    ensures forall e :: e in Found(t, v).chain ==> e in t.Entries()
  {
    if t.Inner? { FoundInside(Child(t, v), v); }
  }

  /** A stored key is always reached. */
  lemma {:induction false} SearchReachesStored(t: Tree, v: Key)
    requires Patricia(t, |v|) && v in t.Keys()
    ensures FoundKey(t, v) == v
  {
    if t.Inner? { SearchReachesStored(Child(t, v), v); }
  }

  /** Every entry stored under the found key is in the found chain. */
  lemma {:induction false} FoundChainComplete(t: Tree, v: Key, e: Entry)
    requires Patricia(t, |v|) && e in t.Entries() && e.key == FoundKey(t, v)
    ensures e in Found(t, v).chain
  {
    if t.Inner? {
      var c := Child(t, v);
      FoundInside(c, v);
      KeysOfEntries(t, |v|, e);
      if e in t.left.Entries() { KeysOfEntries(t.left, |v|, e); } else { KeysOfEntries(t.right, |v|, e); }
      FoundChainComplete(c, v, e);
    }
  }

  lemma {:induction false} PathStep(t: Tree, v: Key, i: nat)
    requires Patricia(t, |v|) && i < |Path(t, v)|
    ensures Patricia(Path(t, v)[i], |v|)
    ensures Found(Path(t, v)[i], v) == Found(t, v)
    ensures i == |Path(t, v)| - 1 <==> Path(t, v)[i].Leaf?
    ensures i + 1 < |Path(t, v)| ==>
              Path(t, v)[i].Inner? && Path(t, v)[i + 1] == Child(Path(t, v)[i], v)
    ensures Path(t, v)[i].Entries() <= t.Entries()
    ensures Path(t, v)[i].Keys() <= t.Keys()
  {
    if t.Inner? && i > 0 { PathStep(Child(t, v), v, i - 1); }
  }

  // ---------- the most specific match ----------

  /** `r` is a most specific route of `routes` matching `v`, or there is none. */
  ghost predicate IsBest(routes: set<Entry>, v: Key, r: Option<Entry>) {
    match r
    case None => forall e :: e in routes ==> !e.Matches(v)
    case Some(x) =>
      && x in routes && x.Matches(v)
      && forall e :: e in routes && e.Matches(v) ==> e == x || x.prefix.Finer(e.prefix)
  }

  ghost function Routes(t: Tree): set<Entry> {
    set e | e in t.Entries() && !e.root
  }

  /** Scan every route, keeping the most specific match: the reference for longest-prefix match. */
  ghost function LinearScan(s: seq<Entry>, v: Key): (r: Option<Entry>) {
    if s == [] then None
    else
      var best := LinearScan(s[1..], v);
      if s[0].Matches(v) && (best.None? || s[0].prefix.Finer(best.value.prefix)) then Some(s[0]) else best
  }

  ghost function AllEntries(t: Tree): seq<Entry> {
    match t
    case Leaf(c) => c
    case Inner(_, _, l, r) => AllEntries(l) + AllEntries(r)
  }

  ghost function NonRoot(s: seq<Entry>): seq<Entry> {
    if s == [] then [] else (if s[0].root then [] else [s[0]]) + NonRoot(s[1..])
  }

  /** Two matching routes of one tree are never equally specific. */
  lemma {:induction false} MatchesAreRanked(t: Tree, v: Key, e: Entry, e': Entry)
    requires Patricia(t, |v|) && e in t.Entries() && e' in t.Entries()
    requires e.Matches(v) && e'.Matches(v)
    ensures e == e' || e.prefix.Finer(e'.prefix) || e'.prefix.Finer(e.prefix)
  {
    KeysOfEntries(t, |v|, e);
    KeysOfEntries(t, |v|, e');
    if !e.prefix.Finer(e'.prefix) && !e'.prefix.Finer(e.prefix) {
      assert e.prefix == e'.prefix;
      assert e.key == e'.key;
      SearchReachesStored(t, e.key);
      FoundChainComplete(t, e.key, e);
      FoundChainComplete(t, e.key, e');
    }
  }

  /** The better of the best so far and one route more. */
  lemma BetterOf(routes: set<Entry>, v: Key, best: Option<Entry>, x: Entry)
    requires IsBest(routes, v, best)
    requires x.Matches(v) && best.Some? ==> x == best.value || x.prefix.Finer(best.value.prefix) || best.value.prefix.Finer(x.prefix)
    ensures IsBest(routes + {x}, v,
                   if x.Matches(v) && (best.None? || x.prefix.Finer(best.value.prefix)) then Some(x) else best)
  {
    hide Entry.Matches;
  }

  /** A linear scan finds the most specific match, whatever the order of the routes. */
  lemma {:induction false} ScanIsBest(t: Tree, s: seq<Entry>, v: Key)
    requires Patricia(t, |v|)
    requires forall e :: e in s ==> e in t.Entries()
    ensures IsBest((set e | e in s), v, LinearScan(s, v))
  {
    hide Patricia, IsBest, Tree.Entries, Entry.Matches, Prefix.Finer;
    if s == [] {
      NoneOfNone(v);
      assert (set e | e in s) == {};
    } else {
      ScanIsBest(t, s[1..], v);
      var rest := set e | e in s[1..];
      var best := LinearScan(s[1..], v);
      if best.Some? { ScanInside(s[1..], v); }
      if s[0].Matches(v) && best.Some? { BestMatches(rest, v, best.value); MatchesAreRanked(t, v, s[0], best.value); }
      BetterOf(rest, v, best, s[0]);
      assert s == [s[0]] + s[1..];
      assert (set e | e in s) == rest + {s[0]};
    }
  }

  lemma NoneOfNone(v: Key)
    ensures IsBest({}, v, None)
  {
  }

  lemma BestMatches(routes: set<Entry>, v: Key, x: Entry)
    requires IsBest(routes, v, Some(x))
    ensures x.Matches(v)
  {
  }

  lemma {:induction false} ScanInside(s: seq<Entry>, v: Key)
    ensures LinearScan(s, v).Some? ==> LinearScan(s, v).value in s
  {
    if s != [] { ScanInside(s[1..], v); }
  }

  lemma {:induction false} AllEntriesAre(t: Tree)
    ensures (set e | e in AllEntries(t)) == t.Entries()
  {
    if t.Inner? { AllEntriesAre(t.left); AllEntriesAre(t.right); }
  }

  lemma {:induction false} NonRootAre(s: seq<Entry>)
    ensures (set e | e in NonRoot(s)) == (set e | e in s && !e.root)
  {
    if s != [] {
      NonRootAre(s[1..]);
      var h := if s[0].root then [] else [s[0]];
      assert (set e | e in h + NonRoot(s[1..])) == (set e | e in h) + (set e | e in NonRoot(s[1..]));
      assert s == [s[0]] + s[1..];
      assert (set e | e in s && !e.root) == (set e | e in h) + (set e | e in s[1..] && !e.root);
    }
  }

  lemma BestIsUnique(routes: set<Entry>, v: Key, r: Option<Entry>, r': Option<Entry>)
    requires IsBest(routes, v, r) && IsBest(routes, v, r')
    ensures r == r'
  {
  }

  lemma {:induction false} RoutesAre(t: Tree)
    ensures (set e | e in NonRoot(AllEntries(t))) == Routes(t)
  {
    AllEntriesAre(t);
    NonRootAre(AllEntries(t));
  }

  /** The most specific match is unique, and is what the linear scan over all routes returns. */
  lemma {:induction false} BestIsLinearScan(t: Tree, v: Key, r: Option<Entry>)
    requires Patricia(t, |v|)
    requires IsBest(Routes(t), v, r)
    ensures r == LinearScan(NonRoot(AllEntries(t)), v)
  {
    var s := NonRoot(AllEntries(t));
    RoutesAre(t);
    forall e | e in s ensures e in t.Entries() { assert e in Routes(t); }
    ScanIsBest(t, s, v);
    BestIsUnique(Routes(t), v, r, LinearScan(s, v));
  }

  // ---------- lifted masks ----------

  /** One annotation: the mark object and the route it stands for. */
  datatype Annot = Annot(m: Mark, e: Entry)

  type Marking = map<Node, seq<Annot>>

  ghost function Listed(ms: seq<Annot>): set<Entry> {
    set a | a in ms :: a.e
  }

  /** The routes that belong on a node with index `b` whose parent has index `lo`. */
  ghost function Liftable(es: set<Entry>, lo: int, b: nat): set<Entry> {
    set e | e in es && e.prefix.Net? && lo < e.prefix.plen <= b
  }

  ghost predicate Descending(ms: seq<Annot>) {
    && (forall i :: 0 <= i < |ms| ==> ms[i].e.prefix.Net?)
    && (forall i, j :: 0 <= i < j < |ms| ==> ms[i].e.prefix.plen > ms[j].e.prefix.plen)
  }

  /** Every network route among `s` is listed at the highest node whose index is not below its own. */
  ghost predicate MarksOK(t: Tree, lo: int, marks: Marking, s: set<Entry>) {
    match t
    case Leaf(_) => true
    case Inner(n, b, l, r) =>
      && n in marks
      && Listed(marks[n]) == Liftable(t.Entries() * s, lo, b)
      && Descending(marks[n])
      && MarksOK(l, b, marks, s) && MarksOK(r, b, marks, s)
  }

  /** The annotations met on the way up from the leaf found for `v`. */
  ghost function Climb(t: Tree, v: Key, marks: Marking): seq<Annot>
    requires Patricia(t, |v|) && t.InnerNodes() <= marks.Keys
  {
    if t.Leaf? then [] else Climb(Child(t, v), v, marks) + marks[t.n]
  }

  lemma {:induction false} MarksCover(t: Tree, lo: int, marks: Marking, s: set<Entry>)
    requires MarksOK(t, lo, marks, s)
    ensures t.InnerNodes() <= marks.Keys
  {
    if t.Inner? { MarksCover(t.left, t.b, marks, s); MarksCover(t.right, t.b, marks, s); }
  }

  /** The annotated route lies in `t` and covers a prefix of `k` longer than `lo`. */
  ghost predicate Covers(a: Annot, t: Tree, lo: int, k: Key) {
    && a.e in t.Entries() && a.e.prefix.Net? && lo < a.e.prefix.plen <= |k|
    && |a.e.key| == |k| && Agree(a.e.key, k, a.e.prefix.plen)
  }

  lemma {:induction false} NodeMarkCovers(t: Tree, lo: int, v: Key, marks: Marking, a: Annot)
    requires t.Inner? && Patricia(t, |v|) && MarksOK(t, lo, marks, t.Entries())
    requires a in marks[t.n]
    ensures Covers(a, t, lo, FoundKey(t, v)) && a.e.prefix.plen <= t.b
  {
    hide Patricia, Found, Tree.Entries, Tree.Keys;
    assert a.e in Listed(marks[t.n]);
    KeysOfEntries(t, |v|, a.e);
    FoundInside(t, v);
    KeysAgree(t, |v|, a.e.key, FoundKey(t, v));
  }

  lemma KeysAgree(t: Tree, w: nat, k: Key, k': Key)
    requires t.Inner? && Patricia(t, w) && k in t.Keys() && k' in t.Keys()
    ensures |k| == w && |k'| == w && t.b < w && Agree(k, k', t.b)
  {
  }

  /** Going up, annotations appear from most to least specific and speak about the found key. */
  lemma {:induction false} ClimbSound(t: Tree, lo: int, v: Key, marks: Marking)
    requires Patricia(t, |v|) && MarksOK(t, lo, marks, t.Entries()) && t.InnerNodes() <= marks.Keys
    requires t.Inner? ==> lo < t.b
    ensures Descending(Climb(t, v, marks))
    ensures forall a :: a in Climb(t, v, marks) ==> Covers(a, t, lo, FoundKey(t, v))
  {
    if t.Inner? {
      var c := Child(t, v);
      MarksRestrict(t, marks);
      ClimbSound(c, t.b, v, marks);
      forall a | a in marks[t.n]
        ensures Covers(a, t, lo, FoundKey(t, v)) && a.e.prefix.plen <= t.b
      {
        NodeMarkCovers(t, lo, v, marks, a);
      }
      ClimbConcat(Climb(c, v, marks), marks[t.n], t.b);
    }
  }

  lemma ClimbConcat(s: seq<Annot>, ms: seq<Annot>, b: nat)
    requires Descending(s) && Descending(ms)
    requires forall a :: a in s ==> b < a.e.prefix.plen
    requires forall a :: a in ms ==> a.e.prefix.plen <= b
    ensures Descending(s + ms)
  {
  }

  lemma {:induction false} MarksNarrow(t: Tree, lo: int, marks: Marking, s: set<Entry>, s': set<Entry>)
    requires MarksOK(t, lo, marks, s)
    requires t.Entries() * s == t.Entries() * s'
    ensures MarksOK(t, lo, marks, s')
  {
    if t.Inner? {
      assert t.left.Entries() * s == t.left.Entries() * (t.Entries() * s);
      assert t.left.Entries() * s' == t.left.Entries() * (t.Entries() * s');
      assert t.right.Entries() * s == t.right.Entries() * (t.Entries() * s);
      assert t.right.Entries() * s' == t.right.Entries() * (t.Entries() * s');
      MarksNarrow(t.left, t.b, marks, s, s');
      MarksNarrow(t.right, t.b, marks, s, s');
    }
  }

  lemma MarksRestrict(t: Tree, marks: Marking)
    requires t.Inner?
    requires MarksOK(t.left, t.b, marks, t.Entries()) && MarksOK(t.right, t.b, marks, t.Entries())
    ensures MarksOK(t.left, t.b, marks, t.left.Entries())
    ensures MarksOK(t.right, t.b, marks, t.right.Entries())
  {
    assert t.left.Entries() * t.Entries() == t.left.Entries() * t.left.Entries();
    assert t.right.Entries() * t.Entries() == t.right.Entries() * t.right.Entries();
    MarksNarrow(t.left, t.b, marks, t.Entries(), t.left.Entries());
    MarksNarrow(t.right, t.b, marks, t.Entries(), t.right.Entries());
  }

  /** Any matching route outside the found chain is met on the way up. */
  lemma {:induction false} ClimbComplete(t: Tree, lo: int, v: Key, marks: Marking, e: Entry)
    requires Patricia(t, |v|) && MarksOK(t, lo, marks, t.Entries()) && t.InnerNodes() <= marks.Keys
    requires e in t.Entries() && e.Matches(v) && e.key != FoundKey(t, v)
    requires e.prefix.Net? ==> lo < e.prefix.plen
    ensures e.prefix.Net? && e in Listed(Climb(t, v, marks))
  {
    KeysOfEntries(t, |v|, e);
    if e.prefix.Host? {
      SearchReachesStored(t, v);
    } else if t.Inner? {
      var c := Child(t, v);
      MarksRestrict(t, marks);
      if e in t.left.Entries() { KeysOfEntries(t.left, |v|, e); } else { KeysOfEntries(t.right, |v|, e); }
      if e.prefix.plen <= t.b {
        assert e in Liftable(t.Entries() * t.Entries(), lo, t.b);
        var a :| a in marks[t.n] && a.e == e;
        assert a in Climb(t, v, marks);
      } else {
        assert e in c.Entries();
        ClimbComplete(c, t.b, v, marks, e);
        var a :| a in Climb(c, v, marks) && a.e == e;
        assert a in Climb(t, v, marks);
      }
    }
  }

  // ---------- one descent and one ascent find the most specific match ----------

  /** The tree `t` with its annotations is a complete radix tree. */
  ghost predicate Ready(t: Tree, marks: Marking, w: nat) {
    && Patricia(t, w)
    && MarksOK(t, -1, marks, t.Entries())
    && t.InnerNodes() <= marks.Keys
  }

  lemma {:induction false} OtherKeysAreCoarser(t: Tree, marks: Marking, v: Key, x: Entry, e: Entry)
    requires Ready(t, marks, |v|)
    requires x in Found(t, v).chain && e in t.Entries() && e.Matches(v) && e.key != x.key
    ensures x.prefix.Finer(e.prefix)
  {
    ClimbComplete(t, -1, v, marks, e);
    ClimbSound(t, -1, v, marks);
    KeysOfEntries(t, |v|, e);
  }

  /** The first matching route of the found chain is the most specific match. */
  lemma {:induction false} FirstInChain(t: Tree, marks: Marking, v: Key, i: nat)
    requires Ready(t, marks, |v|)
    requires i < |Found(t, v).chain|
    requires !Found(t, v).chain[i].root && Found(t, v).chain[i].Matches(v)
    requires forall j :: 0 <= j < i ==> Found(t, v).chain[j].root || !Found(t, v).chain[j].Matches(v)
    ensures IsBest(Routes(t), v, Some(Found(t, v).chain[i]))
  {
    var c := Found(t, v).chain;
    FoundInside(t, v);
    forall e | e in Routes(t) && e.Matches(v)
      ensures e == c[i] || c[i].prefix.Finer(e.prefix)
    {
      if e.key == c[i].key {
        FoundChainComplete(t, v, e);
        var j :| 0 <= j < |c| && c[j] == e;
      } else {
        OtherKeysAreCoarser(t, marks, v, c[i], e);
      }
    }
  }

  ghost predicate ChainFails(t: Tree, v: Key)
    requires Patricia(t, |v|)
  {
    forall e :: e in Found(t, v).chain ==> e.root || !e.Matches(v)
  }

  lemma {:induction false} ChainHasNone(t: Tree, v: Key, e: Entry)
    requires Patricia(t, |v|) && ChainFails(t, v) && e in Routes(t) && e.Matches(v)
    ensures e.key != FoundKey(t, v)
  {
    hide Patricia, Tree.Entries, Found;
    if e.key == FoundKey(t, v) { FoundChainComplete(t, v, e); }
  }

  /** Where a matching route stands among the annotations on the way up. */
  lemma {:induction false} ClimbRank(t: Tree, marks: Marking, v: Key, i: nat, e: Entry)
    requires Ready(t, marks, |v|) && ChainFails(t, v) && e in Routes(t) && e.Matches(v)
    requires i < |Climb(t, v, marks)|
    requires forall j :: 0 <= j < i ==> !Climb(t, v, marks)[j].e.Matches(v)
    ensures e == Climb(t, v, marks)[i].e || Climb(t, v, marks)[i].e.prefix.Finer(e.prefix)
  {
    hide Patricia, MarksOK, Climb, Found, ChainFails, Entry.Matches, Covers, Tree.Entries, Tree.InnerNodes;
    var s := Climb(t, v, marks);
    ChainHasNone(t, v, e);
    ClimbComplete(t, -1, v, marks, e);
    ClimbSound(t, -1, v, marks);
    var a :| a in s && a.e == e;
    var j :| 0 <= j < |s| && s[j] == a;
    if j < i { assert false; }
  }

  /** If the found chain fails, the first matching annotation on the way up is the most specific match. */
  lemma {:induction false} FirstInClimb(t: Tree, marks: Marking, v: Key, i: nat)
    requires Ready(t, marks, |v|) && ChainFails(t, v)
    requires i < |Climb(t, v, marks)| && Climb(t, v, marks)[i].e.Matches(v)
    requires forall j :: 0 <= j < i ==> !Climb(t, v, marks)[j].e.Matches(v)
    ensures IsBest(Routes(t), v, Some(Climb(t, v, marks)[i].e))
  {
    hide Patricia, MarksOK, Climb, Found, ChainFails, Tree.Entries, Tree.InnerNodes, Entry.Matches;
    var s := Climb(t, v, marks);
    ClimbSound(t, -1, v, marks);
    assert Covers(s[i], t, -1, FoundKey(t, v));
    KeysOfEntries(t, |v|, s[i].e);
    NoRootNet(s[i].e, |v|);
    forall e | e in Routes(t) && e.Matches(v)
      ensures e == s[i].e || s[i].e.prefix.Finer(e.prefix)
    {
      ClimbRank(t, marks, v, i, e);
    }
  }

  lemma NoRootNet(e: Entry, w: nat)
    requires e.Fits(w) && e.prefix.Net?
    ensures !e.root
  {
  }

  /** If neither the chain nor any annotation matches, no route does. */
  lemma {:induction false} NothingFound(t: Tree, marks: Marking, v: Key)
    requires Ready(t, marks, |v|) && ChainFails(t, v)
    requires forall a :: a in Climb(t, v, marks) ==> !a.e.Matches(v)
    ensures IsBest(Routes(t), v, None)
  {
    forall e | e in Routes(t)
      ensures !e.Matches(v)
    {
      if e.Matches(v) {
        if e.key == FoundKey(t, v) { FoundChainComplete(t, v, e); }
        ClimbComplete(t, -1, v, marks, e);
      }
    }
  }
}
