/**
 lib/heap.c: a binary min-heap of nodes that know their own place in the array, so that callers can
 delete or update through a node they hold.
 */
module Heaps {
  import opened Basics

  // ---------- the order, on the sequence of keys ----------

  function Left(i: nat): nat {
    2 * i + 1
  }

  function Right(i: nat): nat {
    2 * i + 2
  }

  /** The C macro divides -1 by 2 at the root, which truncates to 0. */
  function Parent(i: nat): nat {
    if i == 0 then 0 else (i - 1) / 2
  }

  ghost predicate Ordered(ks: seq<real>) {
    forall i :: 0 < i < |ks| ==> ks[Parent(i)] <= ks[i]
  }

  /** In order but for the pairs that involve `j`, across which the order holds. */
  ghost predicate OrderedBut(ks: seq<real>, j: nat) {
    && (forall i :: 0 < i < |ks| && i != j && Parent(i) != j ==> ks[Parent(i)] <= ks[i])
    && (forall i :: 0 < i < |ks| && Parent(i) == j && 0 < j ==> ks[Parent(j)] <= ks[i])
  }

  /** `j` is not above its children. */
  ghost predicate BelowOK(ks: seq<real>, j: nat) {
    forall i :: 0 < i < |ks| && Parent(i) == j < |ks| ==> ks[j] <= ks[i]
  }

  /** `j` is not below its parent. */
  ghost predicate AboveOK(ks: seq<real>, j: nat) {
    0 < j < |ks| ==> ks[Parent(j)] <= ks[j]
  }

  ghost function Swapped(ks: seq<real>, a: nat, b: nat): seq<real>
    requires a < |ks| && b < |ks|
  {
    ks[a := ks[b]][b := ks[a]]
  }

  lemma OrderedIff(ks: seq<real>, j: nat)
    requires j < |ks|
    ensures Ordered(ks) <==> OrderedBut(ks, j) && BelowOK(ks, j) && AboveOK(ks, j)
  {
  }

  /** Demoting a greater parent moves the disorder up. */
  lemma {:induction false} SiftUp(ks: seq<real>, j: nat)
    requires 0 < j < |ks| && OrderedBut(ks, j) && BelowOK(ks, j) && ks[Parent(j)] > ks[j]
    ensures var ks' := Swapped(ks, Parent(j), j);
            OrderedBut(ks', Parent(j)) && BelowOK(ks', Parent(j))
  {
    var p := Parent(j);
    var ks' := Swapped(ks, p, j);
    forall i | 0 < i < |ks'| && i != p && Parent(i) != p ensures ks'[Parent(i)] <= ks'[i] {
      if Parent(i) == j { assert ks[p] <= ks[i]; }
    }
    forall i | 0 < i < |ks'| && Parent(i) == p && 0 < p ensures ks'[Parent(p)] <= ks'[i] {
      assert ks[Parent(p)] <= ks[p];
      assert i != j ==> ks[p] <= ks[i];
    }
  }

  /** The child with the smaller key. */
  ghost predicate IsSmallerChild(ks: seq<real>, j: nat, c: nat) {
    && 0 < c < |ks| && Parent(c) == j
    && forall i :: 0 < i < |ks| && Parent(i) == j ==> ks[c] <= ks[i]
  }

  lemma SmallerChildIs(ks: seq<real>, j: nat, c: nat)
    requires IsSmallerChild(ks, j, c)
    ensures j < c < |ks|
    ensures ks[j] <= ks[c] ==> BelowOK(ks, j)
  {
  }

  /** Promoting the smaller child moves the disorder down. */
  lemma {:induction false} SiftDown(ks: seq<real>, j: nat, c: nat)
    requires j < |ks| && OrderedBut(ks, j) && AboveOK(ks, j) && IsSmallerChild(ks, j, c) && ks[j] > ks[c]
    ensures var ks' := Swapped(ks, c, j);
            OrderedBut(ks', c) && AboveOK(ks', c)
  {
    var ks' := Swapped(ks, c, j);
    forall i | 0 < i < |ks'| && i != c && Parent(i) != c ensures ks'[Parent(i)] <= ks'[i] {
      if i == j { assert ks[Parent(j)] <= ks[c]; }
    }
    forall i | 0 < i < |ks'| && Parent(i) == c ensures ks'[Parent(c)] <= ks'[i] {
      assert ks[c] <= ks[i];
    }
  }

  lemma Children(i: nat, n: nat)
    ensures forall c :: 0 < c < n && Parent(c) == i ==> c == Left(i) || c == Right(i)
    ensures Parent(Left(i)) == i && Parent(Right(i)) == i
  {
  }

  /** The root is a global minimum. */
  lemma {:induction false} RootIsLeast(ks: seq<real>, i: nat)
    requires Ordered(ks) && i < |ks|
    ensures ks[0] <= ks[i]
  {
    if i > 0 { RootIsLeast(ks, Parent(i)); }
  }

  /** Replacing one key leaves the order intact away from it. */
  lemma ReplacedBut(ks: seq<real>, j: nat, k: real)
    requires Ordered(ks) && j < |ks|
    ensures OrderedBut(ks[j := k], j)
  {
    forall i | 0 < i < |ks| && Parent(i) == j && 0 < j ensures ks[Parent(j)] <= ks[i] {
      assert ks[Parent(i)] <= ks[i] && ks[Parent(j)] <= ks[j];
    }
  }

  lemma DropLast(ks: seq<real>, j: nat)
    requires 0 < |ks|
    ensures Ordered(ks) ==> Ordered(ks[..|ks| - 1])
    ensures OrderedBut(ks, j) ==> OrderedBut(ks[..|ks| - 1], j)
  {
  }

  /** A key put at the end disturbs only its own place. */
  lemma AddLast(ks: seq<real>, k: real)
    requires Ordered(ks)
    ensures OrderedBut(ks + [k], |ks|) && BelowOK(ks + [k], |ks|)
  {
  }

  /** A key below its parent's is below its children's too. */
  lemma UpReady(ks: seq<real>, j: nat)
    requires j < |ks| && OrderedBut(ks, j) && ks[j] < ks[Parent(j)]
    ensures BelowOK(ks, j)
  {
  }

  lemma NotBelow(ks: seq<real>, j: nat)
    requires j < |ks| && ks[j] >= ks[Parent(j)]
    ensures AboveOK(ks, j)
  {
  }

  // ---------- the heap ----------

  type Data(!new, ==)

  class Node {
    var key: real
    var id: nat
    var data: Data

    constructor (key: real, data: Data)
      ensures this.key == key && this.data == data
    {
      this.key, this.data, id := key, data, 0;
    }
  }

  class Heap {
    var nodes: array<Node?>
    var last: nat
    var age: real
    const genKey: (Data, real) -> real
    ghost var live: set<Node>

    /** Handles and array places correspond one to one. */
    ghost predicate Shape()
      reads this`nodes, this`last, this`live, nodes, live`id
    {
      && 0 < nodes.Length && last <= nodes.Length
      && (forall i :: 0 <= i < last ==> nodes[i] != null && nodes[i] in live && nodes[i].id == i)
      && (forall n :: n in live ==> n.id < last && nodes[n.id] == n)
    }

    ghost function Keys(): (ks: seq<real>)
      requires Shape()
      reads this, nodes, live
      ensures |ks| == last && forall n :: n in live ==> ks[n.id] == n.key
    {
      seq(last, i requires 0 <= i < last && Shape() reads this, nodes, live => nodes[i].key)
    }

    ghost predicate Valid()
      reads this, nodes, live
    {
      Shape() && Ordered(Keys())
    }

    /** What the heap holds, by handle. */
    ghost function Content(): map<Node, (real, Data)>
      reads this`live, live`key, live`data
    {
      map n | n in live :: (n.key, n.data)
    }

    /** new_heap. */
    constructor (initSize: int, genKey: (Data, real) -> real)
      ensures Valid() && live == {} && last == 0 && fresh(nodes) && age == 0.0 && this.genKey == genKey
      ensures nodes.Length == if initSize <= 0 then 32 else initSize
    {
      var n := if initSize <= 0 then 32 else initSize;
      nodes := new Node?[n](_ => null);
      last, age, live := 0, 0.0, {};
      this.genKey := genKey;
    }

    /** _heap_swap_element. */
    method Swap(elm1: Node, elm2: Node)
      requires Shape() && elm1 in live && elm2 in live
      modifies nodes, elm1`id, elm2`id
      ensures Shape() && elm1.id == old(elm2.id) && elm2.id == old(elm1.id)
      ensures Keys() == Swapped(old(Keys()), old(elm1.id), old(elm2.id))
      ensures nodes[elm1.id] == elm1 && nodes[elm2.id] == elm2
      ensures forall i :: 0 <= i < last && i != elm1.id && i != elm2.id ==> nodes[i] == old(nodes[i])
    {
      var elm1Id := elm1.id;
      elm1.id := elm2.id;
      elm2.id := elm1Id;
      nodes[elm1.id] := elm1;
      nodes[elm2.id] := elm2;
    }

    /** _heap_ify_up. */
    method IfyUp(elm: Node)
      requires Shape() && elm in live && OrderedBut(Keys(), elm.id) && BelowOK(Keys(), elm.id)
      modifies nodes, live`id
      ensures Valid()
    {
      while elm.id > 0
        invariant Shape() && OrderedBut(Keys(), elm.id) && BelowOK(Keys(), elm.id)
        decreases elm.id
      {
        var parentNode := nodes[Parent(elm.id)];
        if parentNode.key <= elm.key { break; }
        SiftUp(Keys(), elm.id);
        Swap(parentNode, elm);
      }
      OrderedIff(Keys(), elm.id);
    }
  
    predicate Exists(id: nat)
      reads this, nodes
    {
      id < last && id < nodes.Length && nodes[id] != null
    }

    /** The child to promote: the one with the smaller key, the left one when they are equal. */
    method SmallerChild(j: nat) returns (kid: Node?)
      requires Shape() && j < last
      ensures kid == null ==> BelowOK(Keys(), j)
      ensures kid != null ==> kid in live && IsSmallerChild(Keys(), j, kid.id)
    {
      Children(j, last);
      var left, right := Left(j), Right(j);
      if !Exists(left) {
        kid := null;
      } else if !Exists(right) {
        kid := nodes[left];
      } else if nodes[right].key < nodes[left].key {
        kid := nodes[right];
      } else {
        kid := nodes[left];
      }
    }

    /** _heap_ify_down. */
    method IfyDown(elm: Node)
      requires Shape() && elm in live && OrderedBut(Keys(), elm.id) && AboveOK(Keys(), elm.id)
      modifies nodes, live`id
      ensures Valid()
    {
      hide *;
      Place(elm);
      var kid := SmallerChild(elm.id);
      while kid != null && elm.key > kid.key
        invariant Shape() && OrderedBut(Keys(), elm.id) && AboveOK(Keys(), elm.id)
        invariant kid == null ==> BelowOK(Keys(), elm.id)
        invariant kid != null ==> kid in live && IsSmallerChild(Keys(), elm.id, kid.id)
        decreases last - elm.id
      {
        Place(elm);
        Place(kid);
        SmallerChildIs(Keys(), elm.id, kid.id);
        SiftDown(Keys(), elm.id, kid.id);
        Swap(kid, elm);
        Place(elm);
        kid := SmallerChild(elm.id);
      }
      Place(elm);
      if kid != null {
        Place(kid);
        SmallerChildIs(Keys(), elm.id, kid.id);
      }
      OrderedIff(Keys(), elm.id);
      IsValid();
    }

    lemma Place(n: Node)
      requires Shape() && n in live
      ensures n.id < last <= nodes.Length && nodes[n.id] == n && |Keys()| == last && Keys()[n.id] == n.key
    {
    }

    lemma IsValid()
      requires Shape() && Ordered(Keys())
      ensures Valid()
    {
    }

    lemma Means()
      requires Valid()
      ensures Shape() && Ordered(Keys()) && |Keys()| == last <= nodes.Length && 0 < nodes.Length
    {
    }

    /** _heap_grow: half as much again above the threshold, twice as much below. */
    method Grow()
      requires Shape()
      modifies this`nodes
      ensures Shape() && Keys() == old(Keys()) && fresh(nodes) && nodes.Length > old(nodes.Length)
      ensures nodes.Length == if old(nodes.Length) > 10000 then old(nodes.Length) + old(nodes.Length) / 2 else 2 * old(nodes.Length)
    {
      var size := nodes.Length;
      var newSize := if size > 10000 then size + size / 2 else 2 * size;
      var old' := nodes;
      var grown := new Node?[newSize](_ => null);
      forall i | 0 <= i < size { grown[i] := old'[i]; }
      nodes := grown;
    }

    /** Put a new node at the end of the array. */
    method PutLast(elm: Node)
      requires Shape() && elm !in live && last < nodes.Length
      modifies this`last, this`live, nodes, elm`id
      ensures Shape() && live == old(live) + {elm} && elm.id == old(last) && Keys() == old(Keys()) + [elm.key]
    {
      ghost var ks := Keys();
      nodes[last] := elm;
      elm.id := last;
      last := last + 1;
      live := live + {elm};
      assert Keys() == ks + [elm.key];
    }

    /** heap_insert. */
    method Insert(dat: Data) returns (elm: Node)
      requires Valid()
      modifies this, nodes, live`id
      ensures Valid() && fresh(elm) && live == old(live) + {elm} && age == old(age)
      ensures Content() == old(Content())[elm := (genKey(dat, age), dat)]
      ensures nodes == old(nodes) || fresh(nodes)
    {
      hide *;
      Means();
      elm := new Node(genKey(dat, age), dat);
      if nodes.Length <= last { Grow(); }
      AddLast(Keys(), elm.key);
      PutLast(elm);
      IfyUp(elm);
      ContentMore(elm);
    }

    twostate lemma ContentMore(new elm: Node)
      requires live == old(live) + {elm} && elm !in old(live)
      requires forall n :: n in old(live) ==> n.key == old(n.key) && n.data == old(n.data)
      ensures Content() == old(Content())[elm := (elm.key, elm.data)]
    {
    }

    /** heap_extractlast. */
    method ExtractLast() returns (data: Data)
      requires Shape() && 0 < last
      modifies this`last, this`live
      ensures Shape() && last == old(last) - 1 && live == old(live) - {nodes[last]} && data == nodes[last].data
      ensures old(nodes[last - 1]) == nodes[last] && Keys() == old(Keys())[..last]
    {
      last := last - 1;
      data := nodes[last].data;
      live := live - {nodes[last]};
      assert Keys() == old(Keys())[..last];
    }

    /** heap_delete: through any handle. */
    method Delete(elm: Node) returns (data: Data)
      requires Valid() && elm in live
      modifies this`last, this`live, nodes, live`id
      ensures Valid() && live == old(live) - {elm} && data == old(elm.data)
      ensures Content() == old(Content()) - {elm}
    {
      hide Heap.Shape, Ordered, OrderedBut, BelowOK, AboveOK, Heap.Valid, Swapped;
      Means();
      Place(elm);
      LastNode();
      data := elm.data;
      var lastNode := nodes[last - 1];
      RemovedKeys(Keys(), elm.id);
      Swap(lastNode, elm);
      var d := ExtractLast();
      if elm == lastNode {
        IsValid();
      } else {
        Settle(lastNode);
      }
    }

    lemma LastNode()
      requires Shape() && 0 < last
      ensures nodes[last - 1] != null && nodes[last - 1] in live && nodes[last - 1].id == last - 1
    {
    }

    lemma ParentNode(n: Node)
      requires Shape() && n in live
      ensures Parent(n.id) < last <= nodes.Length && nodes[Parent(n.id)] != null
      ensures Keys()[Parent(n.id)] == nodes[Parent(n.id)].key
    {
    }

    /** Sift a node whose key may be out of place either way: up if it is below its parent, then down. */
    method Settle(elm: Node)
      requires Shape() && elm in live && OrderedBut(Keys(), elm.id)
      modifies nodes, live`id
      ensures Valid()
    {
      hide *;
      Place(elm);
      ParentNode(elm);
      if elm.key < nodes[Parent(elm.id)].key {
        UpReady(Keys(), elm.id);
        IfyUp(elm);
        Means();
        Place(elm);
        OrderedIff(Keys(), elm.id);
      } else {
        NotBelow(Keys(), elm.id);
      }
      IfyDown(elm);
    }

    /** heap_extractmin: the data of a node with the least key, or none. */
    method ExtractMin() returns (r: Option<Data>, ghost n: Node?)
      requires Valid()
      modifies this`last, this`live, nodes, live`id
      ensures Valid()
      ensures old(live) == {} ==> r == None && live == {}
      ensures old(live) != {} ==>
                && n in old(live) && r == Some(n.data) && live == old(live) - {n}
                && Content() == old(Content()) - {n} && forall m :: m in old(live) ==> n.key <= m.key
    {
      hide Heap.Shape, Ordered, Heap.Valid;
      Means();
      if last <= 0 {
        Nobody();
        return None, null;
      }
      Somebody();
      n := nodes[0];
      Place(n);
      forall m | m in live ensures m.id < last && Keys()[m.id] == m.key { Place(m); }
      forall m | m in live ensures n.key <= m.key { RootIsLeast(Keys(), m.id); }
      var data := nodes[0].data;
      var d := Delete(nodes[0]);
      r := Some(data);
    }

    /** Extracting until nothing is left yields every node once, in the order of the keys. */
    method Drain() returns (out: seq<Data>, ghost order: seq<Node>)
      requires Valid()
      modifies this`last, this`live, nodes, live`id
      ensures Valid() && live == {} && Drained(old(live), order, live)
      ensures |out| == |order| && forall i :: 0 <= i < |order| ==> out[i] == order[i].data
    {
      hide Heap.Valid, Drained;
      out, order := [], [];
      ghost var all := live;
      DrainedNone(live);
      var done := false;
      while !done
        invariant Valid() && live <= all && (done ==> live == {}) && Drained(all, order, live)
        invariant |out| == |order| && forall i :: 0 <= i < |order| ==> out[i] == order[i].data
        decreases |live|, !done
      {
        ghost var before := live;
        ghost var n: Node?;
        var r;
        r, n := ExtractMin();
        if r.Some? {
          DrainedMore(all, order, before, n);
          out := out + [r.value];
          order := order + [n];
          Smaller(before, n);
        } else {
          done := true;
        }
      }
    }

    lemma Nobody()
      requires Shape() && last == 0
      ensures live == {}
    {
    }

    lemma Somebody()
      requires Shape() && 0 < last
      ensures 0 < nodes.Length && nodes[0] != null && nodes[0] in live && nodes[0].id == 0
    {
    }

    /** heap_update: new data, and so a new key, behind a held handle. */
    method Update(elm: Node, dat: Data) returns (was: Data)
      requires Valid() && elm in live
      modifies nodes, live`id, elm`key, elm`data
      ensures Valid() && was == old(elm.data) && Content() == old(Content())[elm := (genKey(dat, age), dat)]
    {
      hide Ordered, OrderedBut, BelowOK, AboveOK, Heap.Valid;
      Means();
      Place(elm);
      was := elm.data;
      ghost var ks := Keys();
      ReplacedBut(ks, elm.id, genKey(dat, age));
      elm.key := genKey(dat, age);
      elm.data := dat;
      assert Keys() == ks[elm.id := elm.key];
      Settle(elm);
    }

    /** heap_peepminkey: the least key. */
    method PeepMinKey() returns (k: real)
      requires Valid() && 0 < last
      ensures (forall m :: m in live ==> k <= m.key) && exists m :: m in live && m.key == k
    {
      k := nodes[0].key;
      assert nodes[0] in live;
      forall m | m in live ensures k <= m.key { RootIsLeast(Keys(), m.id); }
    }

    /** verify_heap_property. */
    method VerifyHeapProperty() returns (correct: bool)
      requires Shape()
      ensures correct <==> Ordered(Keys())
    {
      correct := true;
      var i := 0;
      while i < last / 2
        invariant 0 <= i <= last / 2
        invariant correct && forall k :: 0 < k < last && Parent(k) < i ==> Keys()[Parent(k)] <= Keys()[k]
      {
        Children(i, last);
        correct := true;
        if Exists(Left(i)) && nodes[i].key > nodes[Left(i)].key { correct := false; }
        if Exists(Right(i)) && nodes[i].key > nodes[Right(i)].key { correct := false; }
        if !correct {
          return;
        }
        i := i + 1;
      }
    }
  }

  /** `order` lists, by nondecreasing key, the nodes of `all` that are not in `live` any more. */
  ghost predicate Drained(all: set<Node>, order: seq<Node>, live: set<Node>)
    reads all`key
  {
    && live <= all && (forall m :: m in all ==> m in order || m in live) && (forall m :: m in order ==> m !in live && m in all)
    && (forall i, j :: 0 <= i < j < |order| ==> order[i] != order[j] && order[i] in all && order[j] in all && order[i].key <= order[j].key)
    && (forall i, m :: 0 <= i < |order| && m in live && order[i] in all ==> order[i].key <= m.key)
  }

  lemma DrainedNone(live: set<Node>)
    ensures Drained(live, [], live)
  {
  }

  lemma DrainedMore(all: set<Node>, order: seq<Node>, live: set<Node>, n: Node)
    requires Drained(all, order, live) && n in live && forall m :: m in live ==> n.key <= m.key
    ensures Drained(all, order + [n], live - {n})
  {
    var order' := order + [n];
    forall m | m in all ensures m in order' || m in live - {n} {
      assert m in order ==> m in order';
      assert n in order' by { assert order'[|order|] == n; }
    }
  }

  lemma Smaller(s: set<Node>, n: Node)
    requires n in s
    ensures |s - {n}| < |s|
  {
  }

  /** The last key takes the place of the deleted one. */
  lemma {:induction false} RemovedKeys(ks: seq<real>, j: nat)
    requires Ordered(ks) && j < |ks|
    ensures var n := |ks| - 1;
            var ks' := Swapped(ks, n, j)[..n];
            && (j == n ==> Ordered(ks'))
            && (j < n ==> OrderedBut(ks', j))
  {
    var n := |ks| - 1;
    ReplacedBut(ks, j, ks[n]);
    DropLast(ks[j := ks[n]], j);
    DropLast(ks, j);
    assert Swapped(ks, n, j)[..n] == ks[j := ks[n]][..n];
  }

  // ---------- the contents as a multiset ----------

  type Held = map<Node, (real, Data)>

  ghost function Pick(m: Held): (k: Node)
    requires m.Keys != {}
    ensures k in m
  {
    var k :| k in m.Keys;
    k
  }

  /** The keys and data of a heap, with repetitions. */
  ghost function Bag(m: Held): multiset<(real, Data)>
    decreases |m.Keys|
  {
    if m.Keys == {} then multiset{}
    else
      SmallerKeys(m, Pick(m));
      Bag(m - {Pick(m)}) + multiset{m[Pick(m)]}
  }

  lemma SmallerKeys(m: Held, k: Node)
    requires k in m
    ensures (m - {k}).Keys == m.Keys - {k} && |(m - {k}).Keys| < |m.Keys|
  {
  }

  lemma BagIs(m: Held)
    requires m.Keys != {}
    ensures Bag(m) == Bag(m - {Pick(m)}) + multiset{m[Pick(m)]}
  {
  }

  lemma MinusBoth(m: Held, k: Node, p: Node)
    requires k in m && p in m && p != k
    ensures m - {p} - {k} == m - {k} - {p} && (m - {p})[k] == m[k] && (m - {k})[p] == m[p]
    ensures k in m - {p} && p in m - {k}
  {
  }

  lemma {:induction false} BagWithout(m: Held, k: Node)
    requires k in m
    ensures Bag(m) == Bag(m - {k}) + multiset{m[k]}
    decreases |m.Keys|
  {
    hide Bag, Pick;
    var p := Pick(m);
    BagIs(m);
    if p != k {
      MinusBoth(m, k, p);
      SmallerKeys(m, p);
      SmallerKeys(m, k);
      BagWithout(m - {p}, k);
      BagWithout(m - {k}, p);
    }
  }

  lemma MinusAfter(m: Held, elm: Node, new': Node, v: (real, Data))
    requires elm in m && new' !in m
    ensures m[elm := v] - {elm} == m - {elm} && (m - {elm})[new' := v] - {new'} == m - {elm}
  {
  }

  /** Updating a handle has the effect of deleting it and inserting the new data. */
  lemma {:induction false} UpdateIsDeleteInsert(m: Held, elm: Node, new': Node, v: (real, Data))
    requires elm in m && new' !in m
    ensures Bag(m[elm := v]) == Bag((m - {elm})[new' := v])
    ensures Bag(m[elm := v]) + multiset{m[elm]} == Bag(m) + multiset{v}
  {
    hide Bag;
    MinusAfter(m, elm, new', v);
    BagWithout(m[elm := v], elm);
    BagWithout((m - {elm})[new' := v], new');
    BagWithout(m, elm);
  }
}
