/** include/splay.h as a whole: any run of find, insert and remove on a new set, what it answers and what it costs. */
module SplayRuns {
  import opened Basics
  import opened SplayNodes
  import opened SplayCost
  import opened SplayTree

  datatype Op = DoFind(v: V) | DoInsert(v: V) | DoRemove(v: V)

  /** Whether a value equal to `v` is a member after the calls: the last insert or remove of such a value decides. */
  ghost predicate Has(ops: seq<Op>, v: V, compare: (V, V) -> int) {
    if ops == [] then false
    else
      var (front, op) := (ops[..|ops| - 1], ops[|ops| - 1]);
      if op.DoFind? || compare(v, op.v) != 0 then Has(front, v, compare) else op.DoInsert?
  }

  lemma HasMore(ops: seq<Op>, i: nat, v: V, compare: (V, V) -> int)
    requires i < |ops|
    ensures Has(ops[..i + 1], v, compare) ==
            if ops[i].DoFind? || compare(v, ops[i].v) != 0 then Has(ops[..i], v, compare) else ops[i].DoInsert?
  {
    assert ops[..i + 1][..i] == ops[..i];
  }

  /** The set holds exactly what the calls left in it. */
  ghost predicate Holds(items: seq<Node>, ops: seq<Op>, compare: (V, V) -> int) {
    forall v :: Member(items, Against(v, compare)) <==> Has(ops, v, compare)
  }

  // ---------- equality up to the comparison ----------

  lemma SameSign(u: V, v: V, w: V, compare: (V, V) -> int)
    requires Order(compare) && compare(u, v) == 0
    ensures compare(u, w) == 0 <==> compare(v, w) == 0
    ensures compare(v, u) == 0
  {
    assert compare(v, u) == 0;
    assert compare(v, w) < 0 ==> compare(u, w) < 0;
    assert compare(u, w) < 0 ==> compare(v, w) < 0;
    assert compare(w, v) < 0 ==> compare(w, u) < 0;
    assert compare(w, u) < 0 ==> compare(w, v) < 0;
  }

  lemma {:induction false} SameMember(items: seq<Node>, u: V, v: V, compare: (V, V) -> int)
    requires Order(compare) && compare(u, v) == 0
    ensures Member(items, Against(u, compare)) <==> Member(items, Against(v, compare))
  {
    hide Order;
    AgainstIs(u, compare);
    AgainstIs(v, compare);
    if Member(items, Against(u, compare)) {
      var i :| 0 <= i < |items| && Against(u, compare)(items[i].data) == 0;
      SameSign(u, v, items[i].data, compare);
      assert Against(v, compare)(items[i].data) == 0;
    }
    if Member(items, Against(v, compare)) {
      var i :| 0 <= i < |items| && Against(v, compare)(items[i].data) == 0;
      SameSign(u, v, items[i].data, compare);
      assert Against(u, compare)(items[i].data) == 0;
    }
  }

  lemma {:induction false} PutMember(s: seq<Node>, n: Node, s': seq<Node>, v: V, compare: (V, V) -> int)
    requires PutIn<Node>(s, n, s')
    ensures Member(s', Against(v, compare)) <==> Member(s, Against(v, compare)) || compare(v, n.data) == 0
  {
    AgainstIs(v, compare);
    var p :| 0 <= p <= |s| && s' == s[..p] + [n] + s[p..];
    var cmp := Against(v, compare);
    assert s'[p] == n;
    if i :| 0 <= i < |s| && cmp(s[i].data) == 0 { assert s'[if i < p then i else i + 1] == s[i]; }
    if j :| 0 <= j < |s'| && cmp(s'[j].data) == 0 {
      assert j != p ==> s'[j] == s[if j < p then j else j - 1];
    }
  }

  /** Some element equals `v`. */
  ghost predicate Equals(s: seq<Node>, j: int, v: V, compare: (V, V) -> int) {
    0 <= j < |s| && compare(v, s[j].data) == 0
  }

  lemma MemberAt(s: seq<Node>, v: V, compare: (V, V) -> int)
    ensures Member(s, Against(v, compare)) <==> exists j :: Equals(s, j, v, compare)
  {
    AgainstIs(v, compare);
    if j :| Equals(s, j, v, compare) { assert Against(v, compare)(s[j].data) == 0; }
    if i :| 0 <= i < |s| && Against(v, compare)(s[i].data) == 0 { assert Equals(s, i, v, compare); }
  }

  /** Taking the element at `i` out. */
  lemma TakenAt(s: seq<Node>, i: nat, s': seq<Node>, v: V, compare: (V, V) -> int)
    requires i < |s| && s' == s[..i] + s[i + 1..]
    ensures forall j :: Equals(s, j, v, compare) && j != i ==> Equals(s', if j < i then j else j - 1, v, compare)
    ensures forall j :: Equals(s', j, v, compare) ==> Equals(s, if j < i then j else j + 1, v, compare)
  {
  }

  lemma {:induction false} TakenMember(s: seq<Node>, x: V, s': seq<Node>, v: V, compare: (V, V) -> int)
    requires Order(compare) && Sorted(s, compare) && TakenOut(s, Against(x, compare), s')
    ensures Member(s', Against(v, compare)) <==> Member(s, Against(v, compare)) && compare(v, x) != 0
  {
    hide Order, Sorted, Member, Against;
    AgainstIs(x, compare);
    var i :| 0 <= i < |s| && Against(x, compare)(s[i].data) == 0 && s' == s[..i] + s[i + 1..];
    MemberAt(s, v, compare);
    MemberAt(s', v, compare);
    TakenAt(s, i, s', v, compare);
    OnlyEqual(s, i, x, compare);
    if Member(s, Against(v, compare)) && compare(v, x) != 0 {
      var j :| Equals(s, j, v, compare);
      if j == i { FromRight(v, x, s[i].data, compare); }
    }
    if Member(s', Against(v, compare)) {
      var j :| Equals(s', j, v, compare);
      var k := if j < i then j else j + 1;
      if compare(v, x) == 0 { SameSign(v, x, s[k].data, compare); }
    }
  }

  /** Two values equal to a third are equal. */
  lemma FromRight(u: V, v: V, w: V, compare: (V, V) -> int)
    requires Order(compare) && compare(u, w) == 0 && compare(v, w) == 0
    ensures compare(u, v) == 0
  {
    hide Order;
    SameSign(u, w, v, compare);
    SameSign(v, w, v, compare);
  }

  /** In a sorted sequence one element at most equals a value. */
  lemma OnlyEqual(s: seq<Node>, i: nat, x: V, compare: (V, V) -> int)
    requires Order(compare) && Sorted(s, compare) && i < |s| && compare(x, s[i].data) == 0
    ensures forall k :: 0 <= k < |s| && k != i ==> compare(x, s[k].data) != 0
  {
    forall k | 0 <= k < |s| && k != i ensures compare(x, s[k].data) != 0 {
      SameSign(x, s[i].data, s[k].data, compare);
      if k < i { assert compare(s[k].data, s[i].data) < 0; } else { assert compare(s[i].data, s[k].data) < 0; }
    }
  }

  // ---------- one call ----------

  lemma {:induction false} InsertHolds(s: seq<Node>, s': seq<Node>, n: Node?, ops: seq<Op>, i: nat, compare: (V, V) -> int)
    requires Order(compare) && i < |ops| && ops[i].DoInsert? && Holds(s, ops[..i], compare)
    requires Member(s, Against(ops[i].v, compare)) ==> s' == s
    requires !Member(s, Against(ops[i].v, compare)) ==> n != null && n.data == ops[i].v && PutIn<Node>(s, n, s')
    ensures Holds(s', ops[..i + 1], compare)
  {
    hide Order, Has, Member, PutIn;
    forall v ensures Member(s', Against(v, compare)) <==> Has(ops[..i + 1], v, compare) {
      HasMore(ops, i, v, compare);
      if Member(s, Against(ops[i].v, compare)) {
        if compare(v, ops[i].v) == 0 { SameMember(s, v, ops[i].v, compare); }
      } else {
        PutMember(s, n, s', v, compare);
      }
    }
  }

  lemma {:induction false} RemoveHolds(s: seq<Node>, s': seq<Node>, ops: seq<Op>, i: nat, compare: (V, V) -> int)
    requires Order(compare) && Sorted(s, compare) && i < |ops| && ops[i].DoRemove? && Holds(s, ops[..i], compare)
    requires !Member(s, Against(ops[i].v, compare)) ==> s' == s
    requires Member(s, Against(ops[i].v, compare)) ==> TakenOut(s, Against(ops[i].v, compare), s')
    ensures Holds(s', ops[..i + 1], compare)
  {
    hide Order, Sorted, Has, Member, TakenOut;
    forall v ensures Member(s', Against(v, compare)) <==> Has(ops[..i + 1], v, compare) {
      HasMore(ops, i, v, compare);
      if Member(s, Against(ops[i].v, compare)) {
        TakenMember(s, ops[i].v, s', v, compare);
      } else {
        if compare(v, ops[i].v) == 0 { SameMember(s, v, ops[i].v, compare); }
      }
    }
  }

  lemma FindHolds(s: seq<Node>, ops: seq<Op>, i: nat, compare: (V, V) -> int)
    requires i < |ops| && ops[i].DoFind? && Holds(s, ops[..i], compare)
    ensures Holds(s, ops[..i + 1], compare)
  {
    hide Has, Member;
    forall v ensures Member(s, Against(v, compare)) <==> Has(ops[..i + 1], v, compare) { HasMore(ops, i, v, compare); }
  }

  /** One call of a run. */
  method Perform(s: SplaySet, g: LastResult, ops: seq<Op>, i: nat, compare: (V, V) -> int) returns (answer: bool)
    requires s.Valid() && Order(compare) && Sorted(s.Items(), compare) && i < |ops|
    requires Holds(s.Items(), ops[..i], compare) && |s.Items()| <= i
    modifies s, g, s.nodes`left, s.nodes`right
    ensures s.Valid() && Sorted(s.Items(), compare) && fresh(s.nodes - old(s.nodes))
    ensures Holds(s.Items(), ops[..i + 1], compare) && |s.Items()| <= i + 1
    ensures ops[i].DoFind? ==> (answer <==> Has(ops[..i], ops[i].v, compare))
    ensures s.Account(g) <= old(s.Account(g)) + Fee(i)
  {
    hide SplaySet.Valid, SplaySet.Account, Order, Sorted, Has, Member, PutIn, TakenOut, SplayFee, Fee, SplaySet.Items;
    ghost var before := s.Items();
    FeeMono(|before|, i);
    FeeCovers(|before|);
    answer := false;
    match ops[i]
    case DoFind(v) =>
      SortedMonotone(before, v, compare);
      var found := s.Find(v, compare, g);
      answer := found != null;
      FindHolds(before, ops, i, compare);
    case DoInsert(v) =>
      s.Insert(v, compare, g);
      InsertHolds(before, s.Items(), s.head, ops, i, compare);
      if !Member(before, Against(v, compare)) { PutLength(before, s.head, s.Items()); }
    case DoRemove(v) =>
      s.Remove(v, compare, g);
      RemoveHolds(before, s.Items(), ops, i, compare);
      if Member(before, Against(v, compare)) { TakenSorted(before, Against(v, compare), s.Items(), compare); }
  }

  /**
   Any run of calls on a new set: every find answers whether the last insert or remove of that value was an
   insert, and all calls together make at most `3 * (12 * log2(m + 1) + 4)` comparisons each, on average, for `m` calls.
   */
  method Serve(ops: seq<Op>, compare: (V, V) -> int) returns (answers: seq<bool>, g: LastResult)
    requires Order(compare)
    ensures |answers| == |ops|
    ensures forall i :: 0 <= i < |ops| && ops[i].DoFind? ==> (answers[i] <==> Has(ops[..i], ops[i].v, compare))
    ensures g.compared <= |ops| * (3 * (12 * Log2(|ops| + 1) + 4))
  {
    hide SplaySet.Valid, SplaySet.Account, Order, Sorted, Has, Member, Fee, SplaySet.Items;
    var items := new SplaySet();
    g := new LastResult();
    answers := [];
    assert ops[..0] == [];
    StartHolds(items.Items(), compare);
    EmptyAccount(items, g);
    var i := 0;
    while i < |ops|
      invariant 0 <= i <= |ops| && fresh(items) && fresh(g) && fresh(items.nodes) && items.Valid()
      invariant Sorted(items.Items(), compare) && Holds(items.Items(), ops[..i], compare) && |items.Items()| <= i
      invariant |answers| == i && items.Account(g) <= i * Fee(|ops|)
      invariant forall k :: 0 <= k < i && ops[k].DoFind? ==> (answers[k] <==> Has(ops[..k], ops[k].v, compare))
    {
      FeeMono(i, |ops|);
      var answer := Perform(items, g, ops, i, compare);
      answers := answers + [answer];
      OneMore(i, Fee(|ops|));
      i := i + 1;
    }
    AccountCovers(items, g);
    FeeIs(|ops|);
  }

  lemma StartHolds(items: seq<Node>, compare: (V, V) -> int)
    requires items == []
    ensures Holds(items, [], compare) && Sorted(items, compare)
  {
  }

  lemma EmptyAccount(s: SplaySet, g: LastResult)
    requires s.Valid() && s.Items() == [] && g.compared == 0
    ensures s.Account(g) == 0
  {
    SizeIs(s.tree);
  }

  lemma AccountCovers(s: SplaySet, g: LastResult)
    ensures g.compared <= s.Account(g)
  {
  }

  lemma OneMore(i: nat, f: nat)
    ensures (i + 1) * f == i * f + f
  {
  }

  lemma FeeIs(n: nat)
    ensures Fee(n) == 3 * (12 * Log2(n + 1) + 4)
  {
  }
}
