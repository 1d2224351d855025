/**
 include/splay.h: the tree that splaying makes of a tree, as a recursive function, and what it is worth: the
 nodes of the search path come up to half their depth, and the comparisons are paid for by the change in
 shape, so that any run is cheap however bad the shape it starts from.
 */
module SplayCost {
  import opened SplayNodes

  // ---------- the tree after a splay ----------

  /**
   The node where the search ends comes to the top. Two steps to one side bring one node into the spine of
   that side, with the node before it below; a single step brings one.
   */
  ghost function Brought(t: Tree, cmp: V -> int): (b: Tree)
    requires t.Bin?
    ensures b.Bin?
  {
    if cmp(t.n.data) < 0 && t.left.Bin? then
      var y := t.left;
      if cmp(y.n.data) >= 0 then
        var b := Brought(y, cmp);
        Bin(b.n, b.left, Bin(t.n, b.right, t.right))
      else if y.left.Nil? then
        Bin(y.n, Nil, Bin(t.n, y.right, t.right))
      else
        var b := Brought(y.left, cmp);
        Bin(b.n, b.left, Bin(y.n, b.right, Bin(t.n, y.right, t.right)))
    else if cmp(t.n.data) > 0 && t.right.Bin? then
      var y := t.right;
      if cmp(y.n.data) <= 0 then
        var b := Brought(y, cmp);
        Bin(b.n, Bin(t.n, t.left, b.left), b.right)
      else if y.right.Nil? then
        Bin(y.n, Bin(t.n, t.left, y.left), Nil)
      else
        var b := Brought(y.right, cmp);
        Bin(b.n, Bin(y.n, Bin(t.n, t.left, y.left), b.left), b.right)
    else t
  }

  /** How many comparisons that takes: one at each top, one at each child looked at. */
  ghost function Comparisons(t: Tree, cmp: V -> int): nat
    requires t.Bin?
  {
    if cmp(t.n.data) < 0 && t.left.Bin? then
      if cmp(t.left.n.data) >= 0 then 2 + Comparisons(t.left, cmp)
      else if t.left.left.Nil? then 2
      else 2 + Comparisons(t.left.left, cmp)
    else if cmp(t.n.data) > 0 && t.right.Bin? then
      if cmp(t.right.n.data) <= 0 then 2 + Comparisons(t.right, cmp)
      else if t.right.right.Nil? then 2
      else 2 + Comparisons(t.right.right, cmp)
    else 1
  }

  // ---------- both sides at once ----------

  /** The child on a side, and the other one. */
  ghost function Near(t: Tree, right: bool): Tree
    requires t.Bin?
  {
    if right then t.right else t.left
  }

  ghost function Far(t: Tree, right: bool): Tree
    requires t.Bin?
  {
    if right then t.left else t.right
  }

  /** The key belongs on that side of `t`, and there is something there. */
  ghost predicate Goes(t: Tree, cmp: V -> int, right: bool) {
    t.Bin? && Near(t, right).Bin? && Wants(t, cmp, right)
  }

  ghost predicate Wants(t: Tree, cmp: V -> int, right: bool)
    requires t.Bin?
  {
    if right then cmp(t.n.data) > 0 else cmp(t.n.data) < 0
  }

  ghost predicate Stays(t: Tree, cmp: V -> int) {
    t.Bin? && !Goes(t, cmp, false) && !Goes(t, cmp, true)
  }

  /** Two steps to one side. */
  ghost predicate GoesTwice(t: Tree, cmp: V -> int, right: bool) {
    Goes(t, cmp, right) && Goes(Near(t, right), cmp, right)
  }

  /** One step, after which the key belongs on the same side, where there is nothing. */
  ghost predicate GoesLast(t: Tree, cmp: V -> int, right: bool) {
    Goes(t, cmp, right) && Wants(Near(t, right), cmp, right) && Near(Near(t, right), right).Nil?
  }

  /** One step, after which the key is found or belongs on the other side. */
  ghost predicate GoesOnce(t: Tree, cmp: V -> int, right: bool) {
    Goes(t, cmp, right) && !Wants(Near(t, right), cmp, right)
  }

  ghost function Made(n: Node, near: Tree, far: Tree, right: bool): Tree {
    if right then Bin(n, far, near) else Bin(n, near, far)
  }

  lemma Cases(t: Tree, cmp: V -> int) returns (right: bool)
    requires t.Bin?
    ensures Stays(t, cmp) || GoesTwice(t, cmp, right) || GoesLast(t, cmp, right) || GoesOnce(t, cmp, right)
  {
    right := Goes(t, cmp, true);
  }

  lemma BroughtStays(t: Tree, cmp: V -> int)
    requires Stays(t, cmp)
    ensures Brought(t, cmp) == t && Comparisons(t, cmp) == 1
  {
    assert !Goes(t, cmp, false) && !Goes(t, cmp, true);
  }

  lemma BroughtTwice(t: Tree, cmp: V -> int, right: bool)
    requires GoesTwice(t, cmp, right)
    ensures var y := Near(t, right);
            var (w, low) := (Near(y, right), Made(t.n, Far(y, right), Far(t, right), right));
            var b := Brought(w, cmp);
            && Brought(t, cmp) == Made(b.n, Near(b, right), Made(y.n, Far(b, right), low, right), right)
            && Comparisons(t, cmp) == 2 + Comparisons(w, cmp)
  {
  }

  lemma BroughtLast(t: Tree, cmp: V -> int, right: bool)
    requires GoesLast(t, cmp, right)
    ensures var y := Near(t, right);
            && Brought(t, cmp) == Made(y.n, Nil, Made(t.n, Far(y, right), Far(t, right), right), right)
            && Comparisons(t, cmp) == 2
  {
  }

  lemma BroughtOnce(t: Tree, cmp: V -> int, right: bool)
    requires GoesOnce(t, cmp, right)
    ensures var b := Brought(Near(t, right), cmp);
            && Brought(t, cmp) == Made(b.n, Near(b, right), Made(t.n, Far(b, right), Far(t, right), right), right)
            && Comparisons(t, cmp) == 2 + Comparisons(Near(t, right), cmp)
  {
  }

  // ---------- sizes and ranks ----------

  /** The logarithm to base two, rounded down. */
  function Log2(n: nat): nat {
    if n < 2 then 0 else 1 + Log2(n / 2)
  }

  lemma LogSmall(n: nat)
    ensures n < 2 ==> Log2(n) == 0
    ensures 2 <= n < 4 ==> Log2(n) == 1
  {
  }

  lemma {:induction false} LogMono(a: nat, b: nat)
    requires a <= b
    ensures Log2(a) <= Log2(b)
  {
    if a >= 2 { LogMono(a / 2, b / 2); }
  }

  /** Two parts of a whole cannot both be as great as the whole. */
  lemma {:induction false} LogParts(a: nat, b: nat, c: nat)
    requires 1 <= a && 1 <= b && a + b <= c
    ensures Log2(a) + Log2(b) + 1 <= 2 * Log2(c)
  {
    if a >= 2 && b >= 2 {
      LogParts(a / 2, b / 2, c / 2);
    } else {
      var m := if a >= 2 then a else b;
      LogMono(m, c);
      LogMono(2, c);
      LogDouble(m, c);
    }
  }

  lemma {:induction false} LogDouble(m: nat, c: nat)
    requires 1 <= m < c
    ensures Log2(m) + 1 <= 2 * Log2(c)
  {
    LogMono(m, c);
    LogMono(2, c);
    LogSmall(2);
  }

  ghost function Rank(t: Tree): nat {
    Log2(Size(t))
  }

  /** The potential of a shape: the ranks of all subtrees. */
  ghost function Potential(t: Tree): nat {
    if t.Nil? then 0 else Rank(t) + Potential(t.left) + Potential(t.right)
  }

  lemma MadeFacts(n: Node, near: Tree, far: Tree, right: bool)
    ensures Size(Made(n, near, far, right)) == 1 + Size(near) + Size(far)
    ensures Potential(Made(n, near, far, right)) == Rank(Made(n, near, far, right)) + Potential(near) + Potential(far)
    ensures Near(Made(n, near, far, right), right) == near && Far(Made(n, near, far, right), right) == far
  {
  }

  lemma NearFacts(t: Tree, right: bool)
    requires t.Bin?
    ensures Size(t) == 1 + Size(Near(t, right)) + Size(Far(t, right))
    ensures Potential(t) == Rank(t) + Potential(Near(t, right)) + Potential(Far(t, right))
    ensures t == Made(t.n, Near(t, right), Far(t, right), right)
    ensures Near(t, !right) == Far(t, right) && Far(t, !right) == Near(t, right)
  {
  }

  lemma {:induction false} BroughtSize(t: Tree, cmp: V -> int)
    requires t.Bin?
    ensures Size(Brought(t, cmp)) == Size(t)
    decreases t
  {
    hide Brought, Comparisons, Made, Near, Far, Wants, Size;
    var right := Cases(t, cmp);
    if Stays(t, cmp) {
      BroughtStays(t, cmp);
    } else {
      var y := Near(t, right);
      SmallerNear(t, right);
      NearFacts(t, right);
      NearFacts(y, right);
      if GoesTwice(t, cmp, right) {
        var b := Brought(Near(y, right), cmp);
        SmallerNear(y, right);
        BroughtTwice(t, cmp, right);
        BroughtSize(Near(y, right), cmp);
        NearFacts(b, right);
        MadeFacts(t.n, Far(y, right), Far(t, right), right);
        MadeFacts(y.n, Far(b, right), Made(t.n, Far(y, right), Far(t, right), right), right);
        MadeFacts(b.n, Near(b, right), Made(y.n, Far(b, right), Made(t.n, Far(y, right), Far(t, right), right), right), right);
      } else if GoesLast(t, cmp, right) {
        BroughtLast(t, cmp, right);
        MadeFacts(t.n, Far(y, right), Far(t, right), right);
        MadeFacts(y.n, Nil, Made(t.n, Far(y, right), Far(t, right), right), right);
        NilSize();
      } else {
        var b := Brought(y, cmp);
        BroughtOnce(t, cmp, right);
        BroughtSize(y, cmp);
        NearFacts(b, right);
        MadeFacts(t.n, Far(b, right), Far(t, right), right);
        MadeFacts(b.n, Near(b, right), Made(t.n, Far(b, right), Far(t, right), right), right);
      }
    }
  }

  lemma SmallerNear(t: Tree, right: bool)
    requires t.Bin?
    ensures t decreases to Near(t, right)
  {
  }

  lemma NilSize()
    ensures Size(Nil) == 0 && Potential(Nil) == 0
  {
  }

  // ---------- what one splay costs ----------

  /** Comparisons and the change of four times the potential. */
  ghost function Cost(t: Tree, cmp: V -> int): int
    requires t.Bin?
  {
    Comparisons(t, cmp) + 4 * Potential(Brought(t, cmp)) - 4 * Potential(t)
  }

  lemma {:induction false} CostStays(t: Tree, cmp: V -> int)
    requires Stays(t, cmp)
    ensures Cost(t, cmp) == 1
  {
    hide Brought, Comparisons, Potential;
    BroughtStays(t, cmp);
  }

  lemma {:induction false} CostOnce(t: Tree, cmp: V -> int, right: bool)
    requires GoesOnce(t, cmp, right)
    ensures var (y, b) := (Near(t, right), Brought(t, cmp));
            Cost(t, cmp) == 2 + Cost(y, cmp) + 4 * (Rank(Far(b, right)) - Rank(y)) && Near(b, right) == Near(Brought(y, cmp), right) && Size(Far(b, right)) >= 1
  {
    hide Brought, Comparisons, Potential, Size, Log2, Made, Near, Far, Wants;
    var y := Near(t, right);
    BroughtOnce(t, cmp, right);
    BroughtSize(t, cmp);
    BroughtSize(y, cmp);
    var b := Brought(y, cmp);
    var far := Made(t.n, Far(b, right), Far(t, right), right);
    NearFacts(t, right);
    NearFacts(b, right);
    MadeFacts(t.n, Far(b, right), Far(t, right), right);
    MadeFacts(b.n, Near(b, right), far, right);
  }

  lemma {:induction false} CostLast(t: Tree, cmp: V -> int, right: bool)
    requires GoesLast(t, cmp, right)
    ensures var (y, b) := (Near(t, right), Brought(t, cmp));
            Cost(t, cmp) == 2 + 4 * (Rank(Far(b, right)) - Rank(y)) && Size(Far(b, right)) >= 1
  {
    hide Brought, Comparisons, Log2, Made, Near, Far, Wants;
    var y := Near(t, right);
    BroughtLast(t, cmp, right);
    BroughtSize(t, cmp);
    NearFacts(t, right);
    NearFacts(y, right);
    var far := Made(t.n, Far(y, right), Far(t, right), right);
    MadeFacts(t.n, Far(y, right), Far(t, right), right);
    MadeFacts(y.n, Nil, far, right);
  }

  lemma {:induction false} CostTwice(t: Tree, cmp: V -> int, right: bool)
    requires GoesTwice(t, cmp, right)
    ensures var (y, b) := (Near(t, right), Brought(t, cmp));
            var (w, low) := (Near(y, right), Made(t.n, Far(y, right), Far(t, right), right));
            && Cost(t, cmp) == 2 + Cost(w, cmp) + 4 * (Rank(Far(b, right)) + Rank(low) - Rank(y) - Rank(w))
            && Size(low) + Size(w) < Size(t) && Size(w) < Size(y) < Size(t)
            && Near(b, right) == Near(Brought(w, cmp), right) && Size(Far(b, right)) >= 1 && Size(low) >= 1 && Size(w) >= 1
  {
    hide Brought, Comparisons, Potential, Size, Log2, Made, Near, Far, Wants;
    var y := Near(t, right);
    var w := Near(y, right);
    BroughtTwice(t, cmp, right);
    BroughtSize(t, cmp);
    BroughtSize(w, cmp);
    var b := Brought(w, cmp);
    var low := Made(t.n, Far(y, right), Far(t, right), right);
    var far := Made(y.n, Far(b, right), low, right);
    NearFacts(t, right);
    NearFacts(y, right);
    NearFacts(b, right);
    MadeFacts(t.n, Far(y, right), Far(t, right), right);
    MadeFacts(y.n, Far(b, right), low, right);
    MadeFacts(b.n, Near(b, right), far, right);
  }

  lemma RankMono(a: Tree, b: Tree)
    requires Size(a) <= Size(b)
    ensures Rank(a) <= Rank(b)
  {
    LogMono(Size(a), Size(b));
  }

  lemma RankParts(a: Tree, b: Tree, c: Tree)
    requires 1 <= Size(a) && 1 <= Size(b) && Size(a) + Size(b) <= Size(c)
    ensures Rank(a) + Rank(b) + 1 <= 2 * Rank(c)
  {
    LogParts(Size(a), Size(b), Size(c));
  }

  lemma {:induction false} TwicePays(t: Tree, cmp: V -> int, right: bool)
    requires GoesTwice(t, cmp, right)
    ensures Cost(t, cmp) <= Cost(Near(Near(t, right), right), cmp) + 12 * (Rank(t) - Rank(Near(Near(t, right), right)))
  {
    hide Cost, Brought, Rank, Size, Made, Near, Far, Wants;
    var (y, b) := (Near(t, right), Brought(t, cmp));
    var (w, low) := (Near(y, right), Made(t.n, Far(y, right), Far(t, right), right));
    CostTwice(t, cmp, right);
    BroughtSize(t, cmp);
    NearFacts(b, right);
    RankMono(Far(b, right), t);
    RankMono(w, y);
    RankParts(low, w, t);
  }

  /** A step to one side and two to the other. */
  lemma {:induction false} OnceTwicePays(t: Tree, cmp: V -> int, right: bool)
    requires GoesOnce(t, cmp, right) && GoesTwice(Near(t, right), cmp, !right)
    ensures var w := Near(Near(Near(t, right), !right), !right);
            Cost(t, cmp) <= Cost(w, cmp) + 12 * (Rank(t) - Rank(w))
  {
    hide Cost, Brought, Rank, Size, Made, Near, Far, Wants;
    var (y, b) := (Near(t, right), Brought(t, cmp));
    var (z, raised) := (Near(y, !right), Brought(y, cmp));
    var (w, low) := (Near(z, !right), Made(y.n, Far(z, !right), Far(y, !right), !right));
    CostOnce(t, cmp, right);
    CostTwice(y, cmp, !right);
    BroughtSize(t, cmp);
    NearFacts(t, right);
    NearFacts(b, right);
    NearFacts(raised, right);
    RankParts(Far(b, right), Far(raised, !right), t);
    RankParts(low, w, y);
    RankMono(w, z);
    RankMono(y, t);
  }

  /** A step to one side and one to the other. */
  lemma {:induction false} OnceOncePays(t: Tree, cmp: V -> int, right: bool)
    requires GoesOnce(t, cmp, right) && GoesOnce(Near(t, right), cmp, !right)
    ensures var z := Near(Near(t, right), !right);
            Cost(t, cmp) <= Cost(z, cmp) + 12 * (Rank(t) - Rank(z))
  {
    hide Cost, Brought, Rank, Size, Made, Near, Far, Wants;
    var (y, b) := (Near(t, right), Brought(t, cmp));
    var (z, raised) := (Near(y, !right), Brought(y, cmp));
    CostOnce(t, cmp, right);
    CostOnce(y, cmp, !right);
    BroughtSize(t, cmp);
    NearFacts(t, right);
    NearFacts(y, !right);
    NearFacts(b, right);
    NearFacts(raised, right);
    RankParts(Far(b, right), Far(raised, !right), t);
    RankMono(z, y);
    RankMono(z, t);
  }

  /** The search ends after a step, or after a step to one side and one to the other. */
  lemma {:induction false} EndPays(t: Tree, cmp: V -> int, right: bool)
    requires GoesLast(t, cmp, right) || (GoesOnce(t, cmp, right) && Stays(Near(t, right), cmp))
             || (GoesOnce(t, cmp, right) && GoesLast(Near(t, right), cmp, !right))
    ensures Cost(t, cmp) <= 12 * Rank(t) + 4
  {
    hide Cost, Brought, Rank, Size, Made, Near, Far, Wants;
    var (y, b) := (Near(t, right), Brought(t, cmp));
    BroughtSize(t, cmp);
    NearFacts(t, right);
    NearFacts(b, right);
    RankMono(Far(b, right), t);
    if GoesLast(t, cmp, right) {
      CostLast(t, cmp, right);
    } else {
      CostOnce(t, cmp, right);
      if Stays(y, cmp) {
        CostStays(y, cmp);
      } else {
        var raised := Brought(y, cmp);
        CostLast(y, cmp, !right);
        BroughtSize(y, cmp);
        NearFacts(raised, !right);
        RankMono(Far(raised, !right), y);
      }
    }
  }

  /**
   The comparisons of one splay, with what the new shape is worth more, are at most logarithmic: a search down
   a long path is paid for by the better shape it leaves.
   */
  lemma {:induction false} Access(t: Tree, cmp: V -> int)
    requires t.Bin?
    ensures Comparisons(t, cmp) + 4 * Potential(Brought(t, cmp)) <= 4 * Potential(t) + 12 * Log2(Size(t)) + 4
    decreases t
  {
    CostBound(t, cmp);
  }

  lemma {:induction false} CostBound(t: Tree, cmp: V -> int)
    requires t.Bin?
    ensures Cost(t, cmp) <= 12 * Rank(t) + 4
    decreases t
  {
    hide Cost, Brought, Rank, Size, Near, Wants;
    var right := Cases(t, cmp);
    if Stays(t, cmp) {
      CostStays(t, cmp);
    } else {
      var y := Near(t, right);
      SmallerNear(t, right);
      if GoesTwice(t, cmp, right) {
        SmallerNear(y, right);
        TwicePays(t, cmp, right);
        CostBound(Near(y, right), cmp);
      } else if GoesLast(t, cmp, right) || Stays(y, cmp) || GoesLast(y, cmp, !right) {
        EndPays(t, cmp, right);
      } else {
        OtherSide(t, cmp, right);
        var z := Near(y, !right);
        SmallerNear(y, !right);
        if GoesTwice(y, cmp, !right) {
          SmallerNear(z, !right);
          OnceTwicePays(t, cmp, right);
          CostBound(Near(z, !right), cmp);
        } else {
          OnceOncePays(t, cmp, right);
          CostBound(z, cmp);
        }
      }
    }
  }

  /** After a single step the search goes on to the other side, if it goes on. */
  lemma OtherSide(t: Tree, cmp: V -> int, right: bool)
    requires GoesOnce(t, cmp, right) && !Stays(Near(t, right), cmp)
    ensures var y := Near(t, right); Goes(y, cmp, !right)
    ensures var y := Near(t, right); GoesTwice(y, cmp, !right) || GoesLast(y, cmp, !right) || GoesOnce(y, cmp, !right)
  {
    if right { assert Goes(Near(t, right), cmp, false); } else { assert Goes(Near(t, right), cmp, true); }
  }

  // ---------- how far nodes come up ----------

  /** The nodes compared with, from the top down. */
  ghost function SearchPath(t: Tree, cmp: V -> int): (p: seq<Node>)
    requires t.Bin?
    ensures p != []
  {
    if cmp(t.n.data) < 0 && t.left.Bin? then [t.n] + SearchPath(t.left, cmp)
    else if cmp(t.n.data) > 0 && t.right.Bin? then [t.n] + SearchPath(t.right, cmp)
    else [t.n]
  }

  /** `x` is `d` steps below the top. */
  ghost predicate IsAt(t: Tree, x: Node, d: nat) {
    t.Bin? && if d == 0 then t.n == x else IsAt(t.left, x, d - 1) || IsAt(t.right, x, d - 1)
  }

  lemma PathGoes(t: Tree, cmp: V -> int, right: bool)
    requires Goes(t, cmp, right)
    ensures SearchPath(t, cmp) == [t.n] + SearchPath(Near(t, right), cmp)
  {
  }

  lemma PathStays(t: Tree, cmp: V -> int)
    requires Stays(t, cmp)
    ensures SearchPath(t, cmp) == [t.n]
  {
    assert !Goes(t, cmp, false) && !Goes(t, cmp, true);
  }

  lemma LastStays(t: Tree, cmp: V -> int, right: bool)
    requires GoesLast(t, cmp, right)
    ensures Stays(Near(t, right), cmp)
  {
  }

  lemma AtTop(t: Tree)
    requires t.Bin?
    ensures IsAt(t, t.n, 0)
  {
  }

  lemma AtNear(t: Tree, right: bool, x: Node, d: nat)
    requires t.Bin? && IsAt(Near(t, right), x, d)
    ensures IsAt(t, x, d + 1)
  {
  }

  /** Where a node of the path is after the splay: at the top, or below it on some side, at half the depth or less. */
  lemma {:induction false} Rises(t: Tree, cmp: V -> int, i: nat) returns (side: bool, d: nat)
    requires t.Bin? && i < |SearchPath(t, cmp)|
    ensures var (b, p) := (Brought(t, cmp), SearchPath(t, cmp));
            if i == |p| - 1 then b.n == p[i]
            else IsAt(Near(b, side), p[i], d) && 2 * d <= i + (if Goes(t, cmp, !side) then 2 else 1)
    decreases t
  {
    hide Brought, SearchPath, Made, Near, Far, Wants, IsAt;
    side, d := false, 0;
    var right := Cases(t, cmp);
    if Stays(t, cmp) {
      BroughtStays(t, cmp);
      PathStays(t, cmp);
    } else {
      SmallerNear(t, right);
      PathGoes(t, cmp, right);
      if GoesTwice(t, cmp, right) {
        side, d := RisesTwice(t, cmp, right, i);
      } else if GoesLast(t, cmp, right) {
        var (y, b) := (Near(t, right), Brought(t, cmp));
        BroughtLast(t, cmp, right);
        LastStays(t, cmp, right);
        PathStays(y, cmp);
        MadeFacts(t.n, Far(y, right), Far(t, right), right);
        MadeFacts(y.n, Nil, Made(t.n, Far(y, right), Far(t, right), right), right);
        NearFacts(b, right);
        side, d := !right, 0;
        MadeTop(t.n, Far(y, right), Far(t, right), right);
        MadeTop(y.n, Nil, Made(t.n, Far(y, right), Far(t, right), right), right);
      } else {
        side, d := RisesOnce(t, cmp, right, i);
      }
    }
  }

  lemma MadeTop(n: Node, near: Tree, far: Tree, right: bool)
    ensures Made(n, near, far, right).Bin? && Made(n, near, far, right).n == n && IsAt(Made(n, near, far, right), n, 0)
  {
  }

  lemma {:induction false} RisesTwice(t: Tree, cmp: V -> int, right: bool, i: nat) returns (side: bool, d: nat)
    requires GoesTwice(t, cmp, right) && i < |SearchPath(t, cmp)|
    ensures var (b, p) := (Brought(t, cmp), SearchPath(t, cmp));
            if i == |p| - 1 then b.n == p[i]
            else IsAt(Near(b, side), p[i], d) && 2 * d <= i + (if Goes(t, cmp, !side) then 2 else 1)
    decreases t, 0
  {
    hide Brought, SearchPath, Made, Near, Far, Wants, IsAt;
    var y := Near(t, right);
    var w := Near(y, right);
    SmallerNear(t, right);
    SmallerNear(y, right);
    PathGoes(t, cmp, right);
    PathGoes(y, cmp, right);
    BroughtTwice(t, cmp, right);
    var (b, bw, low) := (Brought(t, cmp), Brought(w, cmp), Made(t.n, Far(y, right), Far(t, right), right));
    var far := Made(y.n, Far(bw, right), low, right);
    MadeFacts(y.n, Far(bw, right), low, right);
    MadeFacts(bw.n, Near(bw, right), far, right);
    MadeTop(t.n, Far(y, right), Far(t, right), right);
    MadeTop(y.n, Far(bw, right), low, right);
    MadeTop(bw.n, Near(bw, right), far, right);
    NearFacts(b, right);
    NearFacts(bw, right);
    NearFacts(far, right);
    side, d := !right, 0;
    if i == 0 {
      d := 1;
      AtNear(far, !right, t.n, 0);
    } else if i >= 2 {
      var e;
      side, e := Rises(w, cmp, i - 2);
      d := e;
      if i < |SearchPath(t, cmp)| - 1 && side != right {
        d := e + 1;
        AtNear(far, right, SearchPath(w, cmp)[i - 2], e);
      }
    }
  }

  lemma {:induction false} RisesOnce(t: Tree, cmp: V -> int, right: bool, i: nat) returns (side: bool, d: nat)
    requires GoesOnce(t, cmp, right) && i < |SearchPath(t, cmp)|
    ensures var (b, p) := (Brought(t, cmp), SearchPath(t, cmp));
            if i == |p| - 1 then b.n == p[i]
            else IsAt(Near(b, side), p[i], d) && 2 * d <= i + (if Goes(t, cmp, !side) then 2 else 1)
    decreases t, 0
  {
    hide Brought, SearchPath, Made, Near, Far, Wants, IsAt;
    var y := Near(t, right);
    SmallerNear(t, right);
    PathGoes(t, cmp, right);
    BroughtOnce(t, cmp, right);
    var (b, raised) := (Brought(t, cmp), Brought(y, cmp));
    var far := Made(t.n, Far(raised, right), Far(t, right), right);
    MadeFacts(t.n, Far(raised, right), Far(t, right), right);
    MadeFacts(raised.n, Near(raised, right), far, right);
    MadeTop(t.n, Far(raised, right), Far(t, right), right);
    MadeTop(raised.n, Near(raised, right), far, right);
    NearFacts(b, right);
    NearFacts(raised, right);
    NearFacts(far, right);
    side, d := !right, 0;
    if i >= 1 {
      var e;
      side, e := Rises(y, cmp, i - 1);
      d := e;
      if i < |SearchPath(t, cmp)| - 1 && side != right {
        d := e + 1;
        AtNear(far, right, SearchPath(y, cmp)[i - 1], e);
      }
    }
  }

  /** Splaying about halves the depth of every node on the search path, and ends with its last node on top. */
  lemma {:induction false} DepthHalved(t: Tree, cmp: V -> int, i: nat)
    requires t.Bin? && i < |SearchPath(t, cmp)|
    ensures var (b, p) := (Brought(t, cmp), SearchPath(t, cmp));
            && b.n == p[|p| - 1]
            && exists d: nat :: 2 * d <= i + 4 && IsAt(b, p[i], d)
  {
    hide Brought, SearchPath, Near, Goes, IsAt;
    var (b, p) := (Brought(t, cmp), SearchPath(t, cmp));
    var side, d := Rises(t, cmp, i);
    var side', d' := Rises(t, cmp, |p| - 1);
    if i == |p| - 1 {
      AtTop(b);
    } else {
      AtNear(b, side, p[i], d);
    }
  }

  // ---------- straight paths ----------

  /** Nodes down the pointers of one side. */
  ghost function Chain(t: Tree, right: bool): nat {
    if t.Nil? then 0 else 1 + Chain(Near(t, right), right)
  }

  /** The search takes `m` steps, all to one side. */
  ghost predicate Straight(t: Tree, cmp: V -> int, right: bool, m: nat) {
    t.Bin? && if m == 0 then Stays(t, cmp) else Goes(t, cmp, right) && Straight(Near(t, right), cmp, right, m - 1)
  }

  ghost function Down(t: Tree, right: bool, m: nat): Tree {
    if m == 0 || t.Nil? then t else Down(Near(t, right), right, m - 1)
  }

  lemma ChainMade(n: Node, near: Tree, far: Tree, right: bool)
    ensures Chain(Made(n, near, far, right), right) == 1 + Chain(near, right)
  {
  }

  lemma StraightOnce(t: Tree, cmp: V -> int, right: bool, m: nat)
    requires Straight(t, cmp, right, m) && m >= 1
    ensures GoesTwice(t, cmp, right) <==> m >= 2
    ensures m == 1 ==> GoesLast(t, cmp, right) || (GoesOnce(t, cmp, right) && Stays(Near(t, right), cmp))
    ensures m == 1 ==> Down(t, right, m) == Near(t, right)
    ensures m >= 2 ==> Down(t, right, m) == Down(Near(Near(t, right), right), right, m - 2)
    ensures m >= 2 ==> Straight(Near(Near(t, right), right), cmp, right, m - 2)
  {
    var y := Near(t, right);
    if m == 1 { assert !Goes(y, cmp, right); }
  }

  /** A search straight down a chain leaves a chain of half as many nodes on the other side of the top. */
  lemma {:induction false} StraightHalved(t: Tree, cmp: V -> int, right: bool, m: nat)
    requires Straight(t, cmp, right, m)
    ensures var end := Down(t, right, m);
            end.Bin? && Chain(Far(Brought(t, cmp), right), right) == (m + 1) / 2 + Chain(Far(end, right), right)
    decreases m
  {
    hide Brought, Made, Near, Far, Wants, Chain, Down, Straight;
    if m == 0 {
      StraightNone(t, cmp, right);
      BroughtStays(t, cmp);
    } else {
      StraightGoes(t, cmp, right, m);
      StraightOnce(t, cmp, right, m);
      var y := Near(t, right);
      if m >= 2 {
        var b := Brought(Near(y, right), cmp);
        var low := Made(t.n, Far(y, right), Far(t, right), right);
        BroughtTwice(t, cmp, right);
        StraightHalved(Near(y, right), cmp, right, m - 2);
        ChainMade(y.n, Far(b, right), low, right);
        MadeFacts(b.n, Near(b, right), Made(y.n, Far(b, right), low, right), right);
      } else if GoesLast(t, cmp, right) {
        BroughtLast(t, cmp, right);
        ChainMade(t.n, Far(y, right), Far(t, right), right);
        MadeFacts(y.n, Nil, Made(t.n, Far(y, right), Far(t, right), right), right);
      } else {
        BroughtOnce(t, cmp, right);
        BroughtStays(y, cmp);
        ChainMade(t.n, Far(y, right), Far(t, right), right);
        MadeFacts(y.n, Near(y, right), Made(t.n, Far(y, right), Far(t, right), right), right);
      }
    }
  }

  lemma StraightNone(t: Tree, cmp: V -> int, right: bool)
    requires Straight(t, cmp, right, 0)
    ensures Stays(t, cmp) && Down(t, right, 0) == t
  {
  }

  lemma StraightGoes(t: Tree, cmp: V -> int, right: bool, m: nat)
    requires Straight(t, cmp, right, m) && m >= 1
    ensures Goes(t, cmp, right)
  {
  }

  // ---------- what an operation on a set may cost ----------

  /** For one splay of `n` nodes. */
  function SplayFee(n: nat): nat {
    12 * Log2(n) + 4
  }

  /** For one call on a set of `n` elements: at most three splays, and the worth of a new node. */
  function Fee(n: nat): nat {
    3 * SplayFee(n + 1)
  }

  lemma FeeCovers(n: nat)
    ensures SplayFee(n) <= SplayFee(n + 1) && 3 * SplayFee(n) <= Fee(n) && 2 * SplayFee(n) + 4 * Log2(n + 1) <= Fee(n)
  {
    LogMono(n, n + 1);
  }

  lemma FeeMono(a: nat, b: nat)
    requires a <= b
    ensures Fee(a) <= Fee(b) && SplayFee(a) <= SplayFee(b)
  {
    LogMono(a, b);
    LogMono(a + 1, b + 1);
  }

  lemma {:induction false} SizeIs(t: Tree)
    ensures |t.InOrder()| == Size(t)
  {
    if t.Bin? {
      SizeIs(t.left);
      SizeIs(t.right);
    }
  }

  /** A new node over a tree that is cut at its top. */
  lemma {:induction false} NewTop(a: Tree, n: Node, t: Tree)
    requires a.Bin? && (t == Bin(n, a.left, Bin(a.n, Nil, a.right)) || t == Bin(n, Bin(a.n, a.left, Nil), a.right))
    ensures Size(t) == Size(a) + 1 && Potential(t) <= Potential(a) + Log2(Size(a) + 1)
  {
    NilSize();
    RankMono(Bin(a.n, Nil, a.right), a);
    RankMono(Bin(a.n, a.left, Nil), a);
  }

  /** The two halves of a tree whose top left, joined over the top of the left half, which has nothing on its right. */
  lemma {:induction false} JoinedHalves(a: Tree, b: Tree)
    requires a.Bin? && b.Bin? && b.right == Nil && Size(b) == Size(a.left)
    ensures var t := Bin(b.n, b.left, a.right);
            Size(t) == Size(a) - 1 && Potential(t) + Potential(a.left) <= Potential(a) + Potential(b)
  {
    NilSize();
    RankMono(Bin(b.n, b.left, a.right), a);
  }

  lemma HalfWorth(a: Tree)
    requires a.Bin?
    ensures Potential(a.left) <= Potential(a) && Potential(a.right) <= Potential(a) && Size(a.left) <= Size(a)
    ensures a.left == Nil ==> Size(a.right) == Size(a) - 1
  {
  }
}
