/**
 include/splay.h: a top-down splay tree used as an ordered set, and its explicit-stack iterator.

 Nodes are objects whose child pointers are rewritten in place. The specification follows them with a
 tree of node references: `Linked` says that the pointers in memory are that tree.
 */
module SplayTree {
  import opened Basics
  import opened SplayNodes
  import opened SplayCost

  /** The global through which every comparison outcome travels (splayLastResult). */
  class LastResult {
    var value: int
    ghost var compared: nat      // how many comparisons were made

    constructor ()
      ensures value == 0 && compared == 0
    {
      value, compared := 0, 0;
    }
  }

  /** A hanging spine, outermost frame last: each frame is a node and the subtree it keeps. */
  datatype Spine = Empty | Hang(up: Spine, n: Node, kept: Tree) {
    ghost function Nodes(): set<Node> {
      if Empty? then {} else up.Nodes() + {n} + kept.Nodes()
    }

    /** The node new frames hang from: the sentinel `s` as long as the spine is empty. */
    ghost function Last(s: Node): Node {
      if Empty? then s else n
    }

    /** The spine itself. */
    ghost function Bones(): set<Node> {
      if Empty? then {} else up.Bones() + {n}
    }

    /** What the spine keeps on its sides. */
    ghost function Kept(): set<Node> {
      if Empty? then {} else up.Kept() + kept.Nodes()
    }

    /** The nodes that frames hang from. */
    ghost function Hangers(s: Node): set<Node> {
      if Empty? then {} else up.Hangers(s) + {up.Last(s)}
    }

    ghost predicate Distinct() {
      Hang? ==>
        && up.Distinct() && kept.Distinct() && n !in up.Nodes() + kept.Nodes() && up.Nodes() !! kept.Nodes()
    }

    // the left spine holds smaller values: nodes keep their left subtrees and hang from right pointers

    ghost predicate LinkedLeft(s: Node)
      reads Bones()`left, Hangers(s)`right, Kept()
    {
      Hang? ==> n.left == kept.Root() && kept.Linked() && up.Last(s).right == n && up.LinkedLeft(s)
    }

    ghost function InOrderLeft(): seq<Node> {
      if Empty? then [] else up.InOrderLeft() + kept.InOrder() + [n]
    }

    ghost function FillLeft(hole: Tree): Tree {
      if Empty? then hole else up.FillLeft(Bin(n, kept, hole))
    }

    // the right spine is its mirror image

    ghost predicate LinkedRight(s: Node)
      reads Bones()`right, Hangers(s)`left, Kept()
    {
      Hang? ==> n.right == kept.Root() && kept.Linked() && up.Last(s).left == n && up.LinkedRight(s)
    }

    ghost function InOrderRight(): seq<Node> {
      if Empty? then [] else [n] + kept.InOrder() + up.InOrderRight()
    }

    ghost function FillRight(hole: Tree): Tree {
      if Empty? then hole else up.FillRight(Bin(n, hole, kept))
    }
  }

  // ---------- pure facts ----------

  lemma {:induction false} InOrderNodes(t: Tree)
    ensures (set x | x in t.InOrder()) == t.Nodes()
  {
    if t.Bin? {
      InOrderNodes(t.left);
      InOrderNodes(t.right);
    }
  }

  lemma {:induction false} SpineInOrder(z: Spine, hole: Tree)
    ensures z.FillLeft(hole).InOrder() == z.InOrderLeft() + hole.InOrder()
    ensures z.FillRight(hole).InOrder() == hole.InOrder() + z.InOrderRight()
  {
    hide Tree.InOrder;
    if z.Hang? {
      InOrderIs(Bin(z.n, z.kept, hole));
      InOrderIs(Bin(z.n, hole, z.kept));
      SpineInOrder(z.up, Bin(z.n, z.kept, hole));
      SpineInOrder(z.up, Bin(z.n, hole, z.kept));
    }
  }

  lemma {:induction false} SpineFill(z: Spine, hole: Tree)
    requires z.Distinct() && hole.Distinct() && z.Nodes() !! hole.Nodes()
    ensures z.FillLeft(hole).Distinct() && z.FillLeft(hole).Nodes() == z.Nodes() + hole.Nodes()
    ensures z.FillRight(hole).Distinct() && z.FillRight(hole).Nodes() == z.Nodes() + hole.Nodes()
  {
    if z.Hang? {
      SpineFill(z.up, Bin(z.n, z.kept, hole));
      SpineFill(z.up, Bin(z.n, hole, z.kept));
    }
  }

  /** Hanging the last piece from a spine links the whole. */
  lemma {:induction false} FillLeftLinked(s: Node, z: Spine, hole: Tree)
    requires z.LinkedLeft(s) && hole.Linked() && z.Last(s).right == hole.Root()
    ensures z.FillLeft(hole).Linked() && s.right == z.FillLeft(hole).Root()
  {
    if z.Hang? { FillLeftLinked(s, z.up, Bin(z.n, z.kept, hole)); }
  }

  lemma {:induction false} FillRightLinked(s: Node, z: Spine, hole: Tree)
    requires z.LinkedRight(s) && hole.Linked() && z.Last(s).left == hole.Root()
    ensures z.FillRight(hole).Linked() && s.left == z.FillRight(hole).Root()
  {
    if z.Hang? { FillRightLinked(s, z.up, Bin(z.n, hole, z.kept)); }
  }

  lemma {:induction false} SpineNodes(s: Node, z: Spine)
    ensures z.Nodes() == z.Bones() + z.Kept() && z.Hangers(s) <= z.Bones() + {s}
    ensures z.Distinct() ==> z.Bones() !! z.Kept()
    ensures z.Distinct() && s !in z.Nodes() ==> z.Last(s) !in z.Hangers(s) + z.Kept()
  {
    if z.Hang? { SpineNodes(s, z.up); }
  }

  // ---------- the loop state ----------

  /** Two spines hanging from sentinel `s`, and the tree `t` still to be searched. */
  ghost predicate Apart(s: Node, lz: Spine, t: Tree, rz: Spine) {
    && t.Bin? && t.Distinct() && lz.Distinct() && rz.Distinct()
    && lz.Nodes() !! t.Nodes() && rz.Nodes() !! t.Nodes() && lz.Nodes() !! rz.Nodes()
    && s !in lz.Nodes() + t.Nodes() + rz.Nodes()
  }

  ghost predicate Hanging(s: Node, lz: Spine, t: Tree, rz: Spine)
    reads {s} + lz.Nodes() + t.Nodes() + rz.Nodes()
  {
    SpineNodes(s, lz);
    SpineNodes(s, rz);
    Apart(s, lz, t, rz) && lz.LinkedLeft(s) && t.Linked() && rz.LinkedRight(s)
  }

  ghost function WholeOrder(lz: Spine, t: Tree, rz: Spine): seq<Node> {
    lz.InOrderLeft() + t.InOrder() + rz.InOrderRight()
  }

  ghost function WholeNodes(lz: Spine, t: Tree, rz: Spine): set<Node> {
    lz.Nodes() + t.Nodes() + rz.Nodes()
  }

  ghost function RotatedRight(t: Tree): Tree
    requires t.Bin? && t.left.Bin?
  {
    Bin(t.left.n, t.left.left, Bin(t.n, t.left.right, t.right))
  }

  lemma RotateRightNodes(t: Tree)
    requires t.Bin? && t.left.Bin? && t.Distinct()
    ensures RotatedRight(t).Distinct() && RotatedRight(t).Nodes() == t.Nodes()
  {
    var (y, b) := (t.left, Bin(t.n, t.left.right, t.right));
    assert y.Nodes() == {y.n} + y.left.Nodes() + y.right.Nodes();
    assert b.Nodes() == {t.n} + y.right.Nodes() + t.right.Nodes();
  }

  lemma InOrderIs(t: Tree)
    requires t.Bin?
    ensures t.InOrder() == t.left.InOrder() + [t.n] + t.right.InOrder()
  {
  }

  lemma Regroup(a: seq<Node>, n: Node, b: seq<Node>, m: Node, c: seq<Node>)
    ensures a + [n] + (b + [m] + c) == (a + [n] + b) + [m] + c
  {
  }

  lemma {:induction false} RotateRightOrder(t: Tree)
    requires t.Bin? && t.left.Bin?
    ensures RotatedRight(t).InOrder() == t.InOrder()
  {
    hide Tree.InOrder;
    var (y, b) := (t.left, Bin(t.n, t.left.right, t.right));
    InOrderIs(t);
    InOrderIs(y);
    InOrderIs(b);
    InOrderIs(Bin(y.n, y.left, b));
    Regroup(y.left.InOrder(), y.n, y.right.InOrder(), t.n, t.right.InOrder());
  }

  lemma {:induction false} RotateRightKeeps(t: Tree)
    requires t.Bin? && t.left.Bin? && t.Distinct()
    ensures RotatedRight(t).Distinct() && RotatedRight(t).Nodes() == t.Nodes()
    ensures RotatedRight(t).InOrder() == t.InOrder()
  {
    hide *;
    RotateRightNodes(t);
    RotateRightOrder(t);
  }

  /** Rotate right: the left child becomes the top. */
  method RotateRight(top: Node, ghost t: Tree) returns (y: Node)
    requires t.Bin? && t.left.Bin? && t.Distinct() && t.Linked() && top == t.n
    modifies t.n`left, t.left.n`right
    ensures RotatedRight(t).Linked() && y == t.left.n
  {
    y := top.left;
    top.left := y.right;
    y.right := top;
  }

  ghost function RotatedLeft(t: Tree): Tree
    requires t.Bin? && t.right.Bin?
  {
    Bin(t.right.n, Bin(t.n, t.left, t.right.left), t.right.right)
  }

  lemma RotateLeftNodes(t: Tree)
    requires t.Bin? && t.right.Bin? && t.Distinct()
    ensures RotatedLeft(t).Distinct() && RotatedLeft(t).Nodes() == t.Nodes()
  {
    var (y, b) := (t.right, Bin(t.n, t.left, t.right.left));
    assert y.Nodes() == {y.n} + y.left.Nodes() + y.right.Nodes();
    assert b.Nodes() == {t.n} + t.left.Nodes() + y.left.Nodes();
  }

  lemma {:induction false} RotateLeftOrder(t: Tree)
    requires t.Bin? && t.right.Bin?
    ensures RotatedLeft(t).InOrder() == t.InOrder()
  {
    hide Tree.InOrder;
    var (y, b) := (t.right, Bin(t.n, t.left, t.right.left));
    InOrderIs(t);
    InOrderIs(y);
    InOrderIs(b);
    InOrderIs(Bin(y.n, b, y.right));
    Regroup(t.left.InOrder(), t.n, y.left.InOrder(), y.n, y.right.InOrder());
  }

  lemma {:induction false} RotateLeftKeeps(t: Tree)
    requires t.Bin? && t.right.Bin? && t.Distinct()
    ensures RotatedLeft(t).Distinct() && RotatedLeft(t).Nodes() == t.Nodes()
    ensures RotatedLeft(t).InOrder() == t.InOrder()
  {
    hide *;
    RotateLeftNodes(t);
    RotateLeftOrder(t);
  }

  /** Rotate left: the right child becomes the top. */
  method RotateLeft(top: Node, ghost t: Tree) returns (y: Node)
    requires t.Bin? && t.right.Bin? && t.Distinct() && t.Linked() && top == t.n
    modifies t.n`right, t.right.n`left
    ensures RotatedLeft(t).Linked() && y == t.right.n
  {
    y := top.right;
    top.right := y.left;
    y.left := top;
  }

  lemma HangingMeans(s: Node, lz: Spine, t: Tree, rz: Spine)
    requires Hanging(s, lz, t, rz)
    ensures Apart(s, lz, t, rz) && lz.LinkedLeft(s) && t.Linked() && rz.LinkedRight(s)
    ensures t.Bin? && t.Distinct() && t.n.left == t.left.Root() && t.n.right == t.right.Root()
    ensures t.left.Linked() && t.right.Linked()
  {
  }

  lemma ApartMeans(s: Node, lz: Spine, t: Tree, rz: Spine)
    requires Apart(s, lz, t, rz)
    ensures t.Bin? && t.Distinct() && lz.Nodes() !! t.Nodes() && rz.Nodes() !! t.Nodes() && lz.Nodes() !! rz.Nodes()
    ensures s !in lz.Nodes() + t.Nodes() + rz.Nodes() && lz.Distinct() && rz.Distinct()
  {
  }

  lemma HangingIs(s: Node, lz: Spine, t: Tree, rz: Spine)
    requires Apart(s, lz, t, rz) && lz.LinkedLeft(s) && t.Linked() && rz.LinkedRight(s)
    ensures Hanging(s, lz, t, rz)
  {
  }

  lemma LinkRightApart(s: Node, lz: Spine, t: Tree, rz: Spine)
    requires Apart(s, lz, t, rz) && t.left.Bin?
    ensures Apart(s, lz, t.left, Hang(rz, t.n, t.right))
    ensures WholeOrder(lz, t.left, Hang(rz, t.n, t.right)) == WholeOrder(lz, t, rz)
    ensures WholeNodes(lz, t.left, Hang(rz, t.n, t.right)) == WholeNodes(lz, t, rz)
  {
    hide Tree.InOrder;
    InOrderIs(t);
    var (a, b, c, d) := (lz.InOrderLeft(), t.left.InOrder(), t.right.InOrder(), rz.InOrderRight());
    assert Hang(rz, t.n, t.right).InOrderRight() == [t.n] + c + d;
    assert a + (b + [t.n] + c) + d == a + b + ([t.n] + c + d);
  }

  lemma LinkLeftApart(s: Node, lz: Spine, t: Tree, rz: Spine)
    requires Apart(s, lz, t, rz) && t.right.Bin?
    ensures Apart(s, Hang(lz, t.n, t.left), t.right, rz)
    ensures WholeOrder(Hang(lz, t.n, t.left), t.right, rz) == WholeOrder(lz, t, rz)
    ensures WholeNodes(Hang(lz, t.n, t.left), t.right, rz) == WholeNodes(lz, t, rz)
  {
    hide Tree.InOrder;
    InOrderIs(t);
    var (a, b, c, d) := (lz.InOrderLeft(), t.left.InOrder(), t.right.InOrder(), rz.InOrderRight());
    assert Hang(lz, t.n, t.left).InOrderLeft() == a + b + [t.n];
    assert a + (b + [t.n] + c) + d == (a + b + [t.n]) + c + d;
  }

  lemma HangIs(s: Node, z: Spine, n: Node, kept: Tree)
    requires kept.Linked() && n != s
    ensures n.right == kept.Root() && z.Last(s).left == n && z.LinkedRight(s) ==> Hang(z, n, kept).LinkedRight(s)
    ensures n.left == kept.Root() && z.Last(s).right == n && z.LinkedLeft(s) ==> Hang(z, n, kept).LinkedLeft(s)
    ensures Hang(z, n, kept).Last(s) == n
  {
  }

  lemma SubNodes(t: Tree)
    requires t.Bin? && t.Distinct()
    ensures t.left.Nodes() <= t.Nodes() && t.right.Nodes() <= t.Nodes() && t.n in t.Nodes()
    ensures t.n !in t.left.Nodes() && t.n !in t.right.Nodes()
  {
  }

  /** Link right: the top joins the right spine with its right subtree. */
  method LinkRight(top: Node, r: Node, ghost s: Node, ghost lz: Spine, ghost t: Tree, ghost rz: Spine)
    returns (down: Node, ghost rz': Spine)
    requires Hanging(s, lz, t, rz) && top == t.n && t.left.Bin? && r == rz.Last(s)
    modifies r`left
    ensures rz' == Hang(rz, t.n, t.right) && down == t.left.n && rz'.Last(s) == top
    ensures Hanging(s, lz, t.left, rz') && WholeOrder(lz, t.left, rz') == WholeOrder(lz, t, rz)
    ensures WholeNodes(lz, t.left, rz') == WholeNodes(lz, t, rz)
  {
    hide *;
    HangingMeans(s, lz, t, rz);
    ApartMeans(s, lz, t, rz);
    SpineNodes(s, lz);
    SpineNodes(s, rz);
    SubNodes(t);
    LastIn(s, rz);
    LinkRightApart(s, lz, t, rz);
    RootIs(t.left);
    r.left := top;
    down := top.left;
    rz' := Hang(rz, t.n, t.right);
    HangIs(s, rz, t.n, t.right);
    HangingIs(s, lz, t.left, rz');
  }

  lemma LastIn(s: Node, z: Spine)
    ensures z.Last(s) in z.Nodes() + {s}
  {
  }

  lemma RootIs(t: Tree)
    ensures t.Root() == if t.Nil? then null else t.n
  {
  }

  /** Link left: the top joins the left spine with its left subtree. */
  method LinkLeft(top: Node, l: Node, ghost s: Node, ghost lz: Spine, ghost t: Tree, ghost rz: Spine)
    returns (down: Node, ghost lz': Spine)
    requires Hanging(s, lz, t, rz) && top == t.n && t.right.Bin? && l == lz.Last(s)
    modifies l`right
    ensures lz' == Hang(lz, t.n, t.left) && down == t.right.n && lz'.Last(s) == top
    ensures Hanging(s, lz', t.right, rz) && WholeOrder(lz', t.right, rz) == WholeOrder(lz, t, rz)
    ensures WholeNodes(lz', t.right, rz) == WholeNodes(lz, t, rz)
  {
    hide *;
    HangingMeans(s, lz, t, rz);
    ApartMeans(s, lz, t, rz);
    SpineNodes(s, lz);
    SpineNodes(s, rz);
    SubNodes(t);
    LastIn(s, lz);
    LinkLeftApart(s, lz, t, rz);
    RootIs(t.right);
    l.right := top;
    down := top.right;
    lz' := Hang(lz, t.n, t.left);
    HangIs(s, lz, t.n, t.left);
    HangingIs(s, lz', t.right, rz);
  }

  // ---------- the search order ----------

  /** Along `s` the outcomes of comparing the key are positive, then at most one zero, then negative. */
  ghost predicate Monotone(s: seq<Node>, cmp: V -> int) {
    forall i, j :: 0 <= i < j < |s| && cmp(s[i].data) <= 0 ==> cmp(s[j].data) < 0
  }

  ghost predicate Above(ns: set<Node>, cmp: V -> int) {
    forall x :: x in ns ==> cmp(x.data) > 0
  }

  ghost predicate Below(ns: set<Node>, cmp: V -> int) {
    forall x :: x in ns ==> cmp(x.data) < 0
  }

  lemma MonotoneParts(a: seq<Node>, b: seq<Node>, n: Node, c: seq<Node>, d: seq<Node>, cmp: V -> int)
    requires Monotone(a + (b + [n] + c) + d, cmp)
    ensures cmp(n.data) <= 0 ==> forall j :: 0 <= j < |c| ==> cmp(c[j].data) < 0
    ensures cmp(n.data) >= 0 ==> forall j :: 0 <= j < |b| ==> cmp(b[j].data) > 0
  {
    var (s, k) := (a + (b + [n] + c) + d, |a| + |b|);
    assert s[k] == n;
    assert forall j :: 0 <= j < |c| ==> s[k + 1 + j] == c[j];
    assert forall j :: 0 <= j < |b| ==> s[|a| + j] == b[j];
  }

  /** On a search order, what lies right of a node not below the key is above it, and the mirror image. */
  lemma {:induction false} Sides(lz: Spine, t: Tree, rz: Spine, cmp: V -> int)
    requires t.Bin? && Monotone(WholeOrder(lz, t, rz), cmp)
    ensures cmp(t.n.data) <= 0 ==> Below(t.right.Nodes(), cmp)
    ensures cmp(t.n.data) >= 0 ==> Above(t.left.Nodes(), cmp)
  {
    hide Monotone, Tree.Nodes, Spine.InOrderLeft, Spine.InOrderRight;
    var (b, c) := (t.left.InOrder(), t.right.InOrder());
    assert t.InOrder() == b + [t.n] + c;
    MonotoneParts(lz.InOrderLeft(), b, t.n, c, rz.InOrderRight(), cmp);
    InOrderNodes(t.left);
    InOrderNodes(t.right);
  }

  /** What the loop keeps: nothing lost, and on a search order the spines are on their sides of the key. */
  ghost predicate Searching(lz: Spine, t: Tree, rz: Spine, cmp: V -> int, t0: Tree) {
    && WholeOrder(lz, t, rz) == t0.InOrder() && WholeNodes(lz, t, rz) == t0.Nodes()
    && (Monotone(t0.InOrder(), cmp) ==> Above(lz.Nodes(), cmp) && Below(rz.Nodes(), cmp))
  }

  /** The loop stops at `t` with outcome `c`: the key is there, or the side it belongs to is empty. */
  ghost predicate Stopped(t: Tree, cmp: V -> int, c: int) {
    t.Bin? && c == cmp(t.n.data) && (c < 0 ==> t.left.Nil?) && (c > 0 ==> t.right.Nil?)
  }

  lemma SearchRotate(lz: Spine, t: Tree, t': Tree, rz: Spine, cmp: V -> int, t0: Tree)
    requires Searching(lz, t, rz, cmp, t0) && t'.InOrder() == t.InOrder() && t'.Nodes() == t.Nodes()
    ensures Searching(lz, t', rz, cmp, t0)
  {
  }

  lemma {:induction false} SearchLinkRight(s: Node, lz: Spine, t: Tree, rz: Spine, cmp: V -> int, t0: Tree)
    requires Apart(s, lz, t, rz) && Searching(lz, t, rz, cmp, t0) && t.left.Bin? && cmp(t.n.data) < 0
    ensures Searching(lz, t.left, Hang(rz, t.n, t.right), cmp, t0)
  {
    hide Apart, Monotone, WholeOrder, WholeNodes;
    ApartMeans(s, lz, t, rz);
    LinkRightApart(s, lz, t, rz);
    if Monotone(t0.InOrder(), cmp) { Sides(lz, t, rz, cmp); }
  }

  lemma {:induction false} SearchLinkLeft(s: Node, lz: Spine, t: Tree, rz: Spine, cmp: V -> int, t0: Tree)
    requires Apart(s, lz, t, rz) && Searching(lz, t, rz, cmp, t0) && t.right.Bin? && cmp(t.n.data) > 0
    ensures Searching(Hang(lz, t.n, t.left), t.right, rz, cmp, t0)
  {
    hide Apart, Monotone, WholeOrder, WholeNodes;
    ApartMeans(s, lz, t, rz);
    LinkLeftApart(s, lz, t, rz);
    if Monotone(t0.InOrder(), cmp) { Sides(lz, t, rz, cmp); }
  }

  lemma RotateApart(s: Node, lz: Spine, t: Tree, t': Tree, rz: Spine)
    requires Apart(s, lz, t, rz) && t'.Bin? && t'.Distinct() && t'.Nodes() == t.Nodes()
    ensures Apart(s, lz, t', rz)
  {
  }

  lemma RotatedRightIs(t: Tree)
    requires t.Bin? && t.left.Bin?
    ensures RotatedRight(t) == Bin(t.left.n, t.left.left, Bin(t.n, t.left.right, t.right))
    ensures Size(RotatedRight(t)) == Size(t) && Size(t.left.left) < Size(t.left) < Size(t)
  {
  }

  lemma RotatedLeftIs(t: Tree)
    requires t.Bin? && t.right.Bin?
    ensures RotatedLeft(t) == Bin(t.right.n, Bin(t.n, t.left, t.right.left), t.right.right)
    ensures Size(RotatedLeft(t)) == Size(t) && Size(t.right.right) < Size(t.right) < Size(t)
  {
  }

  lemma ChildNodes(t: Tree)
    requires t.Bin?
    ensures t.left.Bin? ==> t.left.n in t.Nodes() && t.left.n in t.left.Nodes()
    ensures t.right.Bin? ==> t.right.n in t.Nodes() && t.right.n in t.right.Nodes()
    ensures t.n in t.Nodes()
  {
  }

  ghost function Assembled(lz: Spine, t: Tree, rz: Spine): Tree
    requires t.Bin?
  {
    Bin(t.n, lz.FillLeft(t.left), rz.FillRight(t.right))
  }

  /** What a turn to one side leaves of the splay: the rest of the work, on a smaller tree. */
  ghost predicate OneTurn(lz: Spine, t: Tree, rz: Spine, lz': Spine, t': Tree, rz': Spine, cmp: V -> int, done: bool) {
    && t.Bin? && t'.Bin?
    && (if done then Brought(t, cmp) == t' && lz' == lz && rz' == rz && Comparisons(t, cmp) == 2
        else
          && Assembled(lz', Brought(t', cmp), rz') == Assembled(lz, Brought(t, cmp), rz)
          && Comparisons(t, cmp) == 2 + Comparisons(t', cmp))
  }

  lemma {:induction false} TurnLeft(lz: Spine, t: Tree, rz: Spine, cmp: V -> int)
    requires Goes(t, cmp, false)
    ensures t.left.Bin?
    ensures cmp(t.left.n.data) >= 0 ==> OneTurn(lz, t, rz, lz, t.left, Hang(rz, t.n, t.right), cmp, false)
    ensures cmp(t.left.n.data) < 0 && t.left.left.Bin? ==>
              var u := RotatedRight(t); OneTurn(lz, t, rz, lz, u.left, Hang(rz, u.n, u.right), cmp, false)
    ensures cmp(t.left.n.data) < 0 && t.left.left.Nil? ==> OneTurn(lz, t, rz, lz, RotatedRight(t), rz, cmp, true)
  {
    if GoesTwice(t, cmp, false) { BroughtTwice(t, cmp, false); }
    else if GoesLast(t, cmp, false) { BroughtLast(t, cmp, false); }
    else { BroughtOnce(t, cmp, false); }
  }

  lemma {:induction false} TurnRight(lz: Spine, t: Tree, rz: Spine, cmp: V -> int)
    requires Goes(t, cmp, true)
    ensures t.right.Bin?
    ensures cmp(t.right.n.data) <= 0 ==> OneTurn(lz, t, rz, Hang(lz, t.n, t.left), t.right, rz, cmp, false)
    ensures cmp(t.right.n.data) > 0 && t.right.right.Bin? ==>
              var u := RotatedLeft(t); OneTurn(lz, t, rz, Hang(lz, u.n, u.left), u.right, rz, cmp, false)
    ensures cmp(t.right.n.data) > 0 && t.right.right.Nil? ==> OneTurn(lz, t, rz, lz, RotatedLeft(t), rz, cmp, true)
  {
    if GoesTwice(t, cmp, true) { BroughtTwice(t, cmp, true); }
    else if GoesLast(t, cmp, true) { BroughtLast(t, cmp, true); }
    else { BroughtOnce(t, cmp, true); }
  }

  lemma GoesIs(t: Tree, cmp: V -> int)
    requires t.Bin?
    ensures Goes(t, cmp, false) <==> cmp(t.n.data) < 0 && t.left.Bin?
    ensures Goes(t, cmp, true) <==> cmp(t.n.data) > 0 && t.right.Bin?
    ensures Stays(t, cmp) <==> !Goes(t, cmp, false) && !Goes(t, cmp, true)
  {
  }

  /** The splay so far: what is still to be done, and the comparisons it will take. */
  ghost predicate Progress(lz: Spine, t: Tree, rz: Spine, cmp: V -> int, t0: Tree, done: bool, made: int) {
    && t.Bin? && t0.Bin?
    && Assembled(lz, if done then t else Brought(t, cmp), rz) == Brought(t0, cmp)
    && made + (if done then 0 else Comparisons(t, cmp)) == Comparisons(t0, cmp)
  }

  lemma ProgressStart(t0: Tree, cmp: V -> int)
    requires t0.Bin?
    ensures Progress(Empty, t0, Empty, cmp, t0, false, 0)
  {
    hide Brought, Comparisons;
  }

  lemma ProgressTurn(lz: Spine, t: Tree, rz: Spine, lz': Spine, t': Tree, rz': Spine, cmp: V -> int, t0: Tree, done: bool, made: int)
    requires Progress(lz, t, rz, cmp, t0, false, made) && OneTurn(lz, t, rz, lz', t', rz', cmp, done)
    ensures Progress(lz', t', rz', cmp, t0, done, made + 2)
  {
    hide Brought, Comparisons;
  }

  lemma ProgressStop(lz: Spine, t: Tree, rz: Spine, cmp: V -> int, t0: Tree, made: int)
    requires Progress(lz, t, rz, cmp, t0, false, made) && Stays(t, cmp)
    ensures Progress(lz, t, rz, cmp, t0, true, made + 1)
  {
    hide Brought, Comparisons;
    BroughtStays(t, cmp);
  }

  lemma ProgressEnd(lz: Spine, t: Tree, rz: Spine, cmp: V -> int, t0: Tree, made: int)
    requires Progress(lz, t, rz, cmp, t0, true, made)
    ensures Assembled(lz, t, rz) == Brought(t0, cmp) && made == Comparisons(t0, cmp)
  {
  }

  /** The key is below the top, which has a left child: rotate if it is below that too, then link right. */
  method GoLeft(top0: Node, r0: Node, g: LastResult, cmp: V -> int, ghost s: Node, ghost lz: Spine, ghost t: Tree,
                ghost rz: Spine, ghost t0: Tree, ghost all: set<Node>)
    returns (done: bool, top: Node, r: Node, ghost t': Tree, ghost rz': Spine)
    requires Hanging(s, lz, t, rz) && Searching(lz, t, rz, cmp, t0) && top0 == t.n && r0 == rz.Last(s)
    requires t.left.Bin? && cmp(t.n.data) < 0 && lz.Nodes() <= all && rz.Nodes() <= all
    modifies g, r0`left, t.Nodes()`left, t.Nodes()`right
    ensures t'.Bin? && top == t'.n && r == rz'.Last(s) && Hanging(s, lz, t', rz') && Searching(lz, t', rz', cmp, t0)
    ensures done ==> Stopped(t', cmp, g.value)
    ensures OneTurn(lz, t, rz, lz, t', rz', cmp, done) && g.compared == old(g.compared) + 1
    ensures !done ==> Size(t') < Size(t)
  {
    hide *;
    HangingMeans(s, lz, t, rz);
    ApartMeans(s, lz, t, rz);
    SpineNodes(s, lz);
    SpineNodes(s, rz);
    LastIn(s, rz);
    ChildNodes(t);
    RootIs(t.left);
    RotatedRightIs(t);
    GoesIs(t, cmp);
    TurnLeft(lz, t, rz, cmp);
    top, r, t', rz', done := top0, r0, t, rz, false;
    g.value, g.compared := cmp(top.left.data), g.compared + 1;
    if g.value < 0 {
      top := RotateRight(top, t);
      t' := RotatedRight(t);
      RotateRightKeeps(t);
      RotateApart(s, lz, t, t', rz);
      HangingIs(s, lz, t', rz);
      SearchRotate(lz, t, t', rz, cmp, t0);
      HangingMeans(s, lz, t', rz);
      RootIs(t'.left);
      if top.left == null {
        StoppedIs(t', cmp, g.value);
        done := true;
        return;
      }
    }
    HangingMeans(s, lz, t', rz);
    SearchLinkRight(s, lz, t', rz, cmp, t0);
    ghost var was := t';
    r := top;
    top, rz' := LinkRight(top, r0, s, lz, t', rz);
    t' := was.left;
  }

  lemma StoppedIs(t: Tree, cmp: V -> int, c: int)
    requires t.Bin? && c == cmp(t.n.data) && (c < 0 ==> t.left.Nil?) && (c > 0 ==> t.right.Nil?)
    ensures Stopped(t, cmp, c)
  {
  }

  /** The mirror image of GoLeft. */
  method GoRight(top0: Node, l0: Node, g: LastResult, cmp: V -> int, ghost s: Node, ghost lz: Spine, ghost t: Tree,
                 ghost rz: Spine, ghost t0: Tree, ghost all: set<Node>)
    returns (done: bool, top: Node, l: Node, ghost t': Tree, ghost lz': Spine)
    requires Hanging(s, lz, t, rz) && Searching(lz, t, rz, cmp, t0) && top0 == t.n && l0 == lz.Last(s)
    requires t.right.Bin? && cmp(t.n.data) > 0 && lz.Nodes() <= all && rz.Nodes() <= all
    modifies g, l0`right, t.Nodes()`left, t.Nodes()`right
    ensures t'.Bin? && top == t'.n && l == lz'.Last(s) && Hanging(s, lz', t', rz) && Searching(lz', t', rz, cmp, t0)
    ensures done ==> Stopped(t', cmp, g.value)
    ensures OneTurn(lz, t, rz, lz', t', rz, cmp, done) && g.compared == old(g.compared) + 1
    ensures !done ==> Size(t') < Size(t)
  {
    hide *;
    HangingMeans(s, lz, t, rz);
    ApartMeans(s, lz, t, rz);
    SpineNodes(s, lz);
    SpineNodes(s, rz);
    LastIn(s, lz);
    ChildNodes(t);
    RootIs(t.right);
    RotatedLeftIs(t);
    GoesIs(t, cmp);
    TurnRight(lz, t, rz, cmp);
    top, l, t', lz', done := top0, l0, t, lz, false;
    g.value, g.compared := cmp(top.right.data), g.compared + 1;
    if g.value > 0 {
      top := RotateLeft(top, t);
      t' := RotatedLeft(t);
      RotateLeftKeeps(t);
      RotateApart(s, lz, t, t', rz);
      HangingIs(s, lz, t', rz);
      SearchRotate(lz, t, t', rz, cmp, t0);
      HangingMeans(s, lz, t', rz);
      RootIs(t'.right);
      if top.right == null {
        StoppedIs(t', cmp, g.value);
        done := true;
        return;
      }
    }
    HangingMeans(s, lz, t', rz);
    SearchLinkLeft(s, lz, t', rz, cmp, t0);
    ghost var was := t';
    l := top;
    top, lz' := LinkLeft(top, l0, s, lz, t', rz);
    t' := was.right;
  }

  lemma {:induction false} AssembledNodes(s: Node, lz: Spine, t: Tree, rz: Spine)
    requires Apart(s, lz, t, rz)
    ensures var a := Assembled(lz, t, rz);
            && a.Distinct() && a.Nodes() == WholeNodes(lz, t, rz)
            && a.left.Nodes() == lz.Nodes() + t.left.Nodes() && a.right.Nodes() == rz.Nodes() + t.right.Nodes()
  {
    hide Spine.FillLeft, Spine.FillRight, Tree.InOrder, Spine.Nodes, Spine.Distinct;
    ApartMeans(s, lz, t, rz);
    SubNodes(t);
    SpineFill(lz, t.left);
    SpineFill(rz, t.right);
    var (a, b) := (lz.FillLeft(t.left), rz.FillRight(t.right));
    assert t.n !in a.Nodes() && t.n !in b.Nodes();
    assert a.Nodes() !! b.Nodes();
  }

  lemma {:induction false} AssembledOrder(lz: Spine, t: Tree, rz: Spine)
    requires t.Bin?
    ensures Assembled(lz, t, rz).InOrder() == WholeOrder(lz, t, rz)
  {
    hide Spine.FillLeft, Spine.FillRight, Tree.Nodes, Spine.InOrderLeft, Spine.InOrderRight;
    SpineInOrder(lz, t.left);
    SpineInOrder(rz, t.right);
  }

  /** Where the loop stops, the top's own subtrees are on their sides too. */
  lemma {:induction false} StoppedSides(lz: Spine, t: Tree, rz: Spine, cmp: V -> int, c: int)
    requires Monotone(WholeOrder(lz, t, rz), cmp) && Stopped(t, cmp, c)
    ensures Above(t.left.Nodes(), cmp) && Below(t.right.Nodes(), cmp)
  {
    hide Monotone, WholeOrder;
    Sides(lz, t, rz, cmp);
  }

  /** The assembled tree has every node once, in the same order, with the key's sides around the top. */
  lemma {:induction false} AssembledKeeps(s: Node, lz: Spine, t: Tree, rz: Spine, cmp: V -> int, t0: Tree, c: int)
    requires Apart(s, lz, t, rz) && Searching(lz, t, rz, cmp, t0) && Stopped(t, cmp, c)
    ensures var a := Assembled(lz, t, rz);
            && a.Bin? && a.n == t.n && a.Distinct() && a.InOrder() == t0.InOrder() && a.Nodes() == t0.Nodes()
            && (Monotone(t0.InOrder(), cmp) ==> Above(a.left.Nodes(), cmp) && Below(a.right.Nodes(), cmp))
  {
    hide Monotone, Spine.FillLeft, Spine.FillRight, Tree.Nodes, Spine.Nodes, Tree.InOrder, WholeOrder, WholeNodes, Apart, Tree.Distinct;
    AssembledNodes(s, lz, t, rz);
    AssembledOrder(lz, t, rz);
    if Monotone(t0.InOrder(), cmp) { StoppedSides(lz, t, rz, cmp, c); }
  }

  /** Hang what is left of the top from the spines and put the spines below the top. */
  method Assemble(top: Node, l: Node, r: Node, s: Node, ghost lz: Spine, ghost t: Tree, ghost rz: Spine, ghost all: set<Node>)
    requires Hanging(s, lz, t, rz) && top == t.n && l == lz.Last(s) && r == rz.Last(s)
    requires lz.Nodes() <= all && rz.Nodes() <= all && t.Nodes() <= all
    modifies l`right, r`left, top`left, top`right
    ensures Assembled(lz, t, rz).Linked()
  {
    hide *;
    HangingMeans(s, lz, t, rz);
    ApartMeans(s, lz, t, rz);
    SpineNodes(s, lz);
    SpineNodes(s, rz);
    SubNodes(t);
    LastIn(s, lz);
    LastIn(s, rz);
    l.right := top.left;
    r.left := top.right;
    FillLeftLinked(s, lz, t.left);
    FillRightLinked(s, rz, t.right);
    SpineFill(lz, t.left);
    SpineFill(rz, t.right);
    top.left := s.right;
    top.right := s.left;
    AssembledLinked(lz, t, rz);
  }

  lemma AssembledLinked(lz: Spine, t: Tree, rz: Spine)
    requires t.Bin? && lz.FillLeft(t.left).Linked() && rz.FillRight(t.right).Linked()
    requires t.n.left == lz.FillLeft(t.left).Root() && t.n.right == rz.FillRight(t.right).Root()
    ensures Assembled(lz, t, rz).Linked()
  {
  }

  /** What a splay of `t` on a key establishes for the new tree `t'` and the recorded outcome. */
  ghost predicate Splayed(t: Tree, t': Tree, cmp: V -> int, outcome: int)
    reads t'.Nodes()
  {
    && t'.Bin? && t'.Linked() && t'.Distinct() && t'.InOrder() == t.InOrder() && t'.Nodes() == t.Nodes()
    && outcome == cmp(t'.n.data)
    && (Monotone(t.InOrder(), cmp) ==> Above(t'.left.Nodes(), cmp) && Below(t'.right.Nodes(), cmp))
  }

  /** SplayNode::splay: bring the node closest to the key to the top; `cmp` compares the key with a value. */
  method Splay(first: Node, cmp: V -> int, g: LastResult, ghost t0: Tree, ghost all: set<Node>)
    returns (top: Node, ghost t': Tree)
    requires t0.Bin? && t0.Linked() && t0.Distinct() && first == t0.n && all == t0.Nodes()
    modifies g, all`left, all`right
    ensures top == t'.Root() && Splayed(t0, t', cmp, g.value)
    ensures t' == Brought(t0, cmp) && g.compared == old(g.compared) + Comparisons(t0, cmp)
  {
    hide *;
    var temp: V := *;
    var s := new Node(temp);
    var l, r := s, s;
    top := first;
    ghost var lz, t, rz := Spine.Empty, t0, Spine.Empty;
    SplayStart(s, t0, cmp);
    ProgressStart(t0, cmp);
    var done := false;
    while !done
      invariant Progress(lz, t, rz, cmp, t0, done, g.compared - old(g.compared))
      invariant t.Bin? && top == t.n && l == lz.Last(s) && r == rz.Last(s)
      invariant Hanging(s, lz, t, rz) && Searching(lz, t, rz, cmp, t0) && WholeIn(lz, t, rz, all)
      invariant done ==> Stopped(t, cmp, g.value)
      decreases !done, Size(t)
    {
      HangingMeans(s, lz, t, rz);
      WholeMeans(s, lz, t, rz, all);
      RootIs(t.left);
      RootIs(t.right);
      GoesIs(t, cmp);
      ghost var (lz0, was, rz0, made) := (lz, t, rz, g.compared - old(g.compared));
      g.value, g.compared := cmp(top.data), g.compared + 1;
      if g.value < 0 {
        if top.left == null {
          StoppedIs(t, cmp, g.value);
          ProgressStop(lz, t, rz, cmp, t0, made);
          done := true;
        } else {
          done, top, r, t, rz := GoLeft(top, r, g, cmp, s, lz, t, rz, t0, all);
          ProgressTurn(lz0, was, rz0, lz, t, rz, cmp, t0, done, made);
        }
      } else if g.value > 0 {
        if top.right == null {
          StoppedIs(t, cmp, g.value);
          ProgressStop(lz, t, rz, cmp, t0, made);
          done := true;
        } else {
          done, top, l, t, lz := GoRight(top, l, g, cmp, s, lz, t, rz, t0, all);
          ProgressTurn(lz0, was, rz0, lz, t, rz, cmp, t0, done, made);
        }
      } else {
        StoppedIs(t, cmp, g.value);
        ProgressStop(lz, t, rz, cmp, t0, made);
        done := true;
      }
      SearchWhole(lz, t, rz, cmp, t0, all);
    }
    HangingMeans(s, lz, t, rz);
    WholeMeans(s, lz, t, rz, all);
    StoppedMeans(t, cmp, g.value);
    AssembledKeeps(s, lz, t, rz, cmp, t0, g.value);
    Assemble(top, l, r, s, lz, t, rz, all);
    t' := Assembled(lz, t, rz);
    ProgressEnd(lz, t, rz, cmp, t0, g.compared - old(g.compared));
    RootIs(t');
    SplayedIs(t0, t', cmp, g.value);
  }

  lemma StoppedMeans(t: Tree, cmp: V -> int, c: int)
    requires Stopped(t, cmp, c)
    ensures t.Bin? && c == cmp(t.n.data)
  {
  }

  ghost predicate WholeIn(lz: Spine, t: Tree, rz: Spine, all: set<Node>) {
    WholeNodes(lz, t, rz) == all
  }

  lemma SearchWhole(lz: Spine, t: Tree, rz: Spine, cmp: V -> int, t0: Tree, all: set<Node>)
    requires Searching(lz, t, rz, cmp, t0) && all == t0.Nodes()
    ensures WholeIn(lz, t, rz, all)
  {
  }

  lemma WholeMeans(s: Node, lz: Spine, t: Tree, rz: Spine, all: set<Node>)
    requires WholeIn(lz, t, rz, all) && t.Bin?
    ensures lz.Nodes() <= all && rz.Nodes() <= all && t.Nodes() <= all && t.n in t.Nodes()
    ensures lz.Last(s) in all + {s} && rz.Last(s) in all + {s}
  {
  }

  lemma SplayStart(s: Node, t0: Tree, cmp: V -> int)
    requires t0.Bin? && t0.Linked() && t0.Distinct() && s !in t0.Nodes()
    ensures Hanging(s, Spine.Empty, t0, Spine.Empty) && Searching(Spine.Empty, t0, Spine.Empty, cmp, t0)
    ensures WholeIn(Spine.Empty, t0, Spine.Empty, t0.Nodes()) && Spine.Empty.Last(s) == s
  {
  }

  lemma SplayedIs(t0: Tree, t': Tree, cmp: V -> int, outcome: int)
    requires t'.Bin? && t'.Linked() && t'.Distinct() && t'.InOrder() == t0.InOrder() && t'.Nodes() == t0.Nodes()
    requires outcome == cmp(t'.n.data)
    requires Monotone(t0.InOrder(), cmp) ==> Above(t'.left.Nodes(), cmp) && Below(t'.right.Nodes(), cmp)
    ensures Splayed(t0, t', cmp, outcome)
  {
  }

  // ---------- SplayNode::insert and SplayNode::remove ----------

  /** A comparison function: its sign is a total preorder. */
  ghost predicate Order(compare: (V, V) -> int) {
    && (forall a, b :: compare(a, b) < 0 <==> compare(b, a) > 0)
    && (forall a, b, c :: compare(a, b) <= 0 && compare(b, c) < 0 ==> compare(a, c) < 0)
    && (forall a, b, c :: compare(a, b) < 0 && compare(b, c) <= 0 ==> compare(a, c) < 0)
  }

  ghost predicate Sorted(s: seq<Node>, compare: (V, V) -> int) {
    forall i, j :: 0 <= i < j < |s| ==> compare(s[i].data, s[j].data) < 0
  }

  /** Comparing one key with any value. */
  function Against<K>(key: K, compare: (K, V) -> int): V -> int {
    v => compare(key, v)
  }

  lemma SortedMonotone(s: seq<Node>, value: V, compare: (V, V) -> int)
    requires Order(compare) && Sorted(s, compare)
    ensures Monotone(s, Against(value, compare))
  {
  }

  ghost predicate Member(s: seq<Node>, cmp: V -> int) {
    exists i :: 0 <= i < |s| && cmp(s[i].data) == 0
  }

  /** `s'` is `s` without one element that compares equal. */
  ghost predicate TakenOut(s: seq<Node>, cmp: V -> int, s': seq<Node>) {
    exists i :: 0 <= i < |s| && cmp(s[i].data) == 0 && s' == s[..i] + s[i + 1..]
  }

  /** The new top when a node is put in above a splayed tree whose top compared to `outcome`. */
  ghost function WithNew(a: Tree, n: Node, outcome: int): Tree
    requires a.Bin?
  {
    if outcome < 0 then Bin(n, a.left, Bin(a.n, Nil, a.right)) else Bin(n, Bin(a.n, a.left, Nil), a.right)
  }

  lemma WithNewIs(a: Tree, n: Node, outcome: int)
    requires a.Bin?
    ensures var t := WithNew(a, n, outcome);
            t == Bin(n, a.left, Bin(a.n, Nil, a.right)) || t == Bin(n, Bin(a.n, a.left, Nil), a.right)
  {
  }

  /** What one splay costs. */
  lemma SplayPays(t: Tree, cmp: V -> int)
    requires t.Bin?
    ensures Comparisons(t, cmp) + 4 * Potential(Brought(t, cmp)) <= 4 * Potential(t) + SplayFee(Size(t))
    ensures Size(Brought(t, cmp)) == Size(t)
  {
    hide Comparisons, Brought, Potential;
    Access(t, cmp);
    BroughtSize(t, cmp);
  }

  /** What comes before and after the new node. */
  ghost function NewSides(a: Tree, outcome: int): (seq<Node>, seq<Node>)
    requires a.Bin?
  {
    if outcome < 0 then (a.left.InOrder(), [a.n] + a.right.InOrder()) else (a.left.InOrder() + [a.n], a.right.InOrder())
  }

  lemma WithNewOrder(a: Tree, n: Node, outcome: int)
    requires a.Bin?
    ensures a.InOrder() == NewSides(a, outcome).0 + NewSides(a, outcome).1
    ensures WithNew(a, n, outcome).InOrder() == NewSides(a, outcome).0 + [n] + NewSides(a, outcome).1
  {
    assert Tree.Nil.InOrder() == [];
    if outcome < 0 {
      assert Bin(a.n, Nil, a.right).InOrder() == [a.n] + a.right.InOrder();
    } else {
      assert Bin(a.n, a.left, Nil).InOrder() == a.left.InOrder() + [a.n];
    }
  }

  lemma WithNewNodes(a: Tree, n: Node, outcome: int)
    requires a.Bin? && a.Distinct() && n !in a.Nodes()
    ensures WithNew(a, n, outcome).Distinct() && WithNew(a, n, outcome).Nodes() == a.Nodes() + {n}
  {
    assert Tree.Nil.Nodes() == {};
    if outcome < 0 {
      assert Bin(a.n, Nil, a.right).Nodes() == {a.n} + a.right.Nodes();
    } else {
      assert Bin(a.n, a.left, Nil).Nodes() == {a.n} + a.left.Nodes();
    }
  }

  lemma PutInIs(lo: seq<Node>, n: Node, hi: seq<Node>)
    ensures PutIn<Node>(lo + hi, n, lo + [n] + hi)
  {
    var s := lo + hi;
    assert s[..|lo|] == lo && s[|lo|..] == hi;
  }

  lemma {:induction false} WithNewKeeps(a: Tree, n: Node, outcome: int)
    requires a.Bin? && a.Distinct() && n !in a.Nodes()
    ensures var t := WithNew(a, n, outcome);
            && t.Distinct() && t.Nodes() == a.Nodes() + {n} && PutIn<Node>(a.InOrder(), n, t.InOrder())
  {
    hide *;
    WithNewNodes(a, n, outcome);
    WithNewOrder(a, n, outcome);
    PutInIs(NewSides(a, outcome).0, n, NewSides(a, outcome).1);
  }

  /** A node put between its sides keeps the order. */
  lemma {:induction false} WithNewSorted(a: Tree, n: Node, compare: (V, V) -> int)
    requires a.Bin? && Order(compare) && Sorted(a.InOrder(), compare)
    requires Above(a.left.Nodes(), Against(n.data, compare)) && Below(a.right.Nodes(), Against(n.data, compare))
    requires compare(n.data, a.n.data) != 0
    ensures Sorted(WithNew(a, n, compare(n.data, a.n.data)).InOrder(), compare)
  {
    hide Order, Sorted, Tree.InOrder, Tree.Nodes, WithNew;
    var c := compare(n.data, a.n.data);
    var (lo, hi) := NewSides(a, c);
    WithNewOrder(a, n, c);
    InOrderNodes(a.left);
    InOrderNodes(a.right);
    assert forall i :: 0 <= i < |a.left.InOrder()| ==> a.left.InOrder()[i] in a.left.Nodes();
    assert forall i :: 0 <= i < |a.right.InOrder()| ==> a.right.InOrder()[i] in a.right.Nodes();
    SortedAround(lo, n, hi, compare);
  }

  lemma SortedAround(lo: seq<Node>, n: Node, hi: seq<Node>, compare: (V, V) -> int)
    requires Order(compare) && Sorted(lo + hi, compare)
    requires forall i :: 0 <= i < |lo| ==> compare(n.data, lo[i].data) > 0
    requires forall i :: 0 <= i < |hi| ==> compare(n.data, hi[i].data) < 0
    ensures Sorted(lo + [n] + hi, compare)
  {
    var (s, t) := (lo + hi, lo + [n] + hi);
    forall i, j | 0 <= i < j < |t| ensures compare(t[i].data, t[j].data) < 0 {
      var i' := if i < |lo| then i else i - 1;
      var j' := if j < |lo| then j else j - 1;
      assert i != |lo| && j != |lo| ==> t[i] == s[i'] && t[j] == s[j'];
    }
  }

  lemma SplayedMeans(t0: Tree, t': Tree, cmp: V -> int, outcome: int)
    requires Splayed(t0, t', cmp, outcome)
    ensures t'.Bin? && t'.Linked() && t'.Distinct() && t'.InOrder() == t0.InOrder() && t'.Nodes() == t0.Nodes()
    ensures t'.n.left == t'.left.Root() && t'.n.right == t'.right.Root() && t'.left.Linked() && t'.right.Linked()
    ensures outcome == cmp(t'.n.data)
    ensures Monotone(t0.InOrder(), cmp) ==> Above(t'.left.Nodes(), cmp) && Below(t'.right.Nodes(), cmp)
  {
  }

  /** SplayNode::insert. */
  method InsertAt(first: Node, value: V, compare: (V, V) -> int, g: LastResult, ghost t0: Tree, ghost all: set<Node>)
    returns (top: Node, ghost t': Tree)
    requires t0.Bin? && t0.Linked() && t0.Distinct() && first == t0.n && all == t0.Nodes()
    requires Order(compare) && Sorted(t0.InOrder(), compare)
    modifies g, all`left, all`right
    ensures top == t'.Root() && t'.Linked() && t'.Distinct() && Sorted(t'.InOrder(), compare)
    ensures Member(t0.InOrder(), Against(value, compare)) ==> t'.InOrder() == t0.InOrder() && t'.Nodes() == all
    ensures !Member(t0.InOrder(), Against(value, compare)) ==>
              fresh(top) && top.data == value && t'.Nodes() == all + {top} && PutIn<Node>(t0.InOrder(), top, t'.InOrder())
    ensures g.compared + 4 * Potential(t') <= old(g.compared) + 4 * Potential(t0) + SplayFee(Size(t0)) + 4 * Log2(Size(t0) + 1)
  {
    hide *;
    var newNode := new Node(value);
    ghost var cmp := Against(value, compare);
    ghost var a;
    AgainstIs(value, compare);
    top, a := Splay(first, Against(value, compare), g, t0, all);
    SortedMonotone(t0.InOrder(), value, compare);
    SplayPays(t0, cmp);
    SplayedMeans(t0, a, cmp, g.value);
    RootIs(a);
    MemberIff(a, cmp);
    SubNodes(a);
    t' := a;
    if g.value < 0 {
      newNode.left := top.left;
      newNode.right := top;
      top.left := null;
    } else if g.value > 0 {
      newNode.right := top.right;
      newNode.left := top;
      top.right := null;
    } else {
      return;
    }
    t' := WithNew(a, newNode, g.value);
    WithNewKeeps(a, newNode, g.value);
    WithNewSorted(a, newNode, compare);
    WithNewLinked(a, newNode, g.value);
    WithNewIs(a, newNode, g.value);
    NewTop(a, newNode, t');
    top := newNode;
  }

  lemma AgainstIs<K>(key: K, compare: (K, V) -> int)
    ensures forall v :: Against(key, compare)(v) == compare(key, v)
  {
  }

  /** On a search order the splayed top decides membership. */
  lemma {:induction false} MemberIff(a: Tree, cmp: V -> int)
    requires a.Bin? && Above(a.left.Nodes(), cmp) && Below(a.right.Nodes(), cmp)
    ensures Member(a.InOrder(), cmp) <==> cmp(a.n.data) == 0
  {
    InOrderNodes(a.left);
    InOrderNodes(a.right);
    assert a.InOrder()[|a.left.InOrder()|] == a.n;
    forall i | 0 <= i < |a.InOrder()| ensures cmp(a.InOrder()[i].data) == 0 ==> a.InOrder()[i] == a.n {
      var x := a.InOrder()[i];
      assert x in a.left.Nodes() || x == a.n || x in a.right.Nodes();
    }
  }

  lemma WithNewLinked(a: Tree, n: Node, outcome: int)
    requires a.Bin? && a.left.Linked() && a.right.Linked()
    requires outcome < 0 ==> n.left == a.left.Root() && n.right == a.n && a.n.left == null && a.n.right == a.right.Root()
    requires outcome >= 0 ==> n.right == a.right.Root() && n.left == a.n && a.n.right == null && a.n.left == a.left.Root()
    ensures WithNew(a, n, outcome).Linked() && WithNew(a, n, outcome).Root() == n
  {
  }

  /** A splay of the left half on the removed key leaves nothing right of its top. */
  lemma {:induction false} HalfEndsRight(half: Tree, b: Tree, cmp: V -> int)
    requires b.Bin? && b.Nodes() == half.Nodes() && Above(half.Nodes(), cmp) && Below(b.right.Nodes(), cmp)
    ensures b.right == Nil
  {
    RootInside(b.right);
    assert b.right.Nodes() <= half.Nodes();
  }

  lemma RootInside(t: Tree)
    ensures t.Bin? <==> t.Root() in t.Nodes()
    ensures t.Bin? ==> t.Nodes() != {}
  {
  }

  lemma HalfMonotone(a: Tree, cmp: V -> int)
    requires a.Bin? && Monotone(a.InOrder(), cmp)
    ensures Monotone(a.left.InOrder(), cmp)
  {
    assert forall i :: 0 <= i < |a.left.InOrder()| ==> a.left.InOrder()[i] == a.InOrder()[i];
  }

  /** The halves joined over `b`, the left half with its greatest node on top. */
  lemma {:induction false} JoinedIs(a: Tree, b: Tree)
    requires a.Bin? && a.Distinct() && b.Bin? && b.Distinct() && b.right == Nil
    requires b.Nodes() == a.left.Nodes() && b.InOrder() == a.left.InOrder()
    ensures var t := Bin(b.n, b.left, a.right);
            t.Distinct() && t.InOrder() == a.left.InOrder() + a.right.InOrder() && t.Nodes() == a.left.Nodes() + a.right.Nodes()
  {
    assert Tree.Nil.InOrder() == [] && Tree.Nil.Nodes() == {};
  }

  lemma TopTaken(a: Tree, cmp: V -> int)
    requires a.Bin? && cmp(a.n.data) == 0 && a.Distinct()
    ensures TakenOut(a.InOrder(), cmp, a.left.InOrder() + a.right.InOrder())
    ensures a.left.Nodes() + a.right.Nodes() == a.Nodes() - {a.n}
  {
    var i := |a.left.InOrder()|;
    assert a.InOrder()[i] == a.n && a.InOrder()[..i] == a.left.InOrder() && a.InOrder()[i + 1..] == a.right.InOrder();
  }

  lemma TakenSorted(s: seq<Node>, cmp: V -> int, s': seq<Node>, compare: (V, V) -> int)
    requires Sorted(s, compare) && TakenOut(s, cmp, s')
    ensures Sorted(s', compare) && |s'| == |s| - 1
  {
    hide Sorted;
    var i :| 0 <= i < |s| && cmp(s[i].data) == 0 && s' == s[..i] + s[i + 1..];
    SortedWithout(s, i, compare);
  }

  lemma SortedWithout(s: seq<Node>, i: nat, compare: (V, V) -> int)
    requires i < |s| && Sorted(s, compare)
    ensures Sorted(s[..i] + s[i + 1..], compare)
  {
    var s' := s[..i] + s[i + 1..];
    forall j, k | 0 <= j < k < |s'| ensures compare(s'[j].data, s'[k].data) < 0 {
      var (j', k') := (if j < i then j else j + 1, if k < i then k else k + 1);
      assert s'[j] == s[j'] && s'[k] == s[k'];
    }
  }

  /** SplayNode::remove. */
  method RemoveAt(first: Node, value: V, compare: (V, V) -> int, g: LastResult, ghost t0: Tree, ghost all: set<Node>)
    returns (top: Node?, ghost t': Tree)
    requires t0.Bin? && t0.Linked() && t0.Distinct() && first == t0.n && all == t0.Nodes()
    requires Order(compare) && Sorted(t0.InOrder(), compare)
    modifies g, all`left, all`right
    ensures top == t'.Root() && t'.Linked() && t'.Distinct() && Sorted(t'.InOrder(), compare) && t'.Nodes() <= all
    ensures !Member(t0.InOrder(), Against(value, compare)) ==> t'.InOrder() == t0.InOrder()
    ensures Member(t0.InOrder(), Against(value, compare)) ==> TakenOut(t0.InOrder(), Against(value, compare), t'.InOrder())
    ensures g.compared + 4 * Potential(t') <= old(g.compared) + 4 * Potential(t0) + 2 * SplayFee(Size(t0))
  {
    hide *;
    ghost var cmp := Against(value, compare);
    ghost var a;
    AgainstIs(value, compare);
    SortedMonotone(t0.InOrder(), value, compare);
    var result: Node;
    result, a := Splay(first, Against(value, compare), g, t0, all);
    SplayPays(t0, cmp);
    HalfWorth(a);
    SplayedMeans(t0, a, cmp, g.value);
    RootIs(a);
    MemberIff(a, cmp);
    SubNodes(a);
    DistinctParts(a);
    RootIs(a.left);
    top, t' := result, a;
    if g.value == 0 {
      TopTaken(a, cmp);
      TakenSorted(t0.InOrder(), cmp, a.left.InOrder() + a.right.InOrder(), compare);
      if result.left == null {
        NilInOrder();
        top, t' := result.right, a.right;
        assert a.left.InOrder() + a.right.InOrder() == a.right.InOrder();
      } else {
        ghost var b;
        HalfMonotone(a, cmp);
        ghost var rest := a.right.Nodes();
        top, b := Splay(result.left, Against(value, compare), g, a.left, a.left.Nodes());
        SplayPays(a.left, cmp);
        FeeMono(Size(a.left), Size(t0));
        SplayedMeans(a.left, b, cmp, g.value);
        RootIs(b);
        HalfEndsRight(a.left, b, cmp);
        JoinedHalves(a, b);
        JoinedIs(a, b);
        SubNodes(b);
        assert a.right.Linked();
        top.right := result.right;
        result.right := null;
        t' := Bin(b.n, b.left, a.right);
        BinLinked(t');
      }
    }
  }

  lemma DistinctParts(t: Tree)
    requires t.Bin? && t.Distinct()
    ensures t.left.Distinct() && t.right.Distinct() && t.left.Nodes() !! t.right.Nodes()
  {
  }

  lemma NilInOrder()
    ensures Tree.Nil.InOrder() == [] && Tree.Nil.Nodes() == {} && Tree.Nil.Linked() && Tree.Nil.Distinct() && Tree.Nil.Root() == null
  {
  }

  lemma BinLinked(t: Tree)
    requires t.Bin? && t.left.Linked() && t.right.Linked() && t.n.left == t.left.Root() && t.n.right == t.right.Root()
    ensures t.Linked() && t.Root() == t.n
  {
  }

  // ---------- the set ----------

  class SplaySet {
    var head: Node?
    var elements: nat
    ghost var tree: Tree
    ghost var nodes: set<Node>

    ghost predicate Valid()
      reads this, nodes
    {
      && nodes == tree.Nodes() && tree.Linked() && tree.Distinct() && head == tree.Root()
      && elements == |tree.InOrder()|
    }

    /** What has been paid: the comparisons made, and what the shape is worth. */
    ghost function Account(g: LastResult): nat
      reads this`tree, g`compared
    {
      g.compared + 4 * Potential(tree)
    }

    /** The members, as nodes from left to right. */
    ghost function Items(): seq<Node>
      reads this
    {
      tree.InOrder()
    }

    constructor ()
      ensures Valid() && Items() == [] && nodes == {}
    {
      head, elements, tree, nodes := null, 0, Nil, {};
    }

    lemma Means()
      requires Valid()
      ensures nodes == tree.Nodes() && tree.Linked() && tree.Distinct() && head == tree.Root()
      ensures elements == |tree.InOrder()| && Items() == tree.InOrder()
      ensures head == null ==> Items() == [] && nodes == {}
      ensures head != null ==> tree.Bin? && head == tree.n
      ensures head == null ==> tree.Nil?
    {
    }

    lemma Is()
      requires nodes == tree.Nodes() && tree.Linked() && tree.Distinct() && head == tree.Root()
      requires elements == |tree.InOrder()|
      ensures Valid() && Items() == tree.InOrder()
    {
    }

    lemma AccountIs(g: LastResult)
      ensures Account(g) == g.compared + 4 * Potential(tree)
    {
    }

    /** Splay::find. The result points at the found value's node. */
    method Find<K>(key: K, compare: (K, V) -> int, g: LastResult) returns (found: Node?)
      requires Valid()
      modifies this`head, this`tree, g, nodes`left, nodes`right
      ensures Valid() && Items() == old(Items())
      ensures found != null ==> found == head && found in Items() && compare(key, found.data) == 0
      ensures Monotone(Items(), Against(key, compare)) ==> (found != null <==> Member(Items(), Against(key, compare)))
      ensures Account(g) <= old(Account(g)) + SplayFee(|Items()|)
    {
      hide *;
      Means();
      AgainstIs(key, compare);
      AccountIs(g);
      if head == null {
        NoMember(Against(key, compare));
        return null;
      }
      ghost var t;
      ghost var t0 := tree;
      var top;
      top, t := Splay(head, Against(key, compare), g, tree, nodes);
      SplayPays(t0, Against(key, compare));
      SizeIs(t0);
      SplayedMeans(t0, t, Against(key, compare), g.value);
      RootIs(t);
      SameLength(t, t0);
      head, tree := top, t;
      AccountIs(g);
      Is();
      TopIn(t);
      if Monotone(Items(), Against(key, compare)) { MemberIff(t, Against(key, compare)); }
      if g.value != 0 { return null; }
      return head;
    }

    /** The first member. */
    method AddFirst(value: V, compare: (V, V) -> int, ghost g: LastResult)
      requires Valid() && head == null
      modifies this
      ensures Account(g) == old(Account(g))
      ensures Valid() && Sorted(Items(), compare) && nodes >= old(nodes) && fresh(nodes - old(nodes))
      ensures head != null && fresh(head) && head.data == value && PutIn<Node>(old(Items()), head, Items())
    {
      hide *;
      Means();
      ghost var before := Items();
      var n := new Node(value);
      OnlyOne(n, before, compare);
      OneWorth(tree, n);
      AccountIs(g);
      head, tree, nodes := n, Bin(n, Nil, Nil), {n};
      elements := elements + 1;
      AccountIs(g);
      Is();
    }

    /** A further member. */
    method AddMore(value: V, compare: (V, V) -> int, g: LastResult)
      requires Valid() && head != null && Order(compare) && Sorted(Items(), compare)
      requires !Member(Items(), Against(value, compare))
      modifies this, g, nodes`left, nodes`right
      ensures Valid() && Sorted(Items(), compare) && nodes >= old(nodes) && fresh(nodes - old(nodes))
      ensures head != null && fresh(head) && head.data == value && PutIn<Node>(old(Items()), head, Items())
      ensures Account(g) <= old(Account(g)) + SplayFee(|old(Items())|) + 4 * Log2(|old(Items())| + 1)
    {
      hide *;
      Means();
      SizeIs(tree);
      AccountIs(g);
      ghost var before := Items();
      ghost var t;
      var top;
      top, t := InsertAt(head, value, compare, g, tree, nodes);
      PutLength(before, top, t.InOrder());
      head, tree, nodes := top, t, nodes + {top};
      elements := elements + 1;
      AccountIs(g);
      Is();
    }

    /** Splay::insert. Duplicates are ignored. */
    method Insert(value: V, compare: (V, V) -> int, g: LastResult)
      requires Valid() && Order(compare) && Sorted(Items(), compare)
      modifies this, g, nodes`left, nodes`right
      ensures Valid() && Sorted(Items(), compare) && nodes >= old(nodes) && fresh(nodes - old(nodes))
      ensures Member(old(Items()), Against(value, compare)) ==> Items() == old(Items())
      ensures !Member(old(Items()), Against(value, compare)) ==>
                head != null && fresh(head) && head.data == value && PutIn<Node>(old(Items()), head, Items())
      ensures Account(g) <= old(Account(g)) + Fee(|old(Items())|)
    {
      hide *;
      FeeCovers(|Items()|);
      SortedMonotone(Items(), value, compare);
      var found := Find(value, compare, g);
      if found != null { return; }
      if head == null {
        AddFirst(value, compare, g);
      } else {
        AddMore(value, compare, g);
      }
    }

    /** Splay::remove. */
    method Remove(value: V, compare: (V, V) -> int, g: LastResult)
      requires Valid() && Order(compare) && Sorted(Items(), compare)
      modifies this, g, nodes`left, nodes`right
      ensures Valid() && Sorted(Items(), compare) && nodes <= old(nodes)
      ensures !Member(old(Items()), Against(value, compare)) ==> Items() == old(Items())
      ensures Member(old(Items()), Against(value, compare)) ==> TakenOut(old(Items()), Against(value, compare), Items())
      ensures Account(g) <= old(Account(g)) + Fee(|old(Items())|)
    {
      hide *;
      FeeCovers(|Items()|);
      ghost var before := Items();
      AgainstIs(value, compare);
      SortedMonotone(before, value, compare);
      var found := Find(value, compare, g);
      if found == null { return; }
      Means();
      SizeIs(tree);
      AccountIs(g);
      ghost var t;
      var top;
      top, t := RemoveAt(head, value, compare, g, tree, nodes);
      TakenSorted(before, Against(value, compare), t.InOrder(), compare);
      head, tree, nodes := top, t, t.Nodes();
      elements := elements - 1;
      AccountIs(g);
      Is();
    }

    /** Splay::size. */
    method Size() returns (n: nat)
      requires Valid()
      ensures n == |Items()|
    {
      n := elements;
    }
  }

  lemma OneWorth(t: Tree, n: Node)
    requires t.Nil?
    ensures Potential(t) == 0 && Potential(Bin(n, Nil, Nil)) == 0
  {
    NilSize();
    LogSmall(Size(Bin(n, Nil, Nil)));
  }

  lemma NoMember(cmp: V -> int)
    ensures !Member([], cmp)
  {
  }

  lemma SameLength(t: Tree, t0: Tree)
    requires t.InOrder() == t0.InOrder()
    ensures |t.InOrder()| == |t0.InOrder()|
  {
  }

  lemma TopIn(t: Tree)
    requires t.Bin?
    ensures t.n in t.InOrder()
  {
    assert t.InOrder()[|t.left.InOrder()|] == t.n;
  }

  lemma OnlyOne(n: Node, before: seq<Node>, compare: (V, V) -> int)
    requires before == [] && n.left == null && n.right == null
    ensures var t := Bin(n, Nil, Nil);
            && t.Nodes() == {n} && t.Linked() && t.Distinct() && t.Root() == n && t.InOrder() == [n]
            && PutIn<Node>(before, n, t.InOrder()) && Sorted(t.InOrder(), compare)
  {
    assert Tree.Nil.InOrder() == [];
    PutInIs([], n, []);
    assert [] + [n] + [] == [n];
  }

  lemma PutLength(s: seq<Node>, n: Node, s': seq<Node>)
    requires PutIn<Node>(s, n, s')
    ensures |s'| == |s| + 1
  {
  }

  /** Reading a sequence with `n` put in at `i`. */
  lemma PutFacts(s: seq<Node>, n: Node, i: nat, s1: seq<Node>)
    requires i <= |s| && s1 == s[..i] + [n] + s[i..]
    ensures |s1| == |s| + 1 && s1[i] == n && (i < |s| ==> s1[i + 1] == s[i])
    ensures forall k :: 0 <= k < |s1| && k != i ==> s1[k] == s[if k < i then k else k - 1]
    ensures s1[..i] + s1[i + 1..] == s
  {
  }

  lemma NowhereEqual(s: seq<Node>, cmp: V -> int)
    requires !Member(s, cmp)
    ensures forall k :: 0 <= k < |s| ==> cmp(s[k].data) != 0
  {
  }

  /** Removing a value that was just inserted gives the old members back. */
  lemma {:induction false} RemoveUndoesInsert(s: seq<Node>, n: Node, s1: seq<Node>, s2: seq<Node>, compare: (V, V) -> int)
    requires !Member(s, Against(n.data, compare)) && PutIn<Node>(s, n, s1) && TakenOut(s1, Against(n.data, compare), s2)
    ensures s2 == s
  {
    hide Against, Member;
    NowhereEqual(s, Against(n.data, compare));
    var i :| 0 <= i <= |s| && s1 == s[..i] + [n] + s[i..];
    PutFacts(s, n, i, s1);
    var j :| 0 <= j < |s1| && Against(n.data, compare)(s1[j].data) == 0 && s2 == s1[..j] + s1[j + 1..];
    assert j == i;
  }

  /** The order leaves no choice of place for a new member. */
  lemma {:induction false} OnePlace(s: seq<Node>, n: Node, s1: seq<Node>, s2: seq<Node>, compare: (V, V) -> int)
    requires Order(compare) && PutIn<Node>(s, n, s1) && PutIn<Node>(s, n, s2) && Sorted(s1, compare) && Sorted(s2, compare)
    ensures s1 == s2
  {
    var i :| 0 <= i <= |s| && s1 == s[..i] + [n] + s[i..];
    var j :| 0 <= j <= |s| && s2 == s[..j] + [n] + s[j..];
    PutFacts(s, n, i, s1);
    PutFacts(s, n, j, s2);
    assert i == j;
  }

  // ---------- start, finish and visit ----------

  /** SplayNode::start: the leftmost node. */
  method Start(n: Node, ghost t: Tree) returns (r: Node)
    requires t.Bin? && t.Linked() && n == t.n
    ensures t.InOrder() != [] && r == t.InOrder()[0]
    decreases t
  {
    if n.left != null {
      r := Start(n.left, t.left);
    } else {
      assert t.left == Nil;
      r := n;
    }
  }

  /** SplayNode::finish: the rightmost node. */
  method Finish(n: Node, ghost t: Tree) returns (r: Node)
    requires t.Bin? && t.Linked() && n == t.n
    ensures t.InOrder() != [] && r == t.InOrder()[|t.InOrder()| - 1]
    decreases t
  {
    if n.right != null {
      r := Finish(n.right, t.right);
    } else {
      assert t.right == Nil;
      r := n;
    }
  }

  /** The values of a sequence of nodes. */
  function Values(s: seq<Node>): (r: seq<V>)
    ensures |r| == |s| && forall i :: 0 <= i < |s| ==> r[i] == s[i].data
  {
    seq(|s|, i requires 0 <= i < |s| => s[i].data)
  }

  /** SplayNode::visit and walk: every value once, from left to right. */
  method Visit(n: Node, ghost t: Tree, ghost all: set<Node>) returns (seen: seq<V>)
    requires t.Bin? && t.Linked() && n == t.n && t.Nodes() <= all
    ensures seen == Values(t.InOrder())
    decreases t
  {
    seen := [];
    if n.left != null { seen := Visit(n.left, t.left, all); } else { assert t.left == Nil; }
    seen := seen + [n.data];
    if n.right != null {
      var more := Visit(n.right, t.right, all);
      seen := seen + more;
    } else {
      assert t.right == Nil;
    }
  }

  // ---------- the iterator ----------

  /** What the stack still yields: each stacked node, then its right subtree, from the top down. */
  ghost function Rest(stack: seq<Tree>): seq<Node> {
    if stack == [] then []
    else
      var t := stack[|stack| - 1];
      (if t.Nil? then [] else [t.n] + t.right.InOrder()) + Rest(stack[..|stack| - 1])
  }

  /** What the iterator yields from now on: the right subtree of the current node is not stacked any more. */
  ghost function Yields(stack: seq<Tree>): seq<Node> {
    if stack == [] then []
    else
      var t := stack[|stack| - 1];
      (if t.Nil? then [] else [t.n]) + Rest(stack[..|stack| - 1])
  }

  /** The path from `t` down its left pointers, the leftmost node last. */
  ghost function LeftPath(t: Tree): seq<Tree> {
    if t.Nil? then [] else [t] + LeftPath(t.left)
  }

  /** Stacking a left path adds a whole subtree. */
  lemma {:induction false} RestOfPath(stack: seq<Tree>, t: Tree)
    ensures Rest(stack + LeftPath(t)) == t.InOrder() + Rest(stack)
    decreases t
  {
    if t.Nil? {
      assert stack + LeftPath(t) == stack;
    } else {
      assert stack + LeftPath(t) == stack + [t] + LeftPath(t.left);
      RestOfPath(stack + [t], t.left);
      assert (stack + [t])[..|stack|] == stack;
    }
  }

  /** The in-order sequence without the right subtree of the leftmost node. */
  ghost function Skipping(t: Tree): seq<Node> {
    if t.Nil? then []
    else if t.left.Nil? then [t.n]
    else Skipping(t.left) + [t.n] + t.right.InOrder()
  }

  ghost function Leftmost(t: Tree): (r: Tree)
    requires t.Bin?
    ensures r.Bin?
  {
    if t.left.Nil? then t else Leftmost(t.left)
  }

  /** A fresh iterator yields the in-order sequence but for the right subtree of the leftmost node. */
  lemma {:induction false} FreshYields(stack: seq<Tree>, t: Tree)
    requires t.Bin?
    ensures Yields(stack + LeftPath(t)) == Skipping(t) + Rest(stack)
    decreases t
  {
    assert stack + LeftPath(t) == stack + [t] + LeftPath(t.left);
    if t.left.Nil? {
      assert (stack + LeftPath(t)) == stack + [t];
      assert (stack + [t])[..|stack|] == stack;
    } else {
      FreshYields(stack + [t], t.left);
      assert (stack + [t])[..|stack|] == stack;
    }
  }

  /** The iterator enumerates the whole set exactly when the start() node has no right child. */
  lemma {:induction false} WholeIff(t: Tree)
    requires t.Bin?
    ensures |Skipping(t)| == |t.InOrder()| - |Leftmost(t).right.InOrder()|
    ensures Skipping(t) == t.InOrder() <==> Leftmost(t).right == Nil
    ensures t.InOrder() != [] && Leftmost(t).n == t.InOrder()[0]
  {
    if t.left.Bin? { WholeIff(t.left); } else { assert t.left.InOrder() == []; }
  }

  /** A smaller element inserted after a larger one: the iterator returns the smaller one only. */
  lemma SkipsLarger(small: Node, large: Node)
    ensures var t := WithNew(Bin(large, Nil, Nil), small, -1);
            t.InOrder() == [small, large] && Skipping(t) == [small]
  {
    assert Tree.Nil.InOrder() == [];
    assert Bin(large, Nil, Nil).InOrder() == [large];
  }

  lemma YieldsPop(stack: seq<Tree>)
    requires stack != [] && stack[|stack| - 1].Bin?
    ensures Yields(stack) == [stack[|stack| - 1].n] + Rest(stack[..|stack| - 1])
  {
  }

  lemma RestPop(stack: seq<Tree>, t: Tree)
    requires t.Bin?
    ensures Rest(stack + [t]) == [t.n] + t.right.InOrder() + Rest(stack)
    ensures Yields(stack + [t]) == [t.n] + Rest(stack)
  {
    assert (stack + [t])[..|stack|] == stack;
  }

  /** Popping the current node and stacking the left path under the next one moves on by one node. */
  lemma {:induction false} AdvanceYields(below: seq<Tree>, next: Tree, current: Tree)
    requires next.Bin? && current.Bin?
    ensures [current.n] + Yields(below + LeftPath(next.right) + [next]) == Yields(below + [next, current])
  {
    hide Rest, Yields, LeftPath, Tree.InOrder;
    RestPop(below + LeftPath(next.right), next);
    RestOfPath(below, next.right);
    assert below + [next, current] == below + [next] + [current];
    RestPop(below + [next], current);
    RestPop(below, next);
  }

  lemma EndYields(stack: seq<Tree>)
    requires forall i :: 0 <= i < |stack| ==> stack[i].Bin?
    ensures Yields(stack) == [] <==> stack == []
  {
  }

  lemma RestEmpty(stack: seq<Tree>)
    requires stack == []
    ensures Rest(stack) == [] && Yields(stack) == []
  {
  }

  lemma Unlinked(t: Tree)
    requires t.Bin? && t.Linked()
    ensures t.right.Linked() && t.n.right == t.right.Root() && t.right.Nodes() <= t.Nodes()
  {
  }

  class ConstIterator {
    var toVisit: seq<Node>
    ghost var stack: seq<Tree>
    ghost var nodes: set<Node>

    ghost predicate Valid()
      reads this, nodes
    {
      && |toVisit| == |stack|
      && forall i :: 0 <= i < |stack| ==>
           stack[i].Bin? && stack[i].n == toVisit[i] && stack[i].Nodes() <= nodes && stack[i].Linked()
    }

    /** The nodes still to come, the current one first. */
    ghost function Coming(): seq<Node>
      reads this
    {
      Yields(stack)
    }

    /** Splay::begin for the root of `t`; Splay::end for no node at all. */
    constructor (head: Node?, ghost t: Tree, ghost all: set<Node>)
      requires t.Linked() && head == t.Root() && t.Nodes() <= all
      ensures Valid() && Coming() == Skipping(t)
    {
      toVisit, stack, nodes := [], [], all;
      new;
      AddLeftPath(head, t);
      assert [] + LeftPath(t) == LeftPath(t);
      if t.Bin? { FreshYields([], t); }
    }

    method Push(n: Node, ghost t: Tree)
      requires Valid() && t.Bin? && t.Linked() && n == t.n && t.Nodes() <= nodes
      modifies this`toVisit, this`stack
      ensures Valid() && stack == old(stack) + [t]
    {
      hide Tree.Linked;
      toVisit, stack := toVisit + [n], stack + [t];
    }

    method Pop() returns (n: Node)
      requires Valid() && toVisit != []
      modifies this`toVisit, this`stack
      ensures old(stack) != [] && old(stack)[|old(stack)| - 1].Bin? && n == old(stack)[|old(stack)| - 1].n
      ensures Valid() && stack == old(stack)[..|old(stack)| - 1]
    {
      hide Tree.Linked;
      n := toVisit[|toVisit| - 1];
      toVisit, stack := toVisit[..|toVisit| - 1], stack[..|stack| - 1];
    }

    method AddLeftPath(n: Node?, ghost t: Tree)
      requires Valid() && t.Linked() && n == t.Root() && t.Nodes() <= nodes
      modifies this`toVisit, this`stack
      ensures Valid() && stack == old(stack) + LeftPath(t) && nodes == old(nodes)
    {
      var x := n;
      ghost var rest := t;
      while x != null
        invariant Valid() && nodes == old(nodes) && rest.Linked() && x == rest.Root() && rest.Nodes() <= nodes
        invariant stack + LeftPath(rest) == old(stack) + LeftPath(t)
        decreases rest
      {
        Push(x, rest);
        x, rest := x.left, rest.left;
      }
    }

    method Advance()
      requires Valid()
      modifies this`toVisit, this`stack
      ensures Valid() && Coming() == (if old(Coming()) == [] then [] else old(Coming())[1..])
    {
      hide Tree.Linked, Tree.Nodes, Tree.InOrder, Yields, Rest, LeftPath;
      EndYields(stack);
      if |toVisit| == 0 { return; }
      ghost var before := stack;
      var last := Pop();
      YieldsPop(before);
      if |toVisit| == 0 {
        RestEmpty(stack);
        return;
      }
      ghost var (next, below) := (stack[|stack| - 1], stack[..|stack| - 1]);
      Unlinked(next);
      var current := Pop();
      AddLeftPath(current.right, next.right);
      Push(current, next);
      assert before == below + [next, before[|before| - 1]];
      AdvanceYields(below, next, before[|before| - 1]);
    }

    /** operator*: a fatal error past the end. */
    method Current() returns (v: V)
      requires Valid() && toVisit != []
      ensures Coming() != [] && v == Coming()[0].data
    {
      v := toVisit[|toVisit| - 1].data;
    }

    /** operator== against end(): nothing is left exactly when the stack is empty. */
    method AtEnd() returns (r: bool)
      requires Valid()
      ensures r <==> Coming() == []
    {
      r := |toVisit| == 0;
    }
  }
}
