/** include/splay.h: the nodes, and the tree of node references that the pointers are proved to form. */
module SplayNodes {
  /** The values of the set; only the caller's comparison looks inside them. */
  type V(!new, 0)

  class Node {
    const data: V
    var left: Node?
    var right: Node?

    constructor (data: V)
      ensures this.data == data && left == null && right == null
    {
      this.data := data;
      left, right := null, null;
    }
  }

  datatype Tree = Nil | Bin(n: Node, left: Tree, right: Tree) {
    ghost function Root(): Node? {
      if Nil? then null else n
    }

    ghost function Nodes(): set<Node> {
      if Nil? then {} else {n} + left.Nodes() + right.Nodes()
    }

    ghost function InOrder(): seq<Node> {
      if Nil? then [] else left.InOrder() + [n] + right.InOrder()
    }

    /** No node occurs twice. */
    ghost predicate Distinct() {
      Bin? ==> left.Distinct() && right.Distinct() && n !in left.Nodes() + right.Nodes() && left.Nodes() !! right.Nodes()
    }

    /** The pointers in memory are this tree. */
    ghost predicate Linked()
      reads Nodes()
    {
      Bin? ==> n.left == left.Root() && n.right == right.Root() && left.Linked() && right.Linked()
    }
  }

  ghost function Size(t: Tree): nat {
    if t.Nil? then 0 else 1 + Size(t.left) + Size(t.right)
  }
}
