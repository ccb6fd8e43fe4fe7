/** The linked nodes of the symbol table, and what they represent. */
module SymbolNodes {
  import opened SplayTree

  class Node {
    const sym: Symbol
    var left: Node?
    var right: Node?

    constructor (sym: Symbol)
      ensures this.sym == sym && left == null && right == null
    {
      this.sym := sym;
      left, right := null, null;
    }
  }

  type Shape = Tree<Node>
  type Side = Spine<Node>

  function Nodes(t: Shape): (r: set<Node>) {
    match t
    case Leaf => {}
    case Bin(l, e, r) => Nodes(l) + {e.item} + Nodes(r)
  }

  lemma {:induction false} NodesAllocated(t: Shape)
    ensures forall x :: x in Nodes(t) ==> allocated(x)
    decreases t
  {
    match t
    case Leaf =>
    case Bin(l, e, r) =>
      NodesAllocated(l);
      NodesAllocated(r);
  }

  function SideNodes(s: Side): (r: set<Node>) {
    match s
    case Base => {}
    case Snoc(outer, e, sub) => SideNodes(outer) + {e.item} + Nodes(sub)
  }

  /** No node occurs twice, and every entry carries its node's symbol. */
  ghost predicate Proper(t: Shape) {
    match t
    case Leaf => true
    case Bin(l, e, r) =>
      && e.item.sym == e.sym
      && e.item !in Nodes(l) && e.item !in Nodes(r) && Nodes(l) !! Nodes(r)
      && Proper(l) && Proper(r)
  }

  ghost predicate ProperSide(s: Side) {
    match s
    case Base => true
    case Snoc(outer, e, sub) =>
      && e.item.sym == e.sym
      && e.item !in SideNodes(outer) && e.item !in Nodes(sub) && SideNodes(outer) !! Nodes(sub)
      && ProperSide(outer) && Proper(sub)
  }

  /** The links from `n` on spell out the tree `t`. */
  ghost predicate Rep(n: Node?, t: Shape)
    reads Nodes(t)
  {
    match t
    case Leaf => n == null
    case Bin(l, e, r) => n == e.item && Rep(e.item.left, l) && Rep(e.item.right, r)
  }

  /** The innermost node of a side tree: the one with the hole. */
  function Innermost(dummy: Node, s: Side): (r: Node) {
    match s
    case Base => dummy
    case Snoc(_, e, _) => e.item
  }

  /** The left tree hangs off dummy.right, its hole is a right child. */
  ghost predicate RepLeft(dummy: Node, s: Side)
    reads dummy`right, SideNodes(s)
  {
    match s
    case Base => true
    case Snoc(outer, e, sub) =>
      && Rep(e.item.left, sub)
      && (if outer.Base? then dummy.right == e.item else outer.entry.item.right == e.item)
      && RepLeft(dummy, outer)
  }

  /** The right tree hangs off dummy.left, its hole is a left child. */
  ghost predicate RepRight(dummy: Node, s: Side)
    reads dummy`left, SideNodes(s)
  {
    match s
    case Base => true
    case Snoc(outer, e, sub) =>
      && Rep(e.item.right, sub)
      && (if outer.Base? then dummy.left == e.item else outer.entry.item.left == e.item)
      && RepRight(dummy, outer)
  }

  /** Filling the hole of the left tree yields the plugged tree. */
  lemma {:induction false} PlugLeftRep(dummy: Node, s: Side, n: Node?, t: Shape)
    requires RepLeft(dummy, s) && ProperSide(s) && Proper(t) && Nodes(t) !! SideNodes(s)
    requires Rep(n, t) && Innermost(dummy, s).right == n
    ensures Rep(dummy.right, PlugLeft(s, t)) && Proper(PlugLeft(s, t))
    ensures Nodes(PlugLeft(s, t)) == SideNodes(s) + Nodes(t)
    decreases s
  {
    match s
    case Base =>
    case Snoc(outer, e, sub) => PlugLeftRep(dummy, outer, e.item, Bin(sub, e, t));
  }

  lemma {:induction false} PlugRightRep(dummy: Node, s: Side, n: Node?, t: Shape)
    requires RepRight(dummy, s) && ProperSide(s) && Proper(t) && Nodes(t) !! SideNodes(s)
    requires Rep(n, t) && Innermost(dummy, s).left == n
    ensures Rep(dummy.left, PlugRight(s, t)) && Proper(PlugRight(s, t))
    ensures Nodes(PlugRight(s, t)) == SideNodes(s) + Nodes(t)
    decreases s
  {
    match s
    case Base =>
    case Snoc(outer, e, sub) => PlugRightRep(dummy, outer, e.item, Bin(t, e, sub));
  }

  /** The state of a splay: left tree, middle tree at `n`, right tree, with no
      node shared and the dummy node in none. */
  ghost predicate TakenApart(dummy: Node, l: Side, n: Node?, t: Shape, r: Side)
    reads dummy, SideNodes(l), Nodes(t), SideNodes(r)
  {
    var apart :=
      && ProperSide(l) && Proper(t) && ProperSide(r)
      && SideNodes(l) !! Nodes(t) && SideNodes(l) !! SideNodes(r) && Nodes(t) !! SideNodes(r)
      && dummy !in SideNodes(l) + Nodes(t) + SideNodes(r);
    var linked := RepLeft(dummy, l) && Rep(n, t) && RepRight(dummy, r);
    apart && linked
  }

  /** What the child links of a node say about its subtrees. */
  lemma Links(n: Node, t: Shape)
    requires Proper(t) && Rep(n, t) && t.Bin?
    ensures n.sym == t.entry.sym
    ensures if n.left == null then t.left.Leaf? else t.left.Bin? && n.left.sym == t.left.entry.sym
    ensures if n.right == null then t.right.Leaf? else t.right.Bin? && n.right.sym == t.right.entry.sym
  {
  }
}
