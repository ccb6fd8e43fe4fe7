/**
 The symbol table as it runs: nodes linked in place, and a splay that takes the
 tree apart and puts it together again around a dummy node.
 */
module SymbolTable {
  import opened Wrappers
  import opened Words
  import opened SplayTree
  import opened SplayLaws
  import opened SymbolNodes

  /** Rotating the left child of the middle root up. */
  method RotateRightAt(dummy: Node, n: Node, ghost l: Side, ghost t: Shape, ghost r: Side) returns (y: Node)
    requires TakenApart(dummy, l, n, t, r) && t.Bin? && t.left.Bin?
    modifies Nodes(t)
    ensures TakenApart(dummy, l, y, RotateRight(t), r)
    ensures Nodes(RotateRight(t)) == Nodes(t)
  {
    assert Rep(n.left, t.left) && Proper(t.left);
    y := n.left;
    n.left := y.right;
    y.right := n;
    assert Proper(RotateRight(t)) && Rep(y, RotateRight(t));
  }

  method RotateLeftAt(dummy: Node, n: Node, ghost l: Side, ghost t: Shape, ghost r: Side) returns (y: Node)
    requires TakenApart(dummy, l, n, t, r) && t.Bin? && t.right.Bin?
    modifies Nodes(t)
    ensures TakenApart(dummy, l, y, RotateLeft(t), r)
    ensures Nodes(RotateLeft(t)) == Nodes(t)
  {
    assert Rep(n.right, t.right) && Proper(t.right);
    y := n.right;
    n.right := y.left;
    y.left := n;
    assert Proper(RotateLeft(t)) && Rep(y, RotateLeft(t));
  }

  /** The middle root and its right subtree go to the right tree. */
  method LinkRight(dummy: Node, hole: Node, n: Node, ghost l: Side, ghost t: Shape, ghost r: Side)
    requires TakenApart(dummy, l, n, t, r) && t.Bin? && hole == Innermost(dummy, r)
    modifies hole`left
    ensures TakenApart(dummy, l, n.left, t.left, Snoc(r, t.entry, t.right))
  {
    assert hole !in SideNodes(l) && hole !in Nodes(t);
    hole.left := n;
  }

  method LinkLeft(dummy: Node, hole: Node, n: Node, ghost l: Side, ghost t: Shape, ghost r: Side)
    requires TakenApart(dummy, l, n, t, r) && t.Bin? && hole == Innermost(dummy, l)
    modifies hole`right
    ensures TakenApart(dummy, Snoc(l, t.entry, t.left), n.right, t.right, r)
  {
    assert hole !in SideNodes(r) && hole !in Nodes(t);
    hole.right := n;
  }

  /** The left subtree of the middle root fills the hole of the left tree. */
  method FillLeftHole(dummy: Node, hole: Node, n: Node, ghost l: Side, ghost t: Shape, ghost r: Side)
    requires TakenApart(dummy, l, n, t, r) && t.Bin? && hole == Innermost(dummy, l)
    modifies hole`right
    ensures TakenApart(dummy, l, n, t, r) && hole.right == n.left && unchanged(n)
  {
    assert hole !in SideNodes(r) && hole !in Nodes(t);
    hole.right := n.left;
  }

  method FillRightHole(dummy: Node, hole: Node, n: Node, ghost l: Side, ghost t: Shape, ghost r: Side)
    requires TakenApart(dummy, l, n, t, r) && t.Bin? && hole == Innermost(dummy, r)
    modifies hole`left
    ensures TakenApart(dummy, l, n, t, r) && hole.left == n.right && unchanged(n)
  {
    assert hole !in SideNodes(l) && hole !in Nodes(t);
    hole.left := n.right;
  }

  /** The four assignments that put the three trees together below the middle root. */
  method Reassemble(dummy: Node, leftHole: Node, rightHole: Node, n: Node, ghost l: Side, ghost t: Shape, ghost r: Side)
    requires TakenApart(dummy, l, n, t, r) && t.Bin?
    requires leftHole == Innermost(dummy, l) && rightHole == Innermost(dummy, r)
    modifies leftHole`right, rightHole`left, n
    ensures Proper(Assemble(l, t, r)) && Rep(n, Assemble(l, t, r))
    ensures Nodes(Assemble(l, t, r)) == SideNodes(l) + Nodes(t) + SideNodes(r)
  {
    FillLeftHole(dummy, leftHole, n, l, t, r);
    FillRightHole(dummy, rightHole, n, l, t, r);
    AssembleRep(dummy, n, l, t, r);
    Hang(n, dummy, Assemble(l, t, r));
  }

  /** Once both holes are filled, the trees at the dummy node are the sides of the result. */
  lemma AssembleRep(dummy: Node, n: Node, l: Side, t: Shape, r: Side)
    requires TakenApart(dummy, l, n, t, r) && t.Bin?
    requires Innermost(dummy, l).right == n.left && Innermost(dummy, r).left == n.right
    ensures var all := Assemble(l, t, r);
            && Proper(all) && Rep(dummy.right, all.left) && Rep(dummy.left, all.right)
            && Nodes(all) == SideNodes(l) + Nodes(t) + SideNodes(r)
  {
    PlugLeftRep(dummy, l, n.left, t.left);
    PlugRightRep(dummy, r, n.right, t.right);
  }

  /** The middle root takes over the trees that hang off the dummy node. */
  method Hang(n: Node, dummy: Node, ghost t: Shape)
    requires t.Bin? && Proper(t) && t.entry.item == n && n != dummy
    requires Rep(dummy.right, t.left) && Rep(dummy.left, t.right)
    modifies n
    ensures Rep(n, t)
  {
    n.left := dummy.right;
    n.right := dummy.left;
  }

  /** The tree after the rotation that a round of the splay to the left begins with. */
  function TurnedLeft<T>(k: Key, t: Tree<T>): (y: Tree<T>)
    requires t.Bin? && Less(k, t.Key())
    ensures y.Bin? && Less(k, y.Key()) && y.left < t
  {
    if t.left.Bin? && Less(k, t.left.Key()) then RotateRight(t) else t
  }

  function TurnedRight<T>(k: Key, t: Tree<T>): (y: Tree<T>)
    requires t.Bin? && Less(t.Key(), k)
    ensures y.Bin? && Less(y.Key(), k) && y.right < t
  {
    if t.right.Bin? && Less(t.right.Key(), k) then RotateLeft(t) else t
  }

  lemma RoundLeft<T>(k: Key, l: Spine<T>, t: Tree<T>, r: Spine<T>)
    requires t.Bin? && Less(k, t.Key())
    ensures var y := TurnedLeft(k, t);
            SplayLoop(k, l, t, r) == if y.left.Leaf? then Splayed(false, Assemble(l, y, r))
                                     else SplayLoop(k, l, y.left, Snoc(r, y.entry, y.right))
  {
  }

  lemma RoundRight<T>(k: Key, l: Spine<T>, t: Tree<T>, r: Spine<T>)
    requires t.Bin? && Less(t.Key(), k)
    ensures var y := TurnedRight(k, t);
            SplayLoop(k, l, t, r) == if y.right.Leaf? then Splayed(false, Assemble(l, y, r))
                                     else SplayLoop(k, Snoc(l, y.entry, y.left), y.right, r)
  {
  }

  /** Rotates when the key is two steps down. */
  method TurnLeft(k: Key, dummy: Node, n: Node, ghost l: Side, ghost t: Shape, ghost r: Side) returns (y: Node)
    requires TakenApart(dummy, l, n, t, r) && t.Bin? && Less(k, t.Key())
    modifies Nodes(t)
    ensures TakenApart(dummy, l, y, TurnedLeft(k, t), r)
    ensures Nodes(TurnedLeft(k, t)) == Nodes(t)
    ensures y.left == null <==> TurnedLeft(k, t).left.Leaf?
  {
    Links(n, t);
    y := n;
    if n.left != null && Less(k, n.left.sym.key) {
      y := RotateRightAt(dummy, n, l, t, r);
    }
    Links(y, TurnedLeft(k, t));
  }

  method TurnRight(k: Key, dummy: Node, n: Node, ghost l: Side, ghost t: Shape, ghost r: Side) returns (y: Node)
    requires TakenApart(dummy, l, n, t, r) && t.Bin? && Less(t.Key(), k)
    modifies Nodes(t)
    ensures TakenApart(dummy, l, y, TurnedRight(k, t), r)
    ensures Nodes(TurnedRight(k, t)) == Nodes(t)
    ensures y.right == null <==> TurnedRight(k, t).right.Leaf?
  {
    Links(n, t);
    y := n;
    if n.right != null && Less(n.right.sym.key, k) {
      y := RotateLeftAt(dummy, n, l, t, r);
    }
    Links(y, TurnedRight(k, t));
  }

  /** One round of the splay to the left: rotate when the key is two steps down,
      then link right; stop when there is no way further. */
  method GoLeft(k: Key, dummy: Node, n0: Node, r0: Node, ghost l: Side, ghost t0: Shape, ghost right0: Side)
    returns (stop: bool, n: Node, r: Node, ghost t: Shape, ghost right: Side)
    requires TakenApart(dummy, l, n0, t0, right0) && t0.Bin? && r0 == Innermost(dummy, right0)
    requires Less(k, t0.Key())
    modifies dummy, SideNodes(right0), Nodes(t0)
    ensures TakenApart(dummy, l, n, t, right) && t.Bin? && r == Innermost(dummy, right)
    ensures SideNodes(l) + Nodes(t) + SideNodes(right) == SideNodes(l) + Nodes(t0) + SideNodes(right0)
    ensures if stop then SplayLoop(k, l, t0, right0) == Splayed(false, Assemble(l, t, right)) && Less(k, t.Key())
            else SplayLoop(k, l, t0, right0) == SplayLoop(k, l, t, right) && t < t0
    ensures unchanged(dummy`right)
  {
    RoundLeft(k, l, t0, right0);
    n := TurnLeft(k, dummy, n0, l, t0, right0);
    r, t, right := r0, TurnedLeft(k, t0), right0;
    stop := n.left == null;
    if !stop {
      LinkRight(dummy, r, n, l, t, right);
      r, n := n, n.left;
      t, right := t.left, Snoc(right, t.entry, t.right);
    }
  }

  /** The mirror image. */
  method GoRight(k: Key, dummy: Node, n0: Node, l0: Node, ghost left0: Side, ghost t0: Shape, ghost r: Side)
    returns (stop: bool, n: Node, l: Node, ghost t: Shape, ghost left: Side)
    requires TakenApart(dummy, left0, n0, t0, r) && t0.Bin? && l0 == Innermost(dummy, left0)
    requires Less(t0.Key(), k)
    modifies dummy, SideNodes(left0), Nodes(t0)
    ensures TakenApart(dummy, left, n, t, r) && t.Bin? && l == Innermost(dummy, left)
    ensures SideNodes(left) + Nodes(t) + SideNodes(r) == SideNodes(left0) + Nodes(t0) + SideNodes(r)
    ensures if stop then SplayLoop(k, left0, t0, r) == Splayed(false, Assemble(left, t, r)) && Less(t.Key(), k)
            else SplayLoop(k, left0, t0, r) == SplayLoop(k, left, t, r) && t < t0
    ensures unchanged(dummy`left)
  {
    RoundRight(k, left0, t0, r);
    n := TurnRight(k, dummy, n0, left0, t0, r);
    l, t, left := l0, TurnedRight(k, t0), left0;
    stop := n.right == null;
    if !stop {
      LinkLeft(dummy, l, n, left, t, r);
      l, n := n, n.right;
      t, left := t.right, Snoc(left, t.entry, t.left);
    }
  }

  /** The splay: the root pointer to start from comes in, the one to store goes out. */
  method SplayAt(k: Key, n0: Node?, ghost t0: Shape) returns (found: Node?, root: Node?)
    requires Proper(t0) && Rep(n0, t0)
    modifies Nodes(t0)
    ensures var s := Splay(k, t0);
            && Proper(s.tree) && Rep(root, s.tree) && Nodes(s.tree) == Nodes(t0)
            && found == if s.found then root else null
  {
    root := n0;
    if root == null {
      return null, null;
    }
    if root.sym.key == k {
      return root, root;
    }
    ghost var nodes := Nodes(t0);
    NodesAllocated(t0);
    var dummy := new Node(Symbol(k, ""));
    assert dummy !in nodes;
    var l, r, n: Node := dummy, dummy, root;
    ghost var left, t, right := Base, t0, Base;
    ghost var goal := Splay(k, t0);
    found := null;
    while true
      invariant fresh(dummy) && TakenApart(dummy, left, n, t, right) && t.Bin?
      invariant l == Innermost(dummy, left) && r == Innermost(dummy, right)
      invariant SideNodes(left) + Nodes(t) + SideNodes(right) == nodes
      invariant SplayLoop(k, left, t, right) == goal
      invariant found == null && root == n0
      decreases t
    {
      var stop;
      if Less(k, n.sym.key) {
        stop, n, r, t, right := GoLeft(k, dummy, n, r, left, t, right);
        if stop { break; }
      } else if Less(n.sym.key, k) {
        stop, n, l, t, left := GoRight(k, dummy, n, l, left, t, right);
        if stop { break; }
      } else {
        found := n;
        break;
      }
    }
    assert goal == Splayed(found != null, Assemble(left, t, right));
    Reassemble(dummy, l, r, n, left, t, right);
    assert Nodes(goal.tree) == nodes;
    root := n;
  }

  /** symbols_getaddr_subtree: the left subtree first, then the node, then the right. */
  function GetAddressAt(name: string, n: Node?, ghost t: Shape): (addr: word)
    requires Proper(t) && Rep(n, t)
    reads Nodes(t)
    ensures addr == GetAddress(name, t)
    decreases t
  {
    if n == null then 0
    else
      var addr := GetAddressAt(name, n.left, t.left);
      if addr != 0 then addr
      else if name == n.sym.name then n.sym.key.addr
      else GetAddressAt(name, n.right, t.right)
  }

  function Items(t: Shape): (r: seq<Node>) {
    match t
    case Leaf => []
    case Bin(l, e, r) => Items(l) + [e.item] + Items(r)
  }

  function RemovalOrder(t: Shape): (r: seq<Node>) {
    match t
    case Leaf => []
    case Bin(l, e, r) => RemovalOrder(r) + RemovalOrder(l) + [e.item]
  }

  lemma {:induction false} FreesEachOnce(t: Shape)
    ensures multiset(RemovalOrder(t)) == multiset(Items(t))
    decreases t
  {
    match t
    case Leaf =>
    case Bin(l, e, r) =>
      FreesEachOnce(l);
      FreesEachOnce(r);
  }

  class Symbols {
    var root: Node?
    ghost var shape: Shape

    ghost predicate Valid()
      reads this, Nodes(shape)
    {
      Proper(shape) && Rep(root, shape) && Sorted(Inorder(shape))
    }

    constructor ()
      ensures Valid() && shape == Leaf
    {
      root, shape := null, Leaf;
    }

    /** symbols_add: one entry more, at one place of the ascending sequence. */
    method Add(key: Key, name: string) returns (ghost i: nat, ghost e: Entry<Node>)
      requires Valid()
      modifies this, Nodes(shape)
      ensures Valid()
      ensures e.sym == Symbol(key, name) && fresh(e.item) && i <= |old(Inorder(shape))|
      ensures Inorder(shape) == old(Inorder(shape))[..i] + [e] + old(Inorder(shape))[i..]
      ensures Nodes(shape) == old(Nodes(shape)) + {e.item}
    {
      ghost var before := shape;
      var found, top := SplayAt(key, root, shape);
      ghost var splayed := Splay(key, shape).tree;
      NodesAllocated(splayed);
      ghost var nodes := Nodes(splayed);
      var sym := new Node(Symbol(key, name));
      assert sym !in nodes;
      e := Entry(Symbol(key, name), sym);
      PutOnTop(sym, top, splayed);
      root, shape := sym, SplitAt(splayed, e);
      i := AddInserts(before, e);
    }

    /** symbols_get: the name of some symbol with the key, if there is one. */
    method Get(key: Key) returns (name: Option<string>)
      requires Valid()
      modifies this, Nodes(shape)
      ensures Valid() && Inorder(shape) == old(Inorder(shape))
      ensures name.Some? <==> Present(Inorder(shape), key)
      ensures name.Some? ==> exists i :: 0 <= i < |Inorder(shape)| && Inorder(shape)[i].sym == Symbol(key, name.value)
    {
      SplayInorder(key, shape);
      SplaySearch(key, shape);
      var found;
      found, root := SplayAt(key, root, shape);
      shape := Splay(key, shape).tree;
      if found == null {
        return None;
      }
      assert Inorder(shape)[|Inorder(shape.left)|] == shape.entry;
      return Some(found.sym.name);
    }

    /** symbols_getaddr. */
    method GetAddress(name: string) returns (addr: word)
      requires Valid()
      ensures addr == SplayTree.GetAddress(name, shape)
      ensures !Named(Inorder(shape), name, true) ==> addr == FirstAddress(Inorder(shape), name)
    {
      addr := GetAddressAt(name, root, shape);
      if !Named(Inorder(shape), name, true) {
        GetAddressIsFirst(name, shape);
      }
    }

    /** symbols_remove: with the key absent nothing changes; with at most two
        entries of the key exactly one of them goes. */
    method Remove(key: Key) returns (removed: bool)
      requires Valid()
      modifies this, Nodes(shape)
      ensures Valid() && Nodes(shape) <= old(Nodes(shape))
      ensures shape == SplayTree.Remove(old(shape), key)
      ensures removed <==> Present(old(Inorder(shape)), key)
      ensures !removed ==> Inorder(shape) == old(Inorder(shape))
      ensures removed && AtMostTwo(old(Inorder(shape)), key) ==>
                DropsOne(old(Inorder(shape)), Inorder(shape), key)
    {
      ghost var before := shape;
      SplayInorder(key, shape);
      SplaySearch(key, shape);
      RemoveKeepsSorted(shape, key);
      var sym;
      sym, root := SplayAt(key, root, shape);
      shape := Splay(key, shape).tree;
      removed := sym != null;
      if removed {
        root := JoinWithout(key, sym, shape);
        shape := SplayTree.Remove(before, key);
        if AtMostTwo(Inorder(before), key) {
          RemoveDropsOne(before, key);
        }
      }
    }

    /** symbols_iterate: visits every node in ascending order and leaves the root
        where it was, although it moves it on the way. */
    method Iterate() returns (visited: seq<Node>)
      requires Valid()
      modifies this`root
      ensures Valid() && root == old(root)
      ensures visited == Items(shape)
    {
      visited := IterateFrom(shape);
    }

    method IterateFrom(ghost t: Shape) returns (visited: seq<Node>)
      requires Proper(t) && Rep(root, t)
      modifies this`root
      ensures root == old(root) && Rep(root, t)
      ensures visited == Items(t)
      decreases t
    {
      var sym := root;
      visited := [];
      if sym != null {
        NodesAllocated(t);
        root := sym.left;
        assert Rep(sym, t);
        var smaller := IterateFrom(t.left);
        assert Rep(sym, t);
        root := sym.right;
        var larger := IterateFrom(t.right);
        visited := smaller + [sym] + larger;
        root := sym;
      }
    }

    /** symbols_removeall: empties the table and frees every node exactly once. */
    method RemoveAll() returns (freed: seq<Node>)
      requires Valid()
      modifies this
      ensures Valid() && shape == Leaf
      ensures multiset(freed) == multiset(Items(old(shape)))
    {
      FreesEachOnce(shape);
      freed := RemoveFrom(shape);
      shape := Leaf;
    }

    method RemoveFrom(ghost t: Shape) returns (freed: seq<Node>)
      requires Proper(t) && Rep(root, t)
      modifies this`root
      ensures root == null && freed == RemovalOrder(t)
      decreases t
    {
      var sym := root;
      freed := [];
      if sym != null {
        NodesAllocated(t);
        root := sym.right;
        assert Rep(sym, t);
        var right := RemoveFrom(t.right);
        assert Rep(sym, t);
        root := sym.left;
        var left := RemoveFrom(t.left);
        freed := right + left + [sym];
        root := null;
      }
    }
  }

  /** What a removal leaves of the splayed tree whose root `sym` goes. */
  method JoinWithout(key: Key, sym: Node, ghost t: Shape) returns (root: Node?)
    requires Proper(t) && Rep(sym, t) && t.Bin?
    modifies Nodes(t)
    ensures var t' := Join(t, key); Proper(t') && Rep(root, t') && Nodes(t') <= Nodes(t)
  {
    if sym.left == null {
      root := sym.right;
    } else {
      NodesAllocated(t);
      var right := sym.right;
      ghost var l := Splay(key, t.left).tree;
      var found;
      found, root := SplayAt(key, sym.left, t.left);
      sym.left := root;
      assert Rep(sym.right, t.right) && Rep(root, l);
      root.right := sym.right;
    }
  }

  /** Visiting the nodes in that order visits their symbols in ascending order. */
  lemma {:induction false} ItemsAscend(t: Shape)
    requires Proper(t) && Sorted(Inorder(t))
    ensures forall i, j :: 0 <= i < j < |Items(t)| ==> !Less(Items(t)[j].sym.key, Items(t)[i].sym.key)
  {
    ItemsAreEntries(t);
  }

  lemma {:induction false} ItemsAreEntries(t: Shape)
    requires Proper(t)
    ensures |Items(t)| == |Inorder(t)|
    ensures forall i :: 0 <= i < |Items(t)| ==> Items(t)[i].sym == Inorder(t)[i].sym
    decreases t
  {
    match t
    case Leaf =>
    case Bin(l, e, r) =>
      ItemsAreEntries(l);
      ItemsAreEntries(r);
  }

  /** The split of the tree at its root, in place. */
  method PutOnTop(sym: Node, top: Node?, ghost t: Shape)
    requires Proper(t) && Rep(top, t) && sym !in Nodes(t) && sym.left == sym.right == null
    modifies sym, Nodes(t)
    ensures var t' := SplitAt(t, Entry(sym.sym, sym));
            Proper(t') && Rep(sym, t') && Nodes(t') == Nodes(t) + {sym}
  {
    if top == null {
    } else if Less(sym.sym.key, top.sym.key) || sym.sym.key == top.sym.key {
      sym.left := top.left;
      sym.right := top;
      top.left := null;
    } else {
      sym.right := top.right;
      sym.left := top;
      top.right := null;
    }
  }
}
