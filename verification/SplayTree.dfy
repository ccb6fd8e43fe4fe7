/**
 The symbol tree as a value, and the top-down splay as a function that carries
 the two side trees it has taken apart as spines.
 */
module SplayTree {
  import opened Words

  type int16 = x: int | -0x8000 <= x < 0x8000

  datatype Key = Key(addr: word, kind: int16)

  /** Keys are ordered by address, then by type. */
  predicate Less(a: Key, b: Key) {
    a.addr < b.addr || (a.addr == b.addr && a.kind < b.kind)
  }

  datatype Symbol = Symbol(key: Key, name: string)

  /** A symbol together with the record that holds it. */
  datatype Entry<T> = Entry(sym: Symbol, item: T)

  datatype Tree<T> = Leaf | Bin(left: Tree<T>, entry: Entry<T>, right: Tree<T>) {
    function Key(): (r: Key) requires Bin? { entry.sym.key }
  }

  function Inorder<T>(t: Tree<T>): (r: seq<Entry<T>>) {
    match t
    case Leaf => []
    case Bin(l, e, r) => Inorder(l) + [e] + Inorder(r)
  }

  /** A side tree under construction, outermost node first: every node has one
      finished subtree, and the innermost one a hole for what is still to come. */
  datatype Spine<T> = Base | Snoc(outer: Spine<T>, entry: Entry<T>, sub: Tree<T>)

  /** The left tree with `t` in its hole: holes are right children. */
  function PlugLeft<T>(l: Spine<T>, t: Tree<T>): (r: Tree<T>) {
    match l
    case Base => t
    case Snoc(outer, e, sub) => PlugLeft(outer, Bin(sub, e, t))
  }

  /** The right tree with `t` in its hole: holes are left children. */
  function PlugRight<T>(r: Spine<T>, t: Tree<T>): (s: Tree<T>) {
    match r
    case Base => t
    case Snoc(outer, e, sub) => PlugRight(outer, Bin(t, e, sub))
  }

  datatype Splayed<T> = Splayed(found: bool, tree: Tree<T>)

  function Assemble<T>(l: Spine<T>, t: Tree<T>, r: Spine<T>): (s: Tree<T>)
    requires t.Bin?
  {
    Bin(PlugLeft(l, t.left), t.entry, PlugRight(r, t.right))
  }

  function RotateRight<T>(t: Tree<T>): (r: Tree<T>)
    requires t.Bin? && t.left.Bin?
  {
    Bin(t.left.left, t.left.entry, Bin(t.left.right, t.entry, t.right))
  }

  function RotateLeft<T>(t: Tree<T>): (r: Tree<T>)
    requires t.Bin? && t.right.Bin?
  {
    Bin(Bin(t.left, t.entry, t.right.left), t.right.entry, t.right.right)
  }

  /** The splay loop: left tree, middle tree, right tree. */
  function SplayLoop<T>(k: Key, l: Spine<T>, t: Tree<T>, r: Spine<T>): (s: Splayed<T>)
    requires t.Bin?
    ensures s.tree.Bin?
    decreases t
  {
    if Less(k, t.Key()) then
      if t.left.Leaf? then
        Splayed(false, Assemble(l, t, r))
      else if Less(k, t.left.Key()) then
        var y := RotateRight(t);
        if y.left.Leaf? then
          Splayed(false, Assemble(l, y, r))
        else
          SplayLoop(k, l, y.left, Snoc(r, y.entry, y.right))
      else
        SplayLoop(k, l, t.left, Snoc(r, t.entry, t.right))
    else if Less(t.Key(), k) then
      if t.right.Leaf? then
        Splayed(false, Assemble(l, t, r))
      else if Less(t.right.Key(), k) then
        var y := RotateLeft(t);
        if y.right.Leaf? then
          Splayed(false, Assemble(l, y, r))
        else
          SplayLoop(k, Snoc(l, y.entry, y.left), y.right, r)
      else
        SplayLoop(k, Snoc(l, t.entry, t.left), t.right, r)
    else
      Splayed(true, Assemble(l, t, r))
  }

  function Splay<T>(k: Key, t: Tree<T>): (s: Splayed<T>)
    ensures s.tree.Leaf? <==> t.Leaf?
    ensures s.found ==> t.Bin?
  {
    if t.Leaf? then Splayed(false, t)
    else if t.Key() == k then Splayed(true, t)
    else SplayLoop(k, Base, t, Base)
  }

  /** The new entry at the root, the old root on its side of it. */
  function SplitAt<T>(s: Tree<T>, e: Entry<T>): (r: Tree<T>) {
    if s.Leaf? then
      Bin(Leaf, e, Leaf)
    else if Less(e.sym.key, s.Key()) || e.sym.key == s.Key() then
      Bin(s.left, e, Bin(Leaf, s.entry, s.right))
    else
      Bin(Bin(s.left, s.entry, Leaf), e, s.right)
  }

  /** Insertion: splay, then split the tree at the root. */
  function Add<T>(t: Tree<T>, e: Entry<T>): (r: Tree<T>) {
    SplitAt(Splay(e.sym.key, t).tree, e)
  }

  /** A splayed tree without its root: what comes up when the key is splayed again
      in the left subtree takes the right subtree below it. */
  function Join<T>(s: Tree<T>, k: Key): (r: Tree<T>)
    requires s.Bin?
  {
    if s.left.Leaf? then s.right
    else
      var l := Splay(k, s.left).tree;
      Bin(l.left, l.entry, s.right)
  }

  /** Deletion: splay the key up, and join its subtrees if it was found. */
  function Remove<T>(t: Tree<T>, k: Key): (r: Tree<T>) {
    var s := Splay(k, t);
    if s.found then Join(s.tree, k) else s.tree
  }

  /** The address of a name: the left subtree first, where 0 means not found. */
  function GetAddress<T>(name: string, t: Tree<T>): (r: word) {
    match t
    case Leaf => 0
    case Bin(l, e, r) =>
      var addr := GetAddress(name, l);
      if addr != 0 then addr
      else if e.sym.name == name then e.sym.key.addr
      else GetAddress(name, r)
  }
}
