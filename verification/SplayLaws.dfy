/** Splaying, inserting and deleting, seen on the in-order sequence of the tree. */
module SplayLaws {
  import opened Words
  import opened SplayTree

  // ------------------------------------------------------- sorted sequences

  ghost predicate Sorted<T>(s: seq<Entry<T>>) {
    forall i, j :: 0 <= i < j < |s| ==> !Less(s[j].sym.key, s[i].sym.key)
  }

  ghost predicate AllBelow<T>(s: seq<Entry<T>>, k: Key) {
    forall i :: 0 <= i < |s| ==> Less(s[i].sym.key, k)
  }

  ghost predicate AllAbove<T>(s: seq<Entry<T>>, k: Key) {
    forall i :: 0 <= i < |s| ==> Less(k, s[i].sym.key)
  }

  ghost predicate Present<T>(s: seq<Entry<T>>, k: Key) {
    exists i :: 0 <= i < |s| && s[i].sym.key == k
  }

  lemma SortedParts<T>(a: seq<Entry<T>>, b: seq<Entry<T>>)
    requires Sorted(a + b)
    ensures Sorted(a) && Sorted(b)
    ensures forall i, j :: 0 <= i < |a| && 0 <= j < |b| ==> !Less(b[j].sym.key, a[i].sym.key)
  {
    var s := a + b;
    assert forall i :: 0 <= i < |a| ==> s[i] == a[i];
    assert forall j :: 0 <= j < |b| ==> s[|a| + j] == b[j];
  }

  /** Everything left of a node is at most its key, everything right at least. */
  lemma SortedNode<T>(t: Tree<T>)
    requires t.Bin? && Sorted(Inorder(t))
    ensures Sorted(Inorder(t.left)) && Sorted(Inorder(t.right))
    ensures forall i :: 0 <= i < |Inorder(t.left)| ==> !Less(t.Key(), Inorder(t.left)[i].sym.key)
    ensures forall i :: 0 <= i < |Inorder(t.right)| ==> !Less(Inorder(t.right)[i].sym.key, t.Key())
  {
    var a, b := Inorder(t.left), Inorder(t.right);
    SortedParts(a + [t.entry], b);
    SortedParts(a, [t.entry]);
    assert (a + [t.entry])[|a|] == t.entry;
    assert [t.entry][0] == t.entry;
  }

  // --------------------------------------------------- the in-order sequence

  function InorderLeft<T>(l: Spine<T>): (r: seq<Entry<T>>) {
    match l
    case Base => []
    case Snoc(outer, e, sub) => InorderLeft(outer) + Inorder(sub) + [e]
  }

  function InorderRight<T>(r: Spine<T>): (s: seq<Entry<T>>) {
    match r
    case Base => []
    case Snoc(outer, e, sub) => [e] + Inorder(sub) + InorderRight(outer)
  }

  lemma {:induction false} PlugLeftInorder<T>(l: Spine<T>, t: Tree<T>)
    ensures Inorder(PlugLeft(l, t)) == InorderLeft(l) + Inorder(t)
    decreases l
  {
    match l
    case Base =>
    case Snoc(outer, e, sub) => PlugLeftInorder(outer, Bin(sub, e, t));
  }

  lemma {:induction false} PlugRightInorder<T>(r: Spine<T>, t: Tree<T>)
    ensures Inorder(PlugRight(r, t)) == Inorder(t) + InorderRight(r)
    decreases r
  {
    match r
    case Base =>
    case Snoc(outer, e, sub) => PlugRightInorder(outer, Bin(t, e, sub));
  }

  lemma AssembleInorder<T>(l: Spine<T>, t: Tree<T>, r: Spine<T>)
    requires t.Bin?
    ensures Inorder(Assemble(l, t, r)) == InorderLeft(l) + Inorder(t) + InorderRight(r)
  {
    PlugLeftInorder(l, t.left);
    PlugRightInorder(r, t.right);
  }

  lemma RotateInorder<T>(t: Tree<T>)
    requires t.Bin?
    ensures t.left.Bin? ==> Inorder(RotateRight(t)) == Inorder(t)
    ensures t.right.Bin? ==> Inorder(RotateLeft(t)) == Inorder(t)
  {
    if t.left.Bin? {
      Regroup(Inorder(t.left.left), t.left.entry, Inorder(t.left.right), t.entry, Inorder(t.right));
    }
    if t.right.Bin? {
      Regroup(Inorder(t.left), t.entry, Inorder(t.right.left), t.right.entry, Inorder(t.right.right));
    }
  }

  lemma Regroup<T>(a: seq<T>, x: T, b: seq<T>, y: T, c: seq<T>)
    ensures (a + [x] + b) + [y] + c == a + [x] + (b + [y] + c)
  {
  }

  lemma LinkRightInorder<T>(l: Spine<T>, t: Tree<T>, r: Spine<T>)
    requires t.Bin?
    ensures InorderLeft(l) + Inorder(t.left) + InorderRight(Snoc(r, t.entry, t.right))
         == InorderLeft(l) + Inorder(t) + InorderRight(r)
  {
  }

  lemma LinkLeftInorder<T>(l: Spine<T>, t: Tree<T>, r: Spine<T>)
    requires t.Bin?
    ensures InorderLeft(Snoc(l, t.entry, t.left)) + Inorder(t.right) + InorderRight(r)
         == InorderLeft(l) + Inorder(t) + InorderRight(r)
  {
  }

  lemma {:induction false} SplayLoopInorder<T>(k: Key, l: Spine<T>, t: Tree<T>, r: Spine<T>)
    requires t.Bin?
    ensures Inorder(SplayLoop(k, l, t, r).tree) == InorderLeft(l) + Inorder(t) + InorderRight(r)
    decreases t
  {
    RotateInorder(t);
    AssembleInorder(l, t, r);
    if Less(k, t.Key()) && t.left.Bin? {
      var y := if Less(k, t.left.Key()) then RotateRight(t) else t;
      AssembleInorder(l, y, r);
      LinkRightInorder(l, y, r);
      if y.left.Bin? { SplayLoopInorder(k, l, y.left, Snoc(r, y.entry, y.right)); }
    } else if Less(t.Key(), k) && t.right.Bin? {
      var y := if Less(t.right.Key(), k) then RotateLeft(t) else t;
      AssembleInorder(l, y, r);
      LinkLeftInorder(l, y, r);
      if y.right.Bin? { SplayLoopInorder(k, Snoc(l, y.entry, y.left), y.right, r); }
    }
  }

  /** Splaying keeps the sequence of entries exactly, duplicates included. */
  lemma SplayInorder<T>(k: Key, t: Tree<T>)
    ensures Inorder(Splay(k, t).tree) == Inorder(t)
  {
    if t.Bin? && t.Key() != k {
      SplayLoopInorder(k, Base, t, Base);
    }
  }

  // ------------------------------------------------------------------ search

  /** What comes to the root: the key itself, or its neighbour on either side. */
  ghost predicate Nearest<T>(k: Key, s: Splayed<T>) {
    s.tree.Bin? ==>
      if s.found then s.tree.Key() == k
      else if Less(k, s.tree.Key()) then AllBelow(Inorder(s.tree.left), k)
      else Less(s.tree.Key(), k) && AllAbove(Inorder(s.tree.right), k)
  }

  /** If `k` is below the root, all from the root on is above it. */
  lemma AboveFromRoot<T>(t: Tree<T>, k: Key)
    requires t.Bin? && Sorted(Inorder(t)) && Less(k, t.Key())
    ensures AllAbove([t.entry] + Inorder(t.right), k)
    ensures Present(Inorder(t), k) <==> Present(Inorder(t.left), k)
  {
    SortedNode(t);
    PresentNode(t, k);
  }

  lemma BelowToRoot<T>(t: Tree<T>, k: Key)
    requires t.Bin? && Sorted(Inorder(t)) && Less(t.Key(), k)
    ensures AllBelow(Inorder(t.left) + [t.entry], k)
    ensures Present(Inorder(t), k) <==> Present(Inorder(t.right), k)
  {
    SortedNode(t);
    PresentNode(t, k);
  }

  lemma PresentConcat<T>(a: seq<Entry<T>>, b: seq<Entry<T>>, k: Key)
    ensures Present(a + b, k) <==> Present(a, k) || Present(b, k)
  {
    var s := a + b;
    assert forall i :: 0 <= i < |a| ==> s[i] == a[i];
    assert forall i :: 0 <= i < |b| ==> s[|a| + i] == b[i];
    if Present(b, k) {
      var i :| 0 <= i < |b| && b[i].sym.key == k;
      assert s[|a| + i].sym.key == k;
    }
  }

  lemma PresentNode<T>(t: Tree<T>, k: Key)
    requires t.Bin?
    ensures Present(Inorder(t), k) <==> Present(Inorder(t.left), k) || t.Key() == k || Present(Inorder(t.right), k)
  {
    PresentConcat(Inorder(t.left) + [t.entry], Inorder(t.right), k);
    PresentConcat(Inorder(t.left), [t.entry], k);
    assert [t.entry][0].sym.key == t.Key();
  }

  /** Linking a node above `k` right keeps the right tree above `k`. */
  lemma LinkRightAbove<T>(k: Key, t: Tree<T>, r: Spine<T>)
    requires t.Bin? && Sorted(Inorder(t)) && Less(k, t.Key()) && AllAbove(InorderRight(r), k)
    ensures AllAbove(InorderRight(Snoc(r, t.entry, t.right)), k)
  {
    AboveFromRoot(t, k);
    var a, b := [t.entry] + Inorder(t.right), InorderRight(r);
    assert InorderRight(Snoc(r, t.entry, t.right)) == a + b;
  }

  lemma LinkLeftBelow<T>(k: Key, t: Tree<T>, l: Spine<T>)
    requires t.Bin? && Sorted(Inorder(t)) && Less(t.Key(), k) && AllBelow(InorderLeft(l), k)
    ensures AllBelow(InorderLeft(Snoc(l, t.entry, t.left)), k)
  {
    BelowToRoot(t, k);
    var a, b := InorderLeft(l), Inorder(t.left) + [t.entry];
    assert InorderLeft(Snoc(l, t.entry, t.left)) == a + b;
  }

  /** Stopping above `k` with nothing further left: the root is its successor. */
  lemma StopAbove<T>(k: Key, l: Spine<T>, t: Tree<T>, r: Spine<T>)
    requires t.Bin? && Sorted(Inorder(t)) && Less(k, t.Key()) && t.left.Leaf? && AllBelow(InorderLeft(l), k)
    ensures Nearest(k, Splayed(false, Assemble(l, t, r))) && !Present(Inorder(t), k)
  {
    AboveFromRoot(t, k);
    PlugLeftInorder(l, t.left);
    assert InorderLeft(l) + [] == InorderLeft(l);
  }

  lemma StopBelow<T>(k: Key, l: Spine<T>, t: Tree<T>, r: Spine<T>)
    requires t.Bin? && Sorted(Inorder(t)) && Less(t.Key(), k) && t.right.Leaf? && AllAbove(InorderRight(r), k)
    ensures Nearest(k, Splayed(false, Assemble(l, t, r))) && !Present(Inorder(t), k)
  {
    BelowToRoot(t, k);
    PlugRightInorder(r, t.right);
    assert [] + InorderRight(r) == InorderRight(r);
  }

  lemma {:induction false} SplayLoopSearch<T>(k: Key, l: Spine<T>, t: Tree<T>, r: Spine<T>)
    requires t.Bin? && Sorted(Inorder(t))
    requires AllBelow(InorderLeft(l), k) && AllAbove(InorderRight(r), k)
    ensures var s := SplayLoop(k, l, t, r);
            Nearest(k, s) && (s.found <==> Present(Inorder(t), k))
    decreases t
  {
    RotateInorder(t);
    if Less(k, t.Key()) {
      var y := if t.left.Bin? && Less(k, t.left.Key()) then RotateRight(t) else t;
      AboveFromRoot(y, k);
      SortedNode(y);
      if y.left.Leaf? {
        StopAbove(k, l, y, r);
      } else {
        LinkRightAbove(k, y, r);
        SplayLoopSearch(k, l, y.left, Snoc(r, y.entry, y.right));
      }
    } else if Less(t.Key(), k) {
      var y := if t.right.Bin? && Less(t.right.Key(), k) then RotateLeft(t) else t;
      BelowToRoot(y, k);
      SortedNode(y);
      if y.right.Leaf? {
        StopBelow(k, l, y, r);
      } else {
        LinkLeftBelow(k, y, l);
        SplayLoopSearch(k, Snoc(l, y.entry, y.left), y.right, r);
      }
    } else {
      PresentNode(t, k);
    }
  }

  /** Splaying finds the key exactly when some entry has it, and brings it or a
      neighbour to the root. */
  lemma SplaySearch<T>(k: Key, t: Tree<T>)
    requires Sorted(Inorder(t))
    ensures var s := Splay(k, t);
            Nearest(k, s) && (s.found <==> Present(Inorder(t), k))
  {
    if t.Bin? {
      PresentNode(t, k);
      if t.Key() != k {
        SplayLoopSearch(k, Base, t, Base);
      }
    }
  }

  // --------------------------------------------------------------- insertion

  /** Insertion puts the new entry at one place of the sequence, keeps all
      others, and keeps the order. */
  lemma AddInserts<T>(t: Tree<T>, e: Entry<T>) returns (i: nat)
    requires Sorted(Inorder(t))
    ensures i <= |Inorder(t)|
    ensures Inorder(Add(t, e)) == Inorder(t)[..i] + [e] + Inorder(t)[i..]
    ensures Sorted(Inorder(Add(t, e)))
  {
    var k := e.sym.key;
    var s := Splay(k, t).tree;
    SplayInorder(k, t);
    SplaySearch(k, t);
    var all := Inorder(t);
    if s.Leaf? {
      i := 0;
      assert all == [] && all[..i] + [e] + all[i..] == [e];
      assert Inorder(Add(t, e)) == [e];
    } else {
      SortedNode(s);
      var before := Less(k, s.Key()) || k == s.Key();
      i := if before then |Inorder(s.left)| else |Inorder(s.left)| + 1;
      SplitInorder(s, e, i);
      assert all[|Inorder(s.left)|] == s.entry;
    }
    SortedInsert(all, i, e);
  }

  /** Splitting a tree at its root puts the new entry on the side of the root it
      belongs to. */
  lemma SplitInorder<T>(s: Tree<T>, e: Entry<T>, i: nat)
    requires s.Bin?
    requires var before := Less(e.sym.key, s.Key()) || e.sym.key == s.Key();
             i == |Inorder(s.left)| + if before then 0 else 1
    ensures i <= |Inorder(s)|
    ensures Inorder(SplitAt(s, e)) == Inorder(s)[..i] + [e] + Inorder(s)[i..]
  {
    var a, b := Inorder(s.left), Inorder(s.right);
    if i == |a| {
      assert Inorder(Bin(Leaf, s.entry, s.right)) == [s.entry] + b;
      CutBefore(a, s.entry, b);
    } else {
      assert Inorder(Bin(s.left, s.entry, Leaf)) == a + [s.entry];
      CutAfter(a, s.entry, b);
    }
  }

  lemma CutBefore<E>(a: seq<E>, x: E, b: seq<E>)
    ensures (a + [x] + b)[..|a|] == a && (a + [x] + b)[|a|..] == [x] + b
  {
  }

  lemma CutAfter<E>(a: seq<E>, x: E, b: seq<E>)
    ensures (a + [x] + b)[..|a| + 1] == a + [x] && (a + [x] + b)[|a| + 1..] == b
  {
  }

  lemma SortedInsert<T>(s: seq<Entry<T>>, i: nat, e: Entry<T>)
    requires i <= |s| && Sorted(s)
    requires forall j :: 0 <= j < i ==> !Less(e.sym.key, s[j].sym.key)
    requires forall j :: i <= j < |s| ==> !Less(s[j].sym.key, e.sym.key)
    ensures Sorted(s[..i] + [e] + s[i..])
  {
  }

  // ---------------------------------------------------------------- deletion

  ghost predicate DropsOne<T>(s: seq<Entry<T>>, s': seq<Entry<T>>, k: Key) {
    exists i :: 0 <= i < |s| && s[i].sym.key == k && s' == s[..i] + s[i + 1..]
  }

  /** No three entries share the key (in a sorted sequence they would be adjacent). */
  ghost predicate AtMostTwo<T>(s: seq<Entry<T>>, k: Key) {
    forall i :: 0 <= i && i + 2 < |s| && s[i].sym.key == k ==> s[i + 2].sym.key != k
  }

  lemma RemoveAbsent<T>(t: Tree<T>, k: Key)
    requires Sorted(Inorder(t)) && !Present(Inorder(t), k)
    ensures Inorder(Remove(t, k)) == Inorder(t)
  {
    SplayInorder(k, t);
    SplaySearch(k, t);
  }

  /** If the second splay leaves something right of what it brings up, the last
      two entries it worked on have the key. */
  lemma JoinLoss<T>(a: Tree<T>, k: Key)
    requires a.Bin? && Sorted(Inorder(a))
    requires forall i :: 0 <= i < |Inorder(a)| ==> !Less(k, Inorder(a)[i].sym.key)
    ensures var n := |Inorder(a)|;
            Inorder(Splay(k, a).tree.right) != [] ==>
              2 <= n && Inorder(a)[n - 2].sym.key == Inorder(a)[n - 1].sym.key == k
  {
    var l := Splay(k, a).tree;
    SplayInorder(k, a);
    SplaySearch(k, a);
    SortedNode(l);
    var b, c := Inorder(l.left), Inorder(l.right);
    assert Inorder(a) == b + [l.entry] + c;
    LastTwo(b, l.entry, c, k);
  }

  /** Entries after `x` in an ascending sequence that ends at the key `k`. */
  lemma LastTwo<T>(b: seq<Entry<T>>, x: Entry<T>, c: seq<Entry<T>>, k: Key)
    requires forall i :: 0 <= i < |b + [x] + c| ==> !Less(k, (b + [x] + c)[i].sym.key)
    requires forall i :: 0 <= i < |c| ==> !Less(c[i].sym.key, x.sym.key)
    requires x.sym.key == k || AllAbove(c, k)
    ensures var s := b + [x] + c;
            c != [] ==> 2 <= |s| && s[|s| - 2].sym.key == s[|s| - 1].sym.key == k
  {
    if c != [] {
      var s := b + [x] + c;
      assert forall i :: 0 <= i < |c| ==> s[|b| + 1 + i] == c[i];
      assert !Less(k, c[0].sym.key);
      assert s[|s| - 1] == c[|c| - 1];
      assert s[|s| - 2] == ([x] + c)[|c| - 1];
    }
  }

  /** In the left subtree of the found key the second splay loses nothing, unless
      three entries have the key. */
  lemma JoinLosesNothing<T>(a: Tree<T>, root: Entry<T>, b: seq<Entry<T>>)
    requires a.Bin?
    requires var s := Inorder(a) + [root] + b; Sorted(s) && AtMostTwo(s, root.sym.key)
    ensures Inorder(Splay(root.sym.key, a).tree.right) == []
  {
    var s := Inorder(a) + [root] + b;
    var n := |Inorder(a)|;
    SortedParts(Inorder(a) + [root], b);
    SortedParts(Inorder(a), [root]);
    assert [root][0] == root && s[n] == root;
    assert 2 <= n ==> s[n - 2] == Inorder(a)[n - 2];
    JoinLoss(a, root.sym.key);
  }

  /** The sequence a deletion leaves: both sides of the root that was found. */
  lemma RemoveJoins<T>(t: Tree<T>, k: Key)
    requires Splay(k, t).found && Splay(k, t).tree.Key() == k
    requires Sorted(Inorder(t)) && AtMostTwo(Inorder(t), k)
    ensures var s := Splay(k, t).tree;
            Inorder(Remove(t, k)) == Inorder(s.left) + Inorder(s.right)
  {
    SplayInorder(k, t);
    var s := Splay(k, t).tree;
    var b := Inorder(s.right);
    if s.left.Bin? {
      JoinLosesNothing(s.left, s.entry, b);
      SplayInorder(k, s.left);
      var l := Splay(k, s.left).tree;
      assert Inorder(l.left) + [l.entry] == Inorder(s.left);
    } else {
      assert [] + b == b;
    }
  }

  /** With at most two entries of that key, deletion takes out exactly one of
      them and nothing else. */
  lemma RemoveDropsOne<T>(t: Tree<T>, k: Key)
    requires Sorted(Inorder(t)) && Present(Inorder(t), k) && AtMostTwo(Inorder(t), k)
    ensures DropsOne(Inorder(t), Inorder(Remove(t, k)), k)
  {
    SplayInorder(k, t);
    SplaySearch(k, t);
    RemoveJoins(t, k);
    var s := Splay(k, t).tree;
    var a, b := Inorder(s.left), Inorder(s.right);
    var all := Inorder(t);
    assert all[..|a|] == a && all[|a| + 1..] == b && all[|a|] == s.entry;
  }

  /** Deletion keeps the order even where it loses more than it should. */
  lemma RemoveKeepsSorted<T>(t: Tree<T>, k: Key)
    requires Sorted(Inorder(t))
    ensures Sorted(Inorder(Remove(t, k)))
  {
    SplayInorder(k, t);
    var s := Splay(k, t).tree;
    if Splay(k, t).found {
      SortedNode(s);
      if s.left.Bin? {
        SplayInorder(k, s.left);
        var l := Splay(k, s.left).tree;
        SortedNode(l);
        var a, b := Inorder(l.left) + [l.entry], Inorder(s.right);
        SortedParts(a, Inorder(l.right));
        forall i, j | 0 <= i < |a| && 0 <= j < |b|
          ensures !Less(b[j].sym.key, a[i].sym.key)
        {
          assert a[i] == Inorder(l)[i];
        }
        SortedConcat(a, b);
      }
    }
  }

  lemma SortedConcat<T>(a: seq<Entry<T>>, b: seq<Entry<T>>)
    requires Sorted(a) && Sorted(b)
    requires forall i, j :: 0 <= i < |a| && 0 <= j < |b| ==> !Less(b[j].sym.key, a[i].sym.key)
    ensures Sorted(a + b)
  {
  }

  /** A right-leaning tree over a sequence. */
  function Vine<T>(s: seq<Entry<T>>): (r: Tree<T>) {
    if s == [] then Leaf else Bin(Leaf, s[0], Vine(s[1..]))
  }

  lemma {:induction false} VineInorder<T>(s: seq<Entry<T>>)
    ensures Inorder(Vine(s)) == s
  {
    if s != [] {
      VineInorder(s[1..]);
      assert [] + [s[0]] + s[1..] == s;
    }
  }

  /** Three entries of one key can be arranged so that deletion loses two. */
  lemma RemoveDropsTwo<T>(s: seq<Entry<T>>, k: Key, i: nat) returns (t: Tree<T>)
    requires i + 2 < |s| && s[i].sym.key == s[i + 2].sym.key == k
    ensures Inorder(t) == s && |Inorder(Remove(t, k))| == |s| - 2
  {
    var a, b := Vine(s[..i]), Vine(s[i + 3..]);
    var l := Bin(a, s[i], Bin(Leaf, s[i + 1], Leaf));
    t := Bin(l, s[i + 2], b);
    VineInorder(s[..i]);
    VineInorder(s[i + 3..]);
    assert Inorder(Bin(Leaf, s[i + 1], Leaf)) == [s[i + 1]];
    assert s[..i] + [s[i]] + [s[i + 1]] + [s[i + 2]] + s[i + 3..] == s;
    assert Remove(t, k) == Bin(a, s[i], b);
  }

  /** Such a tree comes about by the operations of the table: three additions of one key
      and one of a lower key, a lookup of a higher one, and then the removal. */
  lemma RemoveDropsTwoReachably()
    ensures var five := Entry(Symbol(Key(5, 0), "five"), 0);
            var one := Entry(Symbol(Key(1, 0), "one"), 0);
            var t := Splay(Key(9, 0), Add(Add(Add(Add(Leaf, five), five), five), one)).tree;
            && |Inorder(t)| == 4 && |Inorder(Remove(t, Key(5, 0)))| == 2
  {
    var five := Entry(Symbol(Key(5, 0), "five"), 0);
    var one := Entry(Symbol(Key(1, 0), "one"), 0);
    var three := Bin(Leaf, five, Bin(Leaf, five, Bin(Leaf, five, Leaf)));
    assert Add(Add(Add(Leaf, five), five), five) == three;
    var four := Bin(Leaf, one, three);
    assert Add(three, one) == four;
    var t := Splay(Key(9, 0), four).tree;
    assert |Inorder(t)| == 4 by {
      SplayInorder(Key(9, 0), four);
      assert Inorder(Bin(Leaf, five, Leaf)) == [five];
      assert Inorder(four) == [one, five, five, five];
    }
  }

  /** Deletion takes out exactly one entry whatever the shape of the tree, if and
      only if no three entries have the key. */
  lemma RemoveExactIff<T(!new)>(s: seq<Entry<T>>, k: Key)
    requires Sorted(s) && Present(s, k)
    ensures (forall t :: Inorder(t) == s ==> DropsOne(s, Inorder(Remove(t, k)), k)) <==> AtMostTwo(s, k)
  {
    if AtMostTwo(s, k) {
      forall t | Inorder(t) == s
        ensures DropsOne(s, Inorder(Remove(t, k)), k)
      {
        RemoveDropsOne(t, k);
      }
    } else {
      var i :| 0 <= i && i + 2 < |s| && s[i].sym.key == k && s[i + 2].sym.key == k;
      var t := RemoveDropsTwo(s, k, i);
    }
  }

  // ------------------------------------------------------------- name lookup

  /** Some entry named `name` sits at an address that `want` selects. */
  ghost predicate Named<T>(s: seq<Entry<T>>, name: string, zero: bool) {
    exists i :: 0 <= i < |s| && s[i].sym.name == name && (s[i].sym.key.addr == 0) == zero
  }

  /** The address of the first entry of that name, or 0. */
  function FirstAddress<T>(s: seq<Entry<T>>, name: string): (r: word) {
    if s == [] then 0
    else if s[0].sym.name == name then s[0].sym.key.addr
    else FirstAddress(s[1..], name)
  }

  /** The first in a sorted sequence has the lowest address. */
  lemma {:induction false} FirstIsLowest<T>(s: seq<Entry<T>>, name: string)
    requires Sorted(s)
    ensures forall i :: 0 <= i < |s| && s[i].sym.name == name ==> FirstAddress(s, name) <= s[i].sym.key.addr
    ensures FirstAddress(s, name) != 0 ==>
      exists i :: 0 <= i < |s| && s[i].sym.name == name && s[i].sym.key.addr == FirstAddress(s, name)
  {
    if s != [] && s[0].sym.name != name {
      assert forall i :: 0 <= i < |s| - 1 ==> s[1..][i] == s[i + 1];
      FirstIsLowest(s[1..], name);
      assert forall i :: 1 <= i < |s| ==> s[i] == s[1..][i - 1];
    }
  }

  lemma {:induction false} FirstAddressConcat<T>(a: seq<Entry<T>>, b: seq<Entry<T>>, name: string)
    requires !Named(a, name, true)
    ensures FirstAddress(a + b, name)
         == if FirstAddress(a, name) != 0 then FirstAddress(a, name) else FirstAddress(b, name)
  {
    if a == [] {
      assert a + b == b;
    } else {
      assert (a + b)[1..] == a[1..] + b;
      if a[0].sym.name != name {
        assert forall i :: 0 <= i < |a| - 1 ==> a[1..][i] == a[i + 1];
        FirstAddressConcat(a[1..], b, name);
      }
    }
  }

  /** Unless the name occurs at address 0, the lookup depends on the sequence
      alone, not on the shape splaying has left. */
  lemma {:induction false} GetAddressIsFirst<T>(name: string, t: Tree<T>)
    requires !Named(Inorder(t), name, true)
    ensures GetAddress(name, t) == FirstAddress(Inorder(t), name)
    decreases t
  {
    match t
    case Leaf =>
    case Bin(l, e, r) =>
      var a, b := Inorder(l), Inorder(r);
      var s := a + [e] + b;
      assert s[|a|] == e;
      assert forall i :: 0 <= i < |a| ==> s[i] == a[i];
      assert forall i :: 0 <= i < |b| ==> s[|a| + 1 + i] == b[i];
      GetAddressIsFirst(name, l);
      GetAddressIsFirst(name, r);
      assert s == a + ([e] + b) && ([e] + b)[1..] == b;
      FirstAddressConcat(a, [e] + b, name);
  }

  lemma {:induction false} OnlyAtZero<T>(name: string, t: Tree<T>)
    requires !Named(Inorder(t), name, false)
    ensures GetAddress(name, t) == 0
    decreases t
  {
    match t
    case Leaf =>
    case Bin(l, e, r) =>
      var a, b := Inorder(l), Inorder(r);
      var s := a + [e] + b;
      assert s[|a|] == e;
      assert forall i :: 0 <= i < |a| ==> s[i] == a[i];
      assert forall i :: 0 <= i < |b| ==> s[|a| + 1 + i] == b[i];
      OnlyAtZero(name, l);
      OnlyAtZero(name, r);
  }

  /** The tree over `s` with entry `i` at the root. */
  lemma RootedAt<T>(s: seq<Entry<T>>, i: nat) returns (t: Tree<T>)
    requires i < |s|
    ensures Inorder(t) == s && t.Bin? && t.entry == s[i] && Inorder(t.left) == s[..i]
  {
    VineInorder(s[..i]);
    VineInorder(s[i + 1..]);
    t := Bin(Vine(s[..i]), s[i], Vine(s[i + 1..]));
  }

  /** A tree that answers 0 and one that does not, when the name occurs both at
      address 0 and elsewhere. */
  lemma LookupDependsOnShape<T>(s: seq<Entry<T>>, name: string) returns (t1: Tree<T>, t2: Tree<T>)
    requires Sorted(s) && Named(s, name, true) && Named(s, name, false)
    ensures Inorder(t1) == Inorder(t2) == s && GetAddress(name, t1) != GetAddress(name, t2)
  {
    var i :| 0 <= i < |s| && s[i].sym.name == name && s[i].sym.key.addr == 0;
    t1 := RootedAt(s, i);
    assert forall x :: 0 <= x < i ==> s[..i][x].sym.key.addr == 0;
    OnlyAtZero(name, t1.left);
    var j :| 0 <= j < |s| && s[j].sym.name == name && s[j].sym.key.addr != 0;
    while Named(s[..j], name, false)
      invariant 0 <= j < |s| && s[j].sym.name == name && s[j].sym.key.addr != 0
      decreases j
    {
      var x :| 0 <= x < j && s[x].sym.name == name && s[x].sym.key.addr != 0;
      j := x;
    }
    t2 := RootedAt(s, j);
    OnlyAtZero(name, t2.left);
  }

  /** No history of splays changes the answer, if and only if the name does not
      occur both at address 0 and elsewhere. */
  lemma LookupStableIff<T(!new)>(s: seq<Entry<T>>, name: string)
    requires Sorted(s)
    ensures (forall t1, t2 :: Inorder(t1) == s && Inorder(t2) == s ==> GetAddress(name, t1) == GetAddress(name, t2))
       <==> !(Named(s, name, true) && Named(s, name, false))
  {
    if Named(s, name, true) && Named(s, name, false) {
      var t1, t2 := LookupDependsOnShape(s, name);
    } else {
      forall t | Inorder(t) == s
        ensures GetAddress(name, t) == if Named(s, name, true) then 0 else FirstAddress(s, name)
      {
        if Named(s, name, true) {
          OnlyAtZero(name, t);
        } else {
          GetAddressIsFirst(name, t);
        }
      }
    }
  }
}
