/**
 The chained hash table: an array of bucket chains, new buckets at the head.
 */
module HashTable {
  import opened Wrappers

  datatype Bucket<T> = Bucket(key: nat, data: T)

  type Chain<T> = seq<Bucket<T>>

  function Slot(key: nat, size: nat): (i: nat)
    requires size > 0
    ensures i < size
  {
    key % size
  }

  /** The first bucket of a chain with the given key. */
  function Find<T>(chain: Chain<T>, key: nat): (r: Option<T>) {
    if chain == [] then None
    else if chain[0].key == key then Some(chain[0].data)
    else Find(chain[1..], key)
  }

  /** All buckets of an array of chains. */
  ghost function Buckets<T>(list: seq<Chain<T>>): (r: multiset<Bucket<T>>) {
    if list == [] then multiset{} else multiset(list[0]) + Buckets(list[1..])
  }

  /** Every chain holds only keys congruent to its index. */
  ghost predicate Placed<T>(list: seq<Chain<T>>) {
    forall i, b :: 0 <= i < |list| && b in list[i] ==> Slot(b.key, |list|) == i
  }

  lemma {:induction false} FindIsMember<T>(chain: Chain<T>, key: nat)
    ensures Find(chain, key).Some? ==> Bucket(key, Find(chain, key).value) in chain
    ensures Find(chain, key).None? ==> forall b :: b in chain ==> b.key != key
  {
    if chain != [] && chain[0].key != key {
      FindIsMember(chain[1..], key);
      assert forall b :: b in chain <==> b == chain[0] || b in chain[1..];
    }
  }

  lemma {:induction false} BucketsHas<T>(list: seq<Chain<T>>, b: Bucket<T>)
    ensures b in Buckets(list) <==> exists i :: 0 <= i < |list| && b in list[i]
  {
    if list != [] {
      BucketsHas(list[1..], b);
      if i :| 0 <= i < |list| && b in list[i] {
        assert i > 0 ==> list[i] == list[1..][i - 1];
      }
      if i :| 0 <= i < |list[1..]| && b in list[1..][i] {
        assert list[i + 1] == list[1..][i];
      }
    }
  }

  /** The buckets of all chains but one. */
  ghost function Others<T>(list: seq<Chain<T>>, i: nat): (r: multiset<Bucket<T>>)
    requires i < |list|
  {
    Buckets(list[..i] + list[i + 1..])
  }

  lemma {:induction false} OneChain<T>(list: seq<Chain<T>>, i: nat)
    requires i < |list|
    ensures Buckets(list) == multiset(list[i]) + Others(list, i)
  {
    if i == 0 {
      assert list[..0] + list[1..] == list[1..];
    } else {
      OneChain(list[1..], i - 1);
      var without := list[..i] + list[i + 1..];
      assert without[1..] == list[1..][..i - 1] + list[1..][i..];
      assert Buckets(without) == multiset(list[0]) + Others(list[1..], i - 1);
    }
  }

  lemma ReplacedChain<T>(list: seq<Chain<T>>, i: nat, chain: Chain<T>)
    requires i < |list|
    ensures Buckets(list[i := chain]) == multiset(chain) + Others(list, i)
  {
    var r := list[i := chain];
    OneChain(r, i);
    assert r[..i] == list[..i] && r[i + 1..] == list[i + 1..];
  }

  /** In a well placed table a key is found exactly if some bucket has it. */
  lemma FindInTable<T>(list: seq<Chain<T>>, key: nat)
    requires |list| > 0 && Placed(list)
    ensures var r := Find(list[Slot(key, |list|)], key);
            && (r.Some? ==> Bucket(key, r.value) in Buckets(list))
            && (r.None? ==> forall b :: b in Buckets(list) ==> b.key != key)
  {
    var chain := list[Slot(key, |list|)];
    FindIsMember(chain, key);
    forall b | b in Buckets(list) && b.key == key ensures b in chain {
      BucketsHas(list, b);
    }
    if Find(chain, key).Some? {
      BucketsHas(list, Bucket(key, Find(chain, key).value));
    }
  }

  lemma StillPlaced<T>(list: seq<Chain<T>>, i: nat, chain: Chain<T>)
    requires i < |list| && Placed(list)
    requires forall b :: b in chain ==> b in list[i] || Slot(b.key, |list|) == i
    ensures Placed(list[i := chain])
  {
    var r := list[i := chain];
    forall k: int, b: Bucket<T> | 0 <= k < |r| && b in r[k] ensures Slot(b.key, |r|) == k {
      assert k != i ==> b in list[k];
    }
  }

  /** A new bucket at the head of its chain. */
  function Pushed<T>(list: seq<Chain<T>>, b: Bucket<T>): (r: seq<Chain<T>>)
    requires |list| > 0
  {
    var i := Slot(b.key, |list|);
    list[i := [b] + list[i]]
  }

  lemma PushHead<T>(list: seq<Chain<T>>, b: Bucket<T>)
    requires |list| > 0 && Placed(list)
    ensures Placed(Pushed(list, b))
    ensures Buckets(Pushed(list, b)) == Buckets(list) + multiset{b}
    ensures Find(Pushed(list, b)[Slot(b.key, |list|)], b.key) == Some(b.data)
  {
    var i := Slot(b.key, |list|);
    OneChain(list, i);
    ReplacedChain(list, i, [b] + list[i]);
    StillPlaced(list, i, [b] + list[i]);
  }

  /** Bucket j of chain i taken out. */
  function Unlinked<T>(list: seq<Chain<T>>, i: nat, j: nat): (r: seq<Chain<T>>)
    requires i < |list| && j < |list[i]|
  {
    list[i := list[i][..j] + list[i][j + 1..]]
  }

  lemma Unlink<T>(list: seq<Chain<T>>, i: nat, j: nat)
    requires i < |list| && j < |list[i]| && Placed(list)
    ensures Placed(Unlinked(list, i, j))
    ensures Buckets(Unlinked(list, i, j)) + multiset{list[i][j]} == Buckets(list)
  {
    var c := list[i];
    var d := c[..j] + c[j + 1..];
    assert c == c[..j] + ([c[j]] + c[j + 1..]);
    assert multiset(c) == multiset(d) + multiset{c[j]};
    OneChain(list, i);
    ReplacedChain(list, i, d);
    StillPlaced(list, i, d);
  }

  lemma Rekey<T>(list: seq<Chain<T>>, i: nat, j: nat, newKey: nat)
    requires i < |list| && j < |list[i]| && Placed(list)
    ensures var b := Bucket(newKey, list[i][j].data);
            var r := Pushed(Unlinked(list, i, j), b);
            && Placed(r)
            && Buckets(r) + multiset{list[i][j]} == Buckets(list) + multiset{b}
            && Find(r[Slot(newKey, |list|)], newKey) == Some(b.data)
  {
    Unlink(list, i, j);
    PushHead(Unlinked(list, i, j), Bucket(newKey, list[i][j].data));
  }

  lemma Exchange<T>(c: Chain<T>, j: nat, n: Bucket<T>)
    requires j < |c|
    ensures multiset(c) + multiset{n} == multiset(c[j := n]) + multiset{c[j]}
    ensures forall b :: b in c[j := n] ==> b in c || b == n
    ensures c[j] in c
  {
  }

  /** Bucket j of chain i given other data. */
  lemma Overwrite<T>(list: seq<Chain<T>>, i: nat, j: nat, data: T)
    requires i < |list| && j < |list[i]| && Placed(list)
    ensures var b := list[i][j];
            var r := list[i := list[i][j := Bucket(b.key, data)]];
            && Placed(r)
            && Buckets(r) + multiset{b} == Buckets(list) + multiset{Bucket(b.key, data)}
  {
    var c := list[i];
    var n := Bucket(c[j].key, data);
    var d := c[j := n];
    Exchange(c, j, n);
    OneChain(list, i);
    ReplacedChain(list, i, d);
    StillPlaced(list, i, d);
  }

  lemma {:induction false} FindFirst<T>(chain: Chain<T>, j: nat)
    requires j < |chain| && (forall k :: 0 <= k < j ==> chain[k].key != chain[j].key)
    ensures Find(chain, chain[j].key) == Some(chain[j].data)
  {
    if j > 0 {
      FindFirst(chain[1..], j - 1);
    }
  }

  class Table<T(==)> {
    var size: nat
    var elems: nat
    var list: seq<Chain<T>>

    ghost predicate Valid()
      reads this
    {
      size == |list| > 0 && Placed(list)
    }

    ghost function Contents(): (r: multiset<Bucket<T>>)
      reads this
    {
      Buckets(list)
    }

    constructor (initSize: nat)
      requires initSize > 0
      ensures Valid() && Contents() == multiset{} && size == initSize && elems == 0
    {
      size, elems := initSize, 0;
      list := seq(initSize, _ => []);
      new;
      NoBuckets(list);
    }

    /** Walks the chain of the key; finds the first bucket with it, if any. */
    method Get(key: nat) returns (found: Option<T>)
      requires Valid()
      ensures found == Find(list[Slot(key, size)], key)
      ensures found.Some? ==> Bucket(key, found.value) in Contents()
      ensures found.None? ==> forall b :: b in Contents() ==> b.key != key
    {
      var chain := list[Slot(key, size)];
      FindInTable(list, key);
      var j := Position(chain, key);
      found := if j < |chain| then Some(chain[j].data) else None;
    }

    /** Gives the first bucket of `key` a new key, at the head of its new chain. */
    method Move(key: nat, newKey: nat) returns (moved: Option<T>)
      requires Valid()
      modifies this
      ensures Valid() && size == old(size) && elems == old(elems)
      ensures moved == Find(old(list[Slot(key, size)]), key)
      ensures moved.None? ==> list == old(list)
      ensures moved.Some? ==>
                && Contents() + multiset{Bucket(key, moved.value)}
                   == old(Contents()) + multiset{Bucket(newKey, moved.value)}
                && Find(list[Slot(newKey, size)], newKey) == moved
    {
      var idx := Slot(key, size);
      var chain := list[idx];
      var j := Position(chain, key);
      if j == |chain| {
        return None;
      }
      var data := chain[j].data;
      Rekey(list, idx, j, newKey);
      list := Unlinked(list, idx, j);
      list := Pushed(list, Bucket(newKey, data));
      moved := Some(data);
    }

    /** Relinks every bucket into a longer array. */
    method Grow()
      requires Valid()
      modifies this
      ensures Valid() && size == 2 * old(size) + 1 && elems == old(elems)
      ensures Contents() == old(Contents())
    {
      var nsize := 2 * size + 1;
      var nlist: seq<Chain<T>> := seq(nsize, _ => []);
      NoBuckets(nlist);
      var i := 0;
      while i < size
        modifies {}
        invariant i <= size && |nlist| == nsize && Placed(nlist)
        invariant Buckets(nlist) + Buckets(list[i..]) == Contents()
      {
        assert list[i..][1..] == list[i + 1..];
        nlist := Relink(list[i], nlist);
        i := i + 1;
      }
      assert list[i..] == [];
      list, size := nlist, nsize;
    }

    method Create(key: nat, data: T)
      requires Valid()
      modifies this
      ensures Valid() && elems == old(elems) + 1
      ensures size == if old(elems * 5 > size * 4) then 2 * old(size) + 1 else old(size)
      ensures Contents() == old(Contents()) + multiset{Bucket(key, data)}
      ensures Find(list[Slot(key, size)], key) == Some(data)
    {
      if elems * 5 > size * 4 {
        Grow();
      }
      elems := elems + 1;
      PushHead(list, Bucket(key, data));
      list := Pushed(list, Bucket(key, data));
    }

    /** Puts moved and resized data where the first bucket of `key` was, or creates
        a bucket. */
    method Realloc(key: nat, data: T)
      requires Valid()
      modifies this
      ensures Valid()
      ensures var was := Find(old(list[Slot(key, size)]), key);
              if was.Some? then
                && Contents() + multiset{Bucket(key, was.value)}
                   == old(Contents()) + multiset{Bucket(key, data)}
                && size == old(size) && elems == old(elems)
              else
                && Contents() == old(Contents()) + multiset{Bucket(key, data)}
                && elems == old(elems) + 1
      ensures Find(list[Slot(key, size)], key) == Some(data)
    {
      var idx := Slot(key, size);
      var chain := list[idx];
      var j := Position(chain, key);
      if j == |chain| {
        Create(key, data);
        return;
      }
      Overwrite(list, idx, j, data);
      list := list[idx := chain[j := Bucket(key, data)]];
      FindFirst(list[idx], j);
    }
  }

  /** Pushes every bucket of a chain into another array, one by one. */
  method Relink<T>(chain: Chain<T>, list: seq<Chain<T>>) returns (r: seq<Chain<T>>)
    requires |list| > 0 && Placed(list)
    ensures |r| == |list| && Placed(r)
    ensures Buckets(r) == Buckets(list) + multiset(chain)
  {
    r := list;
    var j := 0;
    while j < |chain|
      invariant j <= |chain| && |r| == |list| && Placed(r)
      invariant Buckets(r) == Buckets(list) + multiset(chain[..j])
    {
      assert chain[..j + 1] == chain[..j] + [chain[j]];
      PushHead(r, chain[j]);
      r := Pushed(r, chain[j]);
      j := j + 1;
    }
    assert chain[..j] == chain;
  }

  lemma {:induction false} NoBuckets<T>(list: seq<Chain<T>>)
    requires forall i :: 0 <= i < |list| ==> list[i] == []
    ensures Buckets(list) == multiset{}
  {
    if list != [] {
      NoBuckets(list[1..]);
    }
  }

  /** The walk along a chain, by index of the bucket reached. */
  method Position<T>(chain: Chain<T>, key: nat) returns (j: nat)
    ensures j <= |chain| && (forall k :: 0 <= k < j ==> chain[k].key != key)
    ensures j < |chain| ==> chain[j].key == key
    ensures Find(chain, key) == if j < |chain| then Some(chain[j].data) else None
  {
    j := 0;
    while j < |chain| && chain[j].key != key
      invariant j <= |chain| && (forall k :: 0 <= k < j ==> chain[k].key != key)
      invariant Find(chain, key) == Find(chain[j..], key)
    {
      assert chain[j..][1..] == chain[j + 1..];
      j := j + 1;
    }
  }
}
