/**
 The profiler's two tables as values: the profile entries it adds up, and the rule by
 which threads are registered in the hash table.
 */
module ProfilerTables {
  import opened Wrappers
  import opened Words
  import opened HashTable
  import opened ProfilerFrames
  import opened ProfilerHistory

  // ------------------------------------------------------------- profiles

  datatype Callee = Callee(calls: nat, cycles: int)

  datatype Profile = Profile(local: int, irq: int, total: int, maxLocal: int, maxTotal: int,
                             calls: nat, isIrq: bool, callees: map<Code, Callee>)

  type Profiles = map<word, Profile>

  const NO_PROFILE := Profile(0, 0, 0, 0, 0, 0, false, map[])

  function Max(a: int, b: int): (r: int) { if a > b then a else b }

  function ProfileAt(p: Profiles, addr: word): (r: Profile) {
    if addr in p then p[addr] else NO_PROFILE
  }

  function WithProfile(p: Profiles, addr: word): (r: Profiles) {
    p[addr := ProfileAt(p, addr)]
  }

  /** One more call of `code`, charged to its caller's list of callees. */
  function WithCallee(p: Profiles, caller: word, code: Code, cycles: int): (r: Profiles) {
    var was := ProfileAt(p, caller);
    var c := if code in was.callees then was.callees[code] else Callee(0, 0);
    p[caller := was.(callees := was.callees[code := Callee(c.calls + 1, c.cycles + cycles)])]
  }

  function WithEntry(p: Profiles, e: Entry): (r: Profiles) {
    var was := ProfileAt(p, e.code.addr);
    p[e.code.addr := Profile(was.local + e.local, was.irq + e.irq, was.total + e.total,
                             Max(was.maxLocal, e.local), Max(was.maxTotal, e.total),
                             was.calls + 1, was.isIrq || e.code.handler, was.callees)]
  }

  /** What the end of the top frame adds: to its caller, unless it was put on the
      stack by hand, and to itself. */
  function WithReturn(p: Profiles, s: seq<Frame>, now: int): (r: Profiles)
    requires |s| > 1
  {
    var f := Top(s);
    var q := if f.fp == 0 then p else WithCallee(p, Top(Below(s)).code.addr, f.code, Total(f, now));
    WithEntry(q, EntryOf(f, now))
  }

  /** What closing a thread adds. */
  ghost function WithClosed(p: Profiles, s: seq<Frame>, now: int): (r: Profiles)
    requires IsStack(s)
    decreases |s|
  {
    if |s| == 1 then WithEntry(p, EntryOf(s[0], now))
    else WithClosed(WithReturn(p, s, now), Finished(s, now), now)
  }

  ghost function LocalAt(entries: seq<Entry>, addr: word): (r: int) {
    if entries == [] then 0
    else (if entries[0].code.addr == addr then entries[0].local else 0) + LocalAt(entries[1..], addr)
  }

  /** A return adds the local cycles of the frame it ends to one profile. */
  lemma ReturnAddsLocal(p: Profiles, s: seq<Frame>, now: int, addr: word)
    requires |s| > 1
    ensures ProfileAt(WithReturn(p, s, now), addr).local
         == ProfileAt(p, addr).local + (if Top(s).code.addr == addr then Local(Top(s), now) else 0)
  {
  }

  /** Closing a thread adds to every profile the own cycles of its open frames. */
  lemma {:induction false} ClosingAddsLocal(p: Profiles, s: seq<Frame>, now: int, addr: word)
    requires IsStack(s)
    ensures ProfileAt(WithClosed(p, s, now), addr).local
         == ProfileAt(p, addr).local + LocalAt(Closed(s, now), addr)
    decreases |s|
  {
    if |s| > 1 {
      ReturnAddsLocal(p, s, now, addr);
      ClosingAddsLocal(WithReturn(p, s, now), Finished(s, now), now, addr);
      var rest := Closed(Finished(s, now), now);
      assert ([EntryOf(Top(s), now)] + rest)[1..] == rest;
    } else {
      assert Closed(s, now)[1..] == [];
    }
  }

  // ------------------------------------------------------ registered threads

  /** Every record has exactly one bucket, under the key it is filed by. */
  ghost predicate Files<T>(m: multiset<Bucket<T>>, filed: map<T, nat>) {
    && (forall b :: b in m ==> m[b] == 1 && b.data in filed && filed[b.data] == b.key)
    && (forall t :: t in filed ==> Bucket(filed[t], t) in m)
  }

  /** The running thread's record, and no other, is filed under key 0. */
  ghost predicate ZeroRuns<T>(filed: map<T, nat>, current: Option<T>) {
    && (forall t :: t in filed ==> (filed[t] == 0 <==> current == Some(t)))
    && (current.Some? ==> current.value in filed)
  }

  lemma RefiledBuckets<T>(m: multiset<Bucket<T>>, m2: multiset<Bucket<T>>, filed: map<T, nat>, t: T, key: nat)
    requires Files(m, filed) && t in filed && filed[t] != key
    requires m2 + multiset{Bucket(filed[t], t)} == m + multiset{Bucket(key, t)}
    ensures Files(m2, filed[t := key])
  {
    var from, to := Bucket(filed[t], t), Bucket(key, t);
    var left, right := m2 + multiset{from}, m + multiset{to};
    assert left[from] == right[from] && left[to] == right[to];
    forall b | b != from && b != to ensures m2[b] == m[b] {
      assert left[b] == right[b];
    }
  }

  lemma EnteredBuckets<T>(m: multiset<Bucket<T>>, m2: multiset<Bucket<T>>, filed: map<T, nat>, t: T)
    requires Files(m, filed) && t !in filed && ZeroRuns(filed, None)
    requires m2 == m + multiset{Bucket(0, t)}
    ensures Files(m2, filed[t := 0]) && ZeroRuns(filed[t := 0], Some(t))
  {
  }

  /** A record that has moved: the old one is gone, the new one has its key. */
  lemma ReplacedBuckets<T>(m: multiset<Bucket<T>>, m2: multiset<Bucket<T>>, filed: map<T, nat>, c: T, t: T)
    requires Files(m, filed) && c in filed && t !in filed
    requires m2 + multiset{Bucket(filed[c], c)} == m + multiset{Bucket(filed[c], t)}
    ensures Files(m2, (filed - {c})[t := filed[c]])
  {
    var from, to := Bucket(filed[c], c), Bucket(filed[c], t);
    var left, right := m2 + multiset{from}, m + multiset{to};
    assert left[from] == right[from] && left[to] == right[to];
    forall b | b != from && b != to ensures m2[b] == m[b] {
      assert left[b] == right[b];
    }
  }

  /** The table finds the running thread, and only it, under key 0; any other key
      finds a thread filed under it, if there is one. */
  lemma TableFinds<T>(list: seq<Chain<T>>, filed: map<T, nat>, current: Option<T>, key: nat)
    requires |list| > 0 && Placed(list) && Files(Buckets(list), filed) && ZeroRuns(filed, current)
    ensures var r := Find(list[Slot(key, |list|)], key);
            && (r.Some? ==> r.value in filed && filed[r.value] == key)
            && (r.None? ==> forall t :: t in filed ==> filed[t] != key)
            && (key == 0 ==> r == current)
  {
    FindInTable(list, key);
  }
}
