/**
  The time-ordered cache over the ordered dictionary. Every access moves its key to the end, so under a
  clock that does not run backwards the dictionary is sorted by age, and a sweep may stop at the first
  entry that is young enough.
*/
module LruCache {
  import opened Containers
  import opened OrderedDictionary

  const SWEEP_MAX_ITEMS := 1024

  /** A cache entry; the cache as a value is the list of its entries in order of last use. */
  datatype Entry<K, V> = Entry(key: K, time: real, value: V)

  function Keys<K, V>(s: seq<Entry<K, V>>): (r: seq<K>)
    ensures |r| == |s| && forall i :: 0 <= i < |s| ==> r[i] == s[i].key
  {
    seq(|s|, i requires 0 <= i < |s| => s[i].key)
  }

  /** The oldest entry comes first, and nothing was used after `now`. */
  ghost predicate ByAge<K, V>(s: seq<Entry<K, V>>, now: real) {
    s == [] || (s[0].time <= now && (forall i :: 0 < i < |s| ==> s[0].time <= s[i].time) && ByAge(s[1..], now))
  }

  // ----- the operations on values

  function Removed<K(==), V>(s: seq<Entry<K, V>>, key: K): seq<Entry<K, V>> {
    if s == [] then []
    else if s[0].key == key then Removed(s[1..], key)
    else [s[0]] + Removed(s[1..], key)
  }

  function Find<K(==), V>(s: seq<Entry<K, V>>, key: K): Option<V> {
    if s == [] then None else if s[0].key == key then Some(s[0].value) else Find(s[1..], key)
  }

  function Put<K(==), V>(s: seq<Entry<K, V>>, key: K, value: V, now: real): seq<Entry<K, V>> {
    Removed(s, key) + [Entry(key, now, value)]
  }

  /** Reading a key moves it to the end; a missing key changes nothing. */
  function Touched<K(==), V>(s: seq<Entry<K, V>>, key: K, now: real): seq<Entry<K, V>> {
    match Find(s, key)
    case None => s
    case Some(value) => Put(s, key, value, now)
  }

  /** The number of entries a sweep of at most `count` entries removes. */
  function SweepLength<K, V>(s: seq<Entry<K, V>>, now: real, timeout: real, count: nat): (m: nat)
    ensures m <= |s| && m <= count
  {
    if count == 0 || s == [] || now - s[0].time <= timeout then 0
    else 1 + SweepLength(s[1..], now, timeout, count - 1)
  }

  /** The number of entries a clear removes. */
  function ClearLength<K, V>(s: seq<Entry<K, V>>, keep: nat): (m: nat)
    ensures m <= |s| && |s[m..]| == if |s| < keep then |s| else keep
  {
    if |s| <= keep then 0 else |s| - keep
  }

  // ----- what is found afterwards

  lemma {:induction false} FindElsewhere<K, V>(s: seq<Entry<K, V>>, key: K, other: K)
    requires key != other
    ensures Find(Removed(s, key), other) == Find(s, other)
    decreases |s|
  {
    if s != [] {
      FindElsewhere(s[1..], key, other);
      if s[0].key != key {
        assert Removed(s, key)[1..] == Removed(s[1..], key);
      }
    }
  }

  lemma {:induction false} FindRemoved<K, V>(s: seq<Entry<K, V>>, key: K)
    ensures Find(Removed(s, key), key).None?
    decreases |s|
  {
    if s != [] {
      FindRemoved(s[1..], key);
      if s[0].key != key {
        assert Removed(s, key)[1..] == Removed(s[1..], key);
      }
    }
  }

  lemma {:induction false} FindSnoc<K, V>(s: seq<Entry<K, V>>, e: Entry<K, V>, key: K)
    ensures Find(s + [e], key) == if Find(s, key).Some? then Find(s, key) else if e.key == key then Some(e.value) else None
    decreases |s|
  {
    if s == [] {
      assert s + [e] == [e];
      assert [e][1..] == [];
    } else {
      assert (s + [e])[1..] == s[1..] + [e];
      FindSnoc(s[1..], e, key);
    }
  }

  // ----- what every operation keeps

  lemma {:induction false} RemovedNotBefore<K, V>(s: seq<Entry<K, V>>, key: K, t: real)
    requires forall i :: 0 <= i < |s| ==> t <= s[i].time
    ensures forall i :: 0 <= i < |Removed(s, key)| ==> t <= Removed(s, key)[i].time
    decreases |s|
  {
    if s != [] {
      RemovedNotBefore(s[1..], key, t);
    }
  }

  lemma {:induction false} RemovedKeepsAge<K, V>(s: seq<Entry<K, V>>, key: K, now: real)
    requires ByAge(s, now)
    ensures ByAge(Removed(s, key), now)
    decreases |s|
  {
    if s != [] {
      RemovedKeepsAge(s[1..], key, now);
      RemovedNotBefore(s[1..], key, s[0].time);
      if s[0].key != key {
        assert Removed(s, key)[1..] == Removed(s[1..], key);
      }
    }
  }

  /** Using an entry at a later time than all others keeps the order by age. */
  lemma {:induction false} AppendKeepsAge<K, V>(s: seq<Entry<K, V>>, e: Entry<K, V>, was: real)
    requires ByAge(s, was) && was <= e.time
    ensures ByAge(s + [e], e.time)
    decreases |s|
  {
    if s != [] {
      AppendKeepsAge(s[1..], e, was);
      assert (s + [e])[1..] == s[1..] + [e];
    }
  }

  lemma {:induction false} PutKeepsAge<K, V>(s: seq<Entry<K, V>>, key: K, value: V, was: real, now: real)
    requires ByAge(s, was) && was <= now
    ensures ByAge(Put(s, key, value, now), now)
  {
    RemovedKeepsAge(s, key, was);
    AppendKeepsAge(Removed(s, key), Entry(key, now, value), was);
  }

  lemma {:induction false} LaterKeepsAge<K, V>(s: seq<Entry<K, V>>, was: real, now: real)
    requires ByAge(s, was) && was <= now
    ensures ByAge(s, now)
    decreases |s|
  {
    if s != [] {
      LaterKeepsAge(s[1..], was, now);
    }
  }

  lemma {:induction false} SuffixKeepsAge<K, V>(s: seq<Entry<K, V>>, m: nat, now: real)
    requires ByAge(s, now) && m <= |s|
    ensures ByAge(s[m..], now)
    decreases m
  {
    if m == 0 {
      assert s[0..] == s;
    } else {
      SuffixKeepsAge(s[1..], m - 1, now);
      assert s[1..][m - 1..] == s[m..];
    }
  }

  // ----- a sweep that stops early is a full filter

  /** The entries young enough to stay. */
  function Young<K, V>(s: seq<Entry<K, V>>, now: real, timeout: real): seq<Entry<K, V>> {
    if s == [] then []
    else if now - s[0].time <= timeout then [s[0]] + Young(s[1..], now, timeout)
    else Young(s[1..], now, timeout)
  }

  /** The entries whose age exceeds the timeout. */
  function Old<K, V>(s: seq<Entry<K, V>>, now: real, timeout: real): seq<Entry<K, V>> {
    if s == [] then []
    else if now - s[0].time <= timeout then Old(s[1..], now, timeout)
    else [s[0]] + Old(s[1..], now, timeout)
  }

  lemma {:induction false} AllYoung<K, V>(s: seq<Entry<K, V>>, now: real, timeout: real)
    requires forall i :: 0 <= i < |s| ==> now - s[i].time <= timeout
    ensures Young(s, now, timeout) == s && Old(s, now, timeout) == []
    decreases |s|
  {
    if s != [] {
      AllYoung(s[1..], now, timeout);
    }
  }

  /** Under a clock that never ran backwards, a sweep that its item limit did not cut off has removed
      exactly the entries older than the timeout, oldest first, and kept the others in order. */
  lemma {:induction false} SweepIsExact<K, V>(s: seq<Entry<K, V>>, now: real, timeout: real, count: nat)
    requires ByAge(s, now) && SweepLength(s, now, timeout, count) < count
    ensures var m := SweepLength(s, now, timeout, count);
            s[m..] == Young(s, now, timeout) && s[..m] == Old(s, now, timeout)
    decreases |s|
  {
    if s == [] {
    } else if now - s[0].time <= timeout {
      AllYoung(s, now, timeout);
    } else {
      SweepIsExact(s[1..], now, timeout, count - 1);
      var m := SweepLength(s[1..], now, timeout, count - 1);
      assert s[m + 1..] == s[1..][m..];
      assert s[..m + 1] == [s[0]] + s[1..][..m];
    }
  }

  /** Whatever the clock did, a sweep closes only entries older than the timeout, at most `count`. */
  lemma {:induction false} SweepIsSafe<K, V>(s: seq<Entry<K, V>>, now: real, timeout: real, count: nat)
    ensures forall i :: 0 <= i < SweepLength(s, now, timeout, count) ==> now - s[i].time > timeout
    decreases count
  {
    if count > 0 && s != [] && now - s[0].time > timeout {
      SweepIsSafe(s[1..], now, timeout, count - 1);
      forall i | 0 < i < SweepLength(s, now, timeout, count)
        ensures now - s[i].time > timeout
      {
        assert s[1..][i - 1] == s[i];
      }
    }
  }

  // ----- whole runs

  datatype Op<K, V> = GetOp(key: K) | SetOp(key: K, value: V) | DelOp(key: K) | SweepOp(count: nat) | ClearOp(keep: nat)

  function Applied<K(==), V>(s: seq<Entry<K, V>>, op: Op<K, V>, timeout: real, now: real): seq<Entry<K, V>> {
    match op
    case GetOp(key) => Touched(s, key, now)
    case SetOp(key, value) => Put(s, key, value, now)
    case DelOp(key) => Removed(s, key)
    case SweepOp(count) => s[SweepLength(s, now, timeout, count)..]
    case ClearOp(keep) => s[ClearLength(s, keep)..]
  }

  /** The cache after a run; each operation comes with the time it happens at. */
  function RunEnd<K(==), V>(s: seq<Entry<K, V>>, ops: seq<(Op<K, V>, real)>, timeout: real): seq<Entry<K, V>>
    decreases |ops|
  {
    if ops == [] then s else RunEnd(Applied(s, ops[0].0, timeout, ops[0].1), ops[1..], timeout)
  }

  ghost predicate Monotone<K, V>(ops: seq<(Op<K, V>, real)>, was: real) {
    ops == [] || (was <= ops[0].1 && Monotone(ops[1..], ops[0].1))
  }

  ghost function EndTime<K, V>(ops: seq<(Op<K, V>, real)>, was: real): real {
    if ops == [] then was else EndTime(ops[1..], ops[0].1)
  }

  /** Over every run under a monotone clock the entries are sorted by age, so SweepIsExact applies. */
  lemma {:induction false} RunKeepsAge<K, V>(
    s: seq<Entry<K, V>>, ops: seq<(Op<K, V>, real)>, timeout: real, was: real)
    requires ByAge(s, was) && Monotone(ops, was)
    ensures ByAge(RunEnd(s, ops, timeout), EndTime(ops, was))
    decreases |ops|
  {
    if ops != [] {
      var now, next := ops[0].1, Applied(s, ops[0].0, timeout, ops[0].1);
      LaterKeepsAge(s, was, now);
      match ops[0].0 {
        case GetOp(key) =>
          if Find(s, key).Some? {
            PutKeepsAge(s, key, Find(s, key).value, was, now);
          }
        case SetOp(key, value) => PutKeepsAge(s, key, value, was, now);
        case DelOp(key) => RemovedKeepsAge(s, key, now);
        case SweepOp(count) => SuffixKeepsAge(s, SweepLength(s, now, timeout, count), now);
        case ClearOp(keep) => SuffixKeepsAge(s, ClearLength(s, keep), now);
      }
      RunKeepsAge(next, ops[1..], timeout, now);
    }
  }

  // ----- the object

  /** The entries that an ordered time table and a value table hold together. */
  ghost function Entries<K, V>(order: seq<K>, times: map<K, real>, store: map<K, V>): (s: seq<Entry<K, V>>)
    requires forall i :: 0 <= i < |order| ==> order[i] in times && order[i] in store
    ensures |s| == |order|
  {
    if order == [] then []
    else [Entry(order[0], times[order[0]], store[order[0]])] + Entries(order[1..], times, store)
  }

  /** Changing the tables at a key that is not listed changes no entry. */
  lemma {:induction false} EntriesFrame<K, V>(
    order: seq<K>, times: map<K, real>, store: map<K, V>, times': map<K, real>, store': map<K, V>, key: K)
    requires forall i :: 0 <= i < |order| ==> order[i] in times && order[i] in store
    requires forall i :: 0 <= i < |order| ==> order[i] in times' && order[i] in store'
    requires forall i :: 0 <= i < |order| ==> times'[order[i]] == times[order[i]] && store'[order[i]] == store[order[i]]
    ensures Entries(order, times', store') == Entries(order, times, store)
    decreases |order|
  {
    if order != [] {
      EntriesFrame(order[1..], times, store, times', store', key);
    }
  }

  lemma {:induction false} EntriesWithout<K(!new), V>(order: seq<K>, times: map<K, real>, store: map<K, V>, key: K)
    requires forall i :: 0 <= i < |order| ==> order[i] in times && order[i] in store
    ensures var rest := Without(order, key);
            && (forall i :: 0 <= i < |rest| ==> rest[i] in times && rest[i] in store)
            && Entries(rest, times, store) == Removed(Entries(order, times, store), key)
    decreases |order|
  {
    if order != [] {
      EntriesWithout(order[1..], times, store, key);
      var s, rest := Entries(order, times, store), Without(order, key);
      assert s[1..] == Entries(order[1..], times, store);
      if order[0] != key {
        assert rest[1..] == Without(order[1..], key);
      }
    }
  }

  lemma {:induction false} EntriesSnoc<K, V>(order: seq<K>, times: map<K, real>, store: map<K, V>, key: K)
    requires forall i :: 0 <= i < |order| ==> order[i] in times && order[i] in store
    requires key in times && key in store
    ensures Entries(order + [key], times, store) == Entries(order, times, store) + [Entry(key, times[key], store[key])]
    decreases |order|
  {
    if order == [] {
      assert order + [key] == [key];
      assert [key][1..] == [];
    } else {
      assert (order + [key])[1..] == order[1..] + [key];
      EntriesSnoc(order[1..], times, store, key);
    }
  }

  /** Without its oldest key the tables hold the other entries. */
  lemma {:induction false} EntriesTail<K(!new), V>(order: seq<K>, times: map<K, real>, store: map<K, V>)
    requires forall i :: 0 <= i < |order| ==> order[i] in times && order[i] in store
    requires Distinct(order) && order != []
    ensures var key, rest := order[0], order[1..];
            && Without(order, key) == rest
            && (forall i :: 0 <= i < |rest| ==> rest[i] in times - {key} && rest[i] in store - {key})
            && Entries(order, times, store)[0].key == key
            && Entries(rest, times - {key}, store - {key}) == Entries(order, times, store)[1..]
  {
    hide Without;
    var key, rest := order[0], order[1..];
    WithoutAt(order, 0);
    assert order[..0] + order[1..] == rest;
    assert forall i :: 0 <= i < |rest| ==> rest[i] == order[i + 1];
    EntriesFrame(rest, times, store, times - {key}, store - {key}, key);
  }

  lemma {:induction false} EntriesFind<K, V>(order: seq<K>, times: map<K, real>, store: map<K, V>, key: K)
    requires forall i :: 0 <= i < |order| ==> order[i] in times && order[i] in store
    ensures Find(Entries(order, times, store), key) == if key in order then Some(store[key]) else None
    decreases |order|
  {
    if order != [] {
      var s := Entries(order, times, store);
      assert s[1..] == Entries(order[1..], times, store);
      EntriesFind(order[1..], times, store, key);
    }
  }

  class LRUCache<K(==,!new), V> {
    const timeout: real
    const closing: bool  // whether a close callback was given
    const times: OrderedDict<K, real>  // keys to the time of last use
    var store: map<K, V>

    constructor (timeout: real, closing: bool)
      ensures Valid() && Contents() == [] && this.timeout == timeout && this.closing == closing
      ensures fresh(Repr() - {this})
    {
      this.timeout, this.closing := timeout, closing;
      times := new OrderedDict<K, real>();
      store := map[];
    }

    ghost function Repr(): set<object>
      reads times`links
    {
      {this} + times.Repr()
    }

    /** Both tables hold the same keys. */
    ghost predicate Valid()
      reads this, times, times.Links()
    {
      this !in times.Repr() && times.Valid() && store.Keys == times.dict.Keys
    }

    ghost function Contents(): seq<Entry<K, V>>
      requires Valid()
      reads this, times, times.Links()
    {
      ListedAreStored();
      Entries(times.order, times.dict, store)
    }

    lemma {:induction false} ListedAreStored()
      requires Valid()
      ensures Distinct(times.order) && forall k :: k in times.order <==> k in store
      ensures forall i :: 0 <= i < |times.order| ==> times.order[i] in times.dict && times.order[i] in store
    {
      hide OrderedDict.Valid;
      times.ListedOnce();
    }

    /** Move `key` to the end of the time table, with the time `now`. */
    method Renew(key: K, now: real)
      requires times.Valid() && this !in times.Repr()
      modifies times.Repr()
      ensures times.Valid() && this !in times.Repr() && fresh(times.Repr() - old(times.Repr()))
      ensures times.dict == old(times.dict)[key := now]
      ensures times.order == Without(old(times.order), key) + [key]
    {
      hide OrderedDict.Valid, Without;
      times.ListedOnce();
      if key in times.dict {
        var _ := times.DelItem(key);
      } else {
        WithoutAbsent(times.order, key);
      }
      times.SetItem(key, now);
    }

    /** The tables hold, besides `key`, the entries they held before, and `key` as the latest. */
    lemma {:induction false} Renewed(
      order: seq<K>, times1: map<K, real>, store1: map<K, V>, key: K, now: real, value: V)
      requires forall i :: 0 <= i < |order| ==> order[i] in times1 && order[i] in store1
      ensures var rest, times2, store2 := Without(order, key), times1[key := now], store1[key := value];
              && (forall i :: 0 <= i < |rest + [key]| ==> (rest + [key])[i] in times2 && (rest + [key])[i] in store2)
              && Entries(rest + [key], times2, store2) == Put(Entries(order, times1, store1), key, value, now)
    {
      hide Entries, Without, Removed;
      var rest, times2, store2 := Without(order, key), times1[key := now], store1[key := value];
      EntriesWithout(order, times1, store1, key);
      assert key !in rest;
      EntriesFrame(rest, times1, store1, times2, store2, key);
      EntriesSnoc(rest, times2, store2, key);
    }

    method SetItem(key: K, value: V, now: real)
      requires Valid()
      modifies Repr()
      ensures Valid() && Contents() == Put(old(Contents()), key, value, now)
    {
      hide OrderedDict.Valid, Without, Entries;
      ListedAreStored();
      Renewed(times.order, times.dict, store, key, now, value);
      Renew(key, now);
      store := store[key := value];
    }

    /** A read moves its key to the end; a missing key is a KeyError. */
    method GetItem(key: K, now: real) returns (value: Option<V>)
      requires Valid()
      modifies Repr()
      ensures Valid() && Contents() == Touched(old(Contents()), key, now)
      ensures value == Find(old(Contents()), key)
    {
      hide OrderedDict.Valid, Without, Entries, Find;
      ListedAreStored();
      EntriesFind(times.order, times.dict, store, key);
      if key !in times.dict {
        return None;
      }
      Renewed(times.order, times.dict, store, key, now, store[key]);
      assert store[key := store[key]] == store;
      Renew(key, now);
      value := Some(store[key]);
    }

    /** Deleting a missing key is a KeyError and changes nothing. */
    method DelItem(key: K) returns (found: bool)
      requires Valid()
      modifies Repr()
      ensures Valid() && Contents() == Removed(old(Contents()), key)
      ensures found == Find(old(Contents()), key).Some?
    {
      hide OrderedDict.Valid, Without, Entries, Find;
      ListedAreStored();
      EntriesFind(times.order, times.dict, store, key);
      EntriesWithout(times.order, times.dict, store, key);
      ghost var rest := Without(times.order, key);
      assert key !in rest;
      EntriesFrame(rest, times.dict, store, times.dict - {key}, store - {key}, key);
      store := store - {key};
      found := times.DelItem(key);
    }

    /** The key used longest ago. */
    method First() returns (key: Option<K>)
      requires Valid()
      ensures key == if Contents() == [] then None else Some(Contents()[0].key)
    {
      key := times.First();
    }

    /** Take out the entry used longest ago. */
    method DropOldest() returns (e: Entry<K, V>)
      requires Valid() && Contents() != []
      modifies Repr()
      ensures Valid() && Repr() <= old(Repr())
      ensures e == old(Contents())[0] && Contents() == old(Contents())[1..]
    {
      hide OrderedDict.Valid, Without, Entries;
      ListedAreStored();
      EntriesTail(times.order, times.dict, store);
      var oldest := Oldest();
      e := oldest.value;
      store := store - {e.key};
      var _ := times.DelItem(e.key);
    }

    /** Sweep at most `count` expired entries from the old end; `closed` lists the values passed to the
        close callback. The answer says whether fewer than 1024 entries went. */
    method Sweep(now: real, count: nat) returns (done: bool, closed: seq<V>)
      requires Valid()
      modifies Repr()
      ensures Valid()
      ensures var s := old(Contents());
              var m := SweepLength(s, now, timeout, count);
              && Contents() == s[m..] && done == (m < 1024)
              && closed == if closing then Values(s[..m]) else []
    {
      hide OrderedDict.Valid, LRUCache.Contents, LRUCache.Valid;
      var c := 0;
      closed := [];
      ghost var s := Contents();
      while c < count
        invariant c <= count && c <= |s| && Valid() && Repr() <= old(Repr())
        invariant Contents() == s[c..]
        invariant SweepLength(s, now, timeout, count) == c + SweepLength(s[c..], now, timeout, count - c)
        invariant closed == if closing then Values(s[..c]) else []
      {
        var oldest := Oldest();
        if oldest.None? || now - oldest.value.time <= timeout {
          break;
        }
        var e := DropOldest();
        if closing {
          closed := closed + [e.value];
        }
        assert s[c..][1..] == s[c + 1..];
        assert s[..c + 1] == s[..c] + [s[c]];
        c := c + 1;
      }
      done := c < SWEEP_MAX_ITEMS;
    }

    /** The entry used longest ago, without moving it. */
    method Oldest() returns (e: Option<Entry<K, V>>)
      requires Valid()
      ensures e == if Contents() == [] then None else Some(Contents()[0])
    {
      ListedAreStored();
      var first := times.First();
      if first.None? {
        return None;
      }
      e := Some(Entry(first.value, times.dict[first.value], store[first.value]));
    }

    /** Drop entries from the old end until at most `keep` are left. */
    method Clear(keep: nat) returns (done: bool, closed: seq<V>)
      requires Valid()
      modifies Repr()
      ensures Valid()
      ensures var s := old(Contents());
              var m := ClearLength(s, keep);
              && Contents() == s[m..] && done == (m < 1024)
              && closed == if closing then Values(s[..m]) else []
    {
      hide OrderedDict.Valid, LRUCache.Contents, LRUCache.Valid;
      var c := 0;
      closed := [];
      ghost var s := Contents();
      var size := Size();
      while size > keep
        invariant c <= |s| && Valid() && Repr() <= old(Repr()) && size == |s| - c
        invariant Contents() == s[c..] && c <= ClearLength(s, keep)
        invariant closed == if closing then Values(s[..c]) else []
        decreases size
      {
        var e := DropOldest();
        if closing {
          closed := closed + [e.value];
        }
        assert s[c..][1..] == s[c + 1..];
        assert s[..c + 1] == s[..c] + [s[c]];
        c := c + 1;
        size := Size();
      }
      done := c < SWEEP_MAX_ITEMS;
    }

    method Size() returns (n: nat)
      requires Valid()
      ensures n == |Contents()|
    {
      ListedAreStored();
      n := |times.dict|;
      DistinctCount(times.order, times.dict.Keys);
    }
  }

  function Values<K, V>(s: seq<Entry<K, V>>): (r: seq<V>)
    ensures |r| == |s|
  {
    seq(|s|, i requires 0 <= i < |s| => s[i].value)
  }

  lemma {:induction false} DistinctCount<K(!new)>(s: seq<K>, keys: set<K>)
    requires Distinct(s) && forall k :: k in keys <==> k in s
    ensures |keys| == |s|
    decreases |s|
  {
    if s == [] {
      assert keys == {};
    } else {
      assert s[0] !in s[1..];
      DistinctCount(s[1..], keys - {s[0]});
    }
  }
}
