/**
  What a cache holds, in terms of the operations that led to it: each entry has the value last set and the time
  of its last use, and the entries stand in the order of their last use.
*/
module CacheHistory {
  import opened Containers
  import opened LruCache

  type Timed<K, V> = (Op<K, V>, real)

  predicate Uses<K(==), V>(op: Op<K, V>, key: K) {
    (op.GetOp? || op.SetOp?) && op.key == key
  }

  predicate Sets<K(==), V>(op: Op<K, V>, key: K) {
    op.SetOp? && op.key == key
  }

  predicate Deletes<K(==), V>(op: Op<K, V>, key: K) {
    op.DelOp? && op.key == key
  }

  /** The last operation that reads or sets the key, or -1. */
  function LastUse<K(==), V>(ops: seq<Timed<K, V>>, key: K): (u: int)
    ensures -1 <= u < |ops| && (u >= 0 ==> Uses(ops[u].0, key))
  {
    if ops == [] then -1
    else if Uses(ops[|ops| - 1].0, key) then |ops| - 1
    else LastUse(ops[..|ops| - 1], key)
  }

  /** The last operation that sets the key, or -1. */
  function LastSet<K(==), V>(ops: seq<Timed<K, V>>, key: K): (w: int)
    ensures -1 <= w <= LastUse(ops, key) && (w >= 0 ==> Sets(ops[w].0, key))
  {
    if ops == [] then -1
    else if Sets(ops[|ops| - 1].0, key) then |ops| - 1
    else LastSet(ops[..|ops| - 1], key)
  }

  /** The last operation that deletes the key, or -1. */
  function LastDel<K(==), V>(ops: seq<Timed<K, V>>, key: K): (d: int)
    ensures -1 <= d < |ops| && (d >= 0 ==> Deletes(ops[d].0, key))
  {
    if ops == [] then -1
    else if Deletes(ops[|ops| - 1].0, key) then |ops| - 1
    else LastDel(ops[..|ops| - 1], key)
  }

  /** One entry is what its history says. */
  ghost predicate Recalls<K, V>(ops: seq<Timed<K, V>>, e: Entry<K, V>) {
    var use, set_ := LastUse(ops, e.key), LastSet(ops, e.key);
    && LastDel(ops, e.key) < set_ && 0 <= set_
    && e.time == ops[use].1 && e.value == ops[set_].0.value
  }

  ghost predicate InOrder<K, V>(ops: seq<Timed<K, V>>, s: seq<Entry<K, V>>) {
    forall i, j :: 0 <= i < j < |s| ==> LastUse(ops, s[i].key) < LastUse(ops, s[j].key)
  }

  ghost predicate Remembered<K, V>(ops: seq<Timed<K, V>>, s: seq<Entry<K, V>>) {
    && (forall i :: 0 <= i < |s| ==> Recalls(ops, s[i]))
    && InOrder(ops, s)
  }

  // ----- one step

  /** What an operation on another key changes in a key's history: nothing. */
  lemma {:induction false} HistoryNext<K, V>(ops: seq<Timed<K, V>>, o: Timed<K, V>, key: K)
    ensures LastUse(ops + [o], key) == if Uses(o.0, key) then |ops| else LastUse(ops, key)
    ensures LastSet(ops + [o], key) == if Sets(o.0, key) then |ops| else LastSet(ops, key)
    ensures LastDel(ops + [o], key) == if Deletes(o.0, key) then |ops| else LastDel(ops, key)
  {
    assert (ops + [o])[..|ops|] == ops;
  }

  lemma {:induction false} RecallsNext<K, V>(ops: seq<Timed<K, V>>, o: Timed<K, V>, e: Entry<K, V>)
    requires Recalls(ops, e) && !Uses(o.0, e.key) && !Deletes(o.0, e.key)
    ensures Recalls(ops + [o], e) && LastUse(ops + [o], e.key) == LastUse(ops, e.key)
  {
    hide LastUse, LastSet, LastDel;
    HistoryNext(ops, o, e.key);
  }

  /** Entries that an operation does not concern are remembered as before. */
  lemma {:induction false} OthersStay<K, V>(ops: seq<Timed<K, V>>, o: Timed<K, V>, s: seq<Entry<K, V>>)
    requires Remembered(ops, s) && forall i :: 0 <= i < |s| ==> !Uses(o.0, s[i].key) && !Deletes(o.0, s[i].key)
    ensures Remembered(ops + [o], s)
    ensures forall i :: 0 <= i < |s| ==> LastUse(ops + [o], s[i].key) < |ops|
  {
    hide LastUse, LastSet, LastDel, Recalls, Uses, Deletes;
    forall i | 0 <= i < |s|
      ensures Recalls(ops + [o], s[i]) && LastUse(ops + [o], s[i].key) == LastUse(ops, s[i].key)
    {
      RecallsNext(ops, o, s[i]);
    }
  }

  /** An entry used last comes last. */
  lemma {:induction false} UsedLast<K, V>(ops: seq<Timed<K, V>>, s: seq<Entry<K, V>>, e: Entry<K, V>)
    requires Remembered(ops, s) && Recalls(ops, e) && forall i :: 0 <= i < |s| ==> LastUse(ops, s[i].key) < LastUse(ops, e.key)
    ensures Remembered(ops, s + [e])
  {
    hide LastUse, Recalls;
  }

  lemma {:induction false} RemovedAt<K, V>(s: seq<Entry<K, V>>, p: nat)
    requires p < |s| && forall i :: 0 <= i < |s| && i != p ==> s[i].key != s[p].key
    ensures Removed(s, s[p].key) == s[..p] + s[p + 1..]
    decreases p
  {
    if p == 0 {
      RemovedNothing(s[1..], s[0].key);
      assert s[..0] + s[1..] == s[1..];
    } else {
      RemovedAt(s[1..], p - 1);
      assert s[..p] + s[p + 1..] == [s[0]] + (s[1..][..p - 1] + s[1..][p..]);
    }
  }

  lemma {:induction false} RemovedNothing<K, V>(s: seq<Entry<K, V>>, key: K)
    requires forall i :: 0 <= i < |s| ==> s[i].key != key
    ensures Removed(s, key) == s && Find(s, key).None?
    decreases |s|
  {
    if s != [] {
      RemovedNothing(s[1..], key);
    }
  }

  lemma {:induction false} FindAt<K, V>(s: seq<Entry<K, V>>, p: nat)
    requires p < |s| && forall i :: 0 <= i < p ==> s[i].key != s[p].key
    ensures Find(s, s[p].key) == Some(s[p].value)
    decreases p
  {
    if p > 0 {
      FindAt(s[1..], p - 1);
    }
  }

  /** The entry of a key, if there is one, and what is left without it. */
  lemma {:induction false} Split<K, V>(ops: seq<Timed<K, V>>, s: seq<Entry<K, V>>, key: K) returns (e: Option<Entry<K, V>>)
    requires Remembered(ops, s)
    ensures Remembered(ops, Removed(s, key)) && (forall i :: 0 <= i < |Removed(s, key)| ==> Removed(s, key)[i].key != key)
    ensures e.Some? ==> e.value.key == key && Recalls(ops, e.value) && Find(s, key) == Some(e.value.value)
    ensures e.None? ==> Find(s, key).None? && Removed(s, key) == s
  {
    hide LastUse, Recalls, Find, Removed;
    if p :| 0 <= p < |s| && s[p].key == key {
      assert forall i :: 0 <= i < |s| && i != p ==> LastUse(ops, s[i].key) != LastUse(ops, key);
      RemovedAt(s, p);
      FindAt(s, p);
      var rest := Removed(s, key);
      assert forall i :: 0 <= i < |rest| ==> rest[i] == if i < p then s[i] else s[i + 1];
      e := Some(s[p]);
    } else {
      RemovedNothing(s, key);
      e := None;
    }
  }

  /** A key that was just used, with the value it was last given, stands behind all others. */
  lemma {:induction false} PutIsRemembered<K, V>(ops: seq<Timed<K, V>>, o: Timed<K, V>, s: seq<Entry<K, V>>, key: K, value: V)
    requires Remembered(ops, s) && Uses(o.0, key)
    requires if o.0.SetOp? then value == o.0.value else LastSet(ops, key) >= 0 && LastDel(ops, key) < LastSet(ops, key)
                                                        && value == ops[LastSet(ops, key)].0.value
    ensures Remembered(ops + [o], Put(s, key, value, o.1))
  {
    hide Remembered, Removed, LastUse, LastSet, LastDel, Find;
    var _ := Split(ops, s, key);
    var rest, e := Removed(s, key), Entry(key, o.1, value);
    OthersStay(ops, o, rest);
    HistoryNext(ops, o, key);
    UsedLast(ops + [o], rest, e);
  }

  lemma {:induction false} SuffixIsRemembered<K, V>(ops: seq<Timed<K, V>>, s: seq<Entry<K, V>>, m: nat)
    requires Remembered(ops, s) && m <= |s|
    ensures Remembered(ops, s[m..])
  {
    hide LastUse, Recalls;
  }

  lemma {:induction false} StepIsRemembered<K, V>(ops: seq<Timed<K, V>>, s: seq<Entry<K, V>>, o: Timed<K, V>, timeout: real)
    requires Remembered(ops, s)
    ensures Remembered(ops + [o], Applied(s, o.0, timeout, o.1))
  {
    hide Remembered, Removed, LastUse, LastSet, LastDel, SweepLength, ClearLength, Put;
    match o.0
    case GetOp(key) =>
      var e := Split(ops, s, key);
      if e.Some? {
        PutIsRemembered(ops, o, s, key, e.value.value);
      } else {
        OthersStay(ops, o, s);
      }
    case SetOp(key, value) => PutIsRemembered(ops, o, s, key, value);
    case DelOp(key) =>
      var _ := Split(ops, s, key);
      OthersStay(ops, o, Removed(s, key));
    case SweepOp(count) =>
      OthersStay(ops, o, s);
      SuffixIsRemembered(ops + [o], s, SweepLength(s, o.1, timeout, count));
    case ClearOp(keep) =>
      OthersStay(ops, o, s);
      SuffixIsRemembered(ops + [o], s, ClearLength(s, keep));
  }

  // ----- whole runs

  lemma {:induction false} RunNext<K, V>(s: seq<Entry<K, V>>, ops: seq<Timed<K, V>>, o: Timed<K, V>, timeout: real)
    ensures RunEnd(s, ops + [o], timeout) == Applied(RunEnd(s, ops, timeout), o.0, timeout, o.1)
    decreases |ops|
  {
    hide Applied;
    var all := ops + [o];
    if ops == [] {
      assert all == [o];
    } else {
      assert all[0] == ops[0] && all[1..] == ops[1..] + [o];
      RunNext(Applied(s, ops[0].0, timeout, ops[0].1), ops[1..], o, timeout);
    }
  }

  /** After every run of operations from an empty cache, every entry has the value last set, which was not deleted
      since, and the time of the last use, and the entries stand in the order of their last use. */
  lemma {:induction false} CacheIsHistory<K, V>(ops: seq<Timed<K, V>>, timeout: real)
    ensures Remembered(ops, RunEnd([], ops, timeout))
    decreases |ops|
  {
    hide Remembered, RunEnd, Applied;
    if ops == [] {
      EmptyIsRemembered<K, V>(timeout);
    } else {
      var before, o := ops[..|ops| - 1], ops[|ops| - 1];
      CacheIsHistory(before, timeout);
      StepIsRemembered(before, RunEnd([], before, timeout), o, timeout);
      RunNext([], before, o, timeout);
      assert before + [o] == ops;
    }
  }

  lemma {:induction false} EmptyIsRemembered<K, V>(timeout: real)
    ensures Remembered([], RunEnd<K, V>([], [], timeout))
  {
  }

  /** Without sweeps and clears, a key is found if and only if it was set after it was last deleted. */
  lemma {:induction false} FoundExactly<K, V>(ops: seq<Timed<K, V>>, timeout: real, key: K)
    requires forall i :: 0 <= i < |ops| ==> !ops[i].0.SweepOp? && !ops[i].0.ClearOp?
    ensures Find(RunEnd([], ops, timeout), key).Some? <==> LastSet(ops, key) > LastDel(ops, key)
    decreases |ops|
  {
    if ops != [] {
      hide RunEnd, LastSet, LastDel, Find, Removed;
      var before, o := ops[..|ops| - 1], ops[|ops| - 1];
      assert before + [o] == ops;
      FoundExactly(before, timeout, key);
      HistoryNext(before, o, key);
      RunNext([], before, o, timeout);
      StepFinds(RunEnd([], before, timeout), o, timeout, key);
    }
  }

  lemma {:induction false} StepFinds<K, V>(s: seq<Entry<K, V>>, o: Timed<K, V>, timeout: real, key: K)
    requires !o.0.SweepOp? && !o.0.ClearOp?
    ensures Find(Applied(s, o.0, timeout, o.1), key).Some? <==>
            Sets(o.0, key) || (Find(s, key).Some? && !Deletes(o.0, key))
  {
    hide Find, Removed;
    if o.0.GetOp? || o.0.SetOp? || o.0.DelOp? {
      FindRemoved(s, o.0.key);
      if key != o.0.key {
        FindElsewhere(s, o.0.key, key);
      }
    }
    if o.0.SetOp? {
      FindSnoc(Removed(s, o.0.key), Entry(o.0.key, o.1, o.0.value), key);
    } else if o.0.GetOp? && Find(s, o.0.key).Some? {
      FindSnoc(Removed(s, o.0.key), Entry(o.0.key, o.1, Find(s, o.0.key).value), key);
    }
  }

  /** At the end of a run under a clock that does not run back, a sweep that its limit does not cut off leaves
      exactly the entries that are young enough. */
  lemma {:induction false} SweptRun<K, V>(ops: seq<Timed<K, V>>, timeout: real, start: real, now: real, count: nat)
    requires Monotone(ops, start) && EndTime(ops, start) <= now
    requires SweepLength(RunEnd([], ops, timeout), now, timeout, count) < count
    ensures RunEnd([], ops + [(SweepOp(count), now)], timeout) == Young(RunEnd([], ops, timeout), now, timeout)
  {
    hide RunEnd, SweepLength, Young;
    var s := RunEnd([], ops, timeout);
    RunKeepsAge([], ops, timeout, start);
    LaterKeepsAge(s, EndTime(ops, start), now);
    SweepIsExact(s, now, timeout, count);
    RunNext([], ops, (SweepOp(count), now), timeout);
  }

  /** A clear leaves the entries used last, as many as it is to keep. */
  lemma {:induction false} ClearedRun<K, V>(ops: seq<Timed<K, V>>, timeout: real, now: real, keep: nat)
    ensures var s, t := RunEnd([], ops, timeout), RunEnd([], ops + [(ClearOp(keep), now)], timeout);
            && |t| == (if |s| < keep then |s| else keep)
            && t == s[|s| - |t|..]
  {
    hide RunEnd, Applied;
    RunNext([], ops, (ClearOp(keep), now), timeout);
    ClearedStep(RunEnd([], ops, timeout), timeout, now, keep);
  }

  lemma {:induction false} ClearedStep<K, V>(s: seq<Entry<K, V>>, timeout: real, now: real, keep: nat)
    ensures var t := Applied(s, ClearOp(keep), timeout, now);
            |t| == (if |s| < keep then |s| else keep) && t == s[|s| - |t|..]
  {
  }
}
