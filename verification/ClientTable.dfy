/**
  The per-user table of clients (obfs_auth_chain_data.insert and its copies in auth.py): which client
  gets a window, and which one is evicted for it. The windows themselves are an arbitrary type.
*/
module ClientTable {
  import opened Containers
  import opened OrderedDictionary
  import opened LruCache

  /** The operations of a client's window that the table uses. */
  datatype Queues<!Q> = Queues(
    enabled: Q -> bool,
    active: (Q, real) -> bool,
    create: (int, real) -> Q,
    reEnable: (Q, int) -> Q,
    insert: (Q, int, real) -> (bool, Q))

  type Table<Q> = seq<Entry<int, Q>>

  ghost predicate OneEach<Q>(s: Table<Q>) {
    s == [] || (Find(s[1..], s[0].key).None? && OneEach(s[1..]))
  }

  /** Give `client` a fresh or re-enabled window and offer it the id. */
  function Admit<Q>(ops: Queues<Q>, s: Table<Q>, client: int, id: int, now: real): (bool, Table<Q>) {
    var q := match Find(s, client) case None => ops.create(id, now) case Some(q) => ops.reEnable(q, id);
    var r := ops.insert(q, id, now);
    (r.0, Put(s, client, r.1, now))
  }

  /** The eviction: look at the oldest client, which moves it to the end, then delete the oldest. */
  function Evicted<Q>(s: Table<Q>, now: real): Table<Q>
    requires s != []
  {
    var looked := Touched(s, s[0].key, now);
    if looked == [] then [] else Removed(looked, looked[0].key)
  }

  function Insert<Q>(ops: Queues<Q>, s: Table<Q>, client: int, id: int, now: real, maxClient: nat): (bool, Table<Q>) {
    var found := Find(s, client);
    var t := Touched(s, client, now);
    if found.Some? && ops.enabled(found.value) then
      var r := ops.insert(found.value, id, now);
      (r.0, Put(t, client, r.1, now))
    else if t == [] || |t| < maxClient then Admit(ops, t, client, id, now)
    else if !ops.active(t[0].value, now) then Admit(ops, Evicted(t, now), client, id, now)
    else (false, Touched(t, t[0].key, now))
  }

  // ----- what the list operations do to the size

  lemma {:induction false} RemovedAbsent<Q>(s: Table<Q>, k: int)
    requires Find(s, k).None?
    ensures Removed(s, k) == s
    decreases |s|
  {
    if s != [] {
      RemovedAbsent(s[1..], k);
    }
  }

  lemma {:induction false} RemovedSize<Q>(s: Table<Q>, k: int)
    requires OneEach(s)
    ensures |Removed(s, k)| == |s| - (if Find(s, k).Some? then 1 else 0)
    ensures OneEach(Removed(s, k)) && Find(Removed(s, k), k).None?
    decreases |s|
  {
    if s != [] {
      RemovedSize(s[1..], k);
      if s[0].key == k {
        RemovedAbsent(s[1..], k);
      } else {
        FindElsewhere(s[1..], k, s[0].key);
        assert Removed(s, k)[1..] == Removed(s[1..], k);
      }
    }
  }

  lemma {:induction false} SnocSize<Q>(s: Table<Q>, e: Entry<int, Q>)
    requires OneEach(s) && Find(s, e.key).None?
    ensures OneEach(s + [e])
    decreases |s|
  {
    if s == [] {
      assert s + [e] == [e];
      assert [e][1..] == [];
    } else {
      SnocSize(s[1..], e);
      assert (s + [e])[1..] == s[1..] + [e];
      FindSnoc(s[1..], e, s[0].key);
    }
  }

  lemma {:induction false} PutSize<Q>(s: Table<Q>, k: int, q: Q, now: real)
    requires OneEach(s)
    ensures OneEach(Put(s, k, q, now))
    ensures |Put(s, k, q, now)| == |s| + (if Find(s, k).Some? then 0 else 1)
  {
    RemovedSize(s, k);
    SnocSize(Removed(s, k), Entry(k, now, q));
  }

  /** Looking at a client does not change how many there are. */
  lemma {:induction false} TouchedSize<Q>(s: Table<Q>, k: int, now: real)
    requires OneEach(s)
    ensures OneEach(Touched(s, k, now)) && |Touched(s, k, now)| == |s|
  {
    if Find(s, k).Some? {
      PutSize(s, k, Find(s, k).value, now);
    }
  }

  /** An eviction takes out exactly one client: the oldest if it is alone, otherwise the one after it,
      because looking at the oldest has just moved it to the end. */
  lemma {:induction false} EvictsTheNext<Q>(s: Table<Q>, now: real)
    requires OneEach(s) && s != []
    ensures OneEach(Evicted(s, now)) && |Evicted(s, now)| == |s| - 1
    ensures |s| == 1 ==> Evicted(s, now) == []
    ensures |s| >= 2 ==> Evicted(s, now) == s[2..] + [Entry(s[0].key, now, s[0].value)]
  {
    RemovedAbsent(s[1..], s[0].key);
    var e := Entry(s[0].key, now, s[0].value);
    var looked := Touched(s, s[0].key, now);
    assert looked == s[1..] + [e];
    TouchedSize(s, s[0].key, now);
    RemovedSize(looked, looked[0].key);
    RemovedAbsent(looked[1..], looked[0].key);
    assert Removed(looked, looked[0].key) == looked[1..];
    if |s| >= 2 {
      assert looked[1..] == s[2..] + [e];
    }
  }

  /** The table evicts the client whose inactivity it tested exactly when that client is alone in it. */
  lemma {:induction false} EvictionTargetExact<Q>(s: Table<Q>, now: real)
    requires OneEach(s) && s != []
    ensures Find(Evicted(s, now), s[0].key).None? <==> |s| == 1
  {
    EvictsTheNext(s, now);
    if |s| >= 2 {
      FindSnoc(s[2..], Entry(s[0].key, now, s[0].value), s[0].key);
    }
  }

  /** Two clients, the older one tested: the younger one goes. */
  lemma {:induction false} EvictionCounterexample()
    ensures var older, younger := Entry(1, 0.0, "inactive"), Entry(2, 5.0, "active");
            Evicted([older, younger], 9.0) == [Entry(1, 9.0, "inactive")]
  {
    var older, younger := Entry(1, 0.0, "inactive"), Entry(2, 5.0, "active");
    assert Removed([younger], 1) == [younger];
    assert Touched([older, younger], 1, 9.0) == [younger, Entry(1, 9.0, "inactive")];
    assert Removed([Entry(1, 9.0, "inactive")], 2) == [Entry(1, 9.0, "inactive")];
  }

  function Limit(maxClient: nat): nat {
    if maxClient == 0 then 1 else maxClient
  }

  lemma {:induction false} AdmitSize<Q>(ops: Queues<Q>, s: Table<Q>, client: int, id: int, now: real)
    requires OneEach(s)
    ensures OneEach(Admit(ops, s, client, id, now).1) && |Admit(ops, s, client, id, now).1| <= |s| + 1
  {
    var q := match Find(s, client) case None => ops.create(id, now) case Some(q) => ops.reEnable(q, id);
    PutSize(s, client, ops.insert(q, id, now).1, now);
  }

  /** Whatever is offered, no client is listed twice and the table never outgrows its limit. */
  lemma {:induction false} TableStaysSmall<Q>(ops: Queues<Q>, s: Table<Q>, client: int, id: int, now: real, maxClient: nat)
    requires OneEach(s) && |s| <= Limit(maxClient)
    ensures var r := Insert(ops, s, client, id, now, maxClient).1; OneEach(r) && |r| <= Limit(maxClient)
  {
    hide Touched, Put, Evicted, Admit;
    var found, t := Find(s, client), Touched(s, client, now);
    TouchedSize(s, client, now);
    if found.Some? && ops.enabled(found.value) {
      FindTouched(s, client, now);
      PutSize(t, client, ops.insert(found.value, id, now).1, now);
    } else if t == [] || |t| < maxClient {
      AdmitSize(ops, t, client, id, now);
    } else if !ops.active(t[0].value, now) {
      EvictsTheNext(t, now);
      AdmitSize(ops, Evicted(t, now), client, id, now);
    } else {
      TouchedSize(t, t[0].key, now);
    }
  }

  lemma {:induction false} FindTouched<Q>(s: Table<Q>, k: int, now: real)
    requires OneEach(s)
    ensures Find(Touched(s, k, now), k) == Find(s, k)
  {
    if Find(s, k).Some? {
      RemovedSize(s, k);
      FindSnoc(Removed(s, k), Entry(k, now, Find(s, k).value), k);
    }
  }

  // ----- whole runs

  datatype Offer = Offer(client: int, id: int, now: real)

  function RunEnd<Q>(ops: Queues<Q>, s: Table<Q>, offers: seq<Offer>, maxClient: nat): Table<Q>
    decreases |offers|
  {
    if offers == [] then s
    else RunEnd(ops, Insert(ops, s, offers[0].client, offers[0].id, offers[0].now, maxClient).1, offers[1..], maxClient)
  }

  /** A run ends where its last offer leads from the end of the offers before it. */
  lemma {:induction false} RunFollows<Q>(ops: Queues<Q>, s: Table<Q>, offers: seq<Offer>, last: Offer, maxClient: nat)
    ensures RunEnd(ops, s, [], maxClient) == s
    ensures RunEnd(ops, s, offers + [last], maxClient) ==
            Insert(ops, RunEnd(ops, s, offers, maxClient), last.client, last.id, last.now, maxClient).1
    decreases |offers|
  {
    hide Insert;
    var all := offers + [last];
    if offers == [] {
      assert all == [last];
    } else {
      assert all[0] == offers[0] && all[1..] == offers[1..] + [last];
      RunFollows(ops, Insert(ops, s, all[0].client, all[0].id, all[0].now, maxClient).1, offers[1..], last, maxClient);
    }
  }

  /** Over every run of insertions no client is listed twice and the table stays within
      its limit. */
  lemma {:induction false} EveryRunStaysSmall<Q>(ops: Queues<Q>, s: Table<Q>, offers: seq<Offer>, maxClient: nat)
    requires OneEach(s) && |s| <= Limit(maxClient)
    ensures OneEach(RunEnd(ops, s, offers, maxClient)) && |RunEnd(ops, s, offers, maxClient)| <= Limit(maxClient)
    decreases |offers|
  {
    hide Insert, OneEach;
    if offers != [] {
      var o := offers[0];
      TableStaysSmall(ops, s, o.client, o.id, o.now, maxClient);
      EveryRunStaysSmall(ops, Insert(ops, s, o.client, o.id, o.now, maxClient).1, offers[1..], maxClient);
    }
  }
}
