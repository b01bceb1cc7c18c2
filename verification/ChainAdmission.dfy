/**
  Who is let in: the handshake's time stamp test and the table of windows behind it, and what becomes of a
  handshake that is sent a second time.
*/
module ChainAdmission {
  import opened Binary
  import opened Containers
  import opened LruCache
  import opened ConnectionWindow
  import T = ClientTable
  import S = ChainSession

  type Sound = w: Window | Bounded(w) witness FreshAt(0)

  /** A client's queue as a value; auth_chain counts the connections that hold it. */
  datatype Queue = Queue(window: Sound, enable: bool, lastUpdate: real, refs: nat)

  predicate Active(q: Queue, now: real) {
    q.refs > 0 && now - q.lastUpdate < 600.0
  }

  function InsertId(q: Queue, id: int, now: real): (bool, Queue) {
    if !q.enable then (false, q)
    else
      var w: Sound := if Active(q, now) then q.window else FreshAt(id);
      if Admits(w, id) then (true, q.(window := KeepBounded(w, id), lastUpdate := now, refs := q.refs + 1))
      else (false, q.(window := w, lastUpdate := now))
  }

  const OPS: T.Queues<Queue> := T.Queues(
    (q: Queue) => q.enable,
    Active,
    (id: int, now: real) => Queue(FreshAt(id), true, now, 0),
    (q: Queue, id: int) => q.(enable := true, window := FreshAt(id)),
    InsertId)

  type Table = T.Table<Queue>

  /** What happens to a user's table: handshakes, and connections that end. */
  datatype Event = Offered(client: int, id: int, now: real) | Released(client: int, now: real)

  function Apply(s: Table, e: Event, maxClient: nat): Table {
    match e
    case Offered(client, id, now) => T.Insert(OPS, s, client, id, now, maxClient).1
    case Released(client, now) =>
      match Find(s, client)
      case None => s
      case Some(q) => Put(s, client, if q.refs > 0 then q.(refs := q.refs - 1) else q, now)
  }

  // ----- what a queue remembers

  /** The queue has accepted the id since it was last enabled. */
  ghost predicate Remembers(q: Queue, id: int) {
    exists begin, acc :: Closed(q.window, begin, acc) && id in acc
  }

  /** Every queue is in the closed form of some accepted set; nothing ever disables one. */
  ghost predicate Sane(q: Queue) {
    q.enable && exists begin, acc :: Closed(q.window, begin, acc)
  }

  ghost predicate Orderly(s: Table) {
    T.OneEach(s) && forall c :: Find(s, c).Some? ==> Sane(Find(s, c).value)
  }

  function Created(id: int, now: real): Queue {
    Queue(FreshAt(id), true, now, 0)
  }

  lemma {:induction false} CreatedIsSane(id: int, now: real)
    ensures Sane(Created(id, now))
  {
    FreshIsClosed(id);
  }

  lemma {:induction false} InsertIsSane(q: Queue, id: int, now: real)
    requires Sane(q)
    ensures Sane(InsertId(q, id, now).1)
    ensures InsertId(q, id, now).0 ==> Remembers(InsertId(q, id, now).1, id)
  {
    hide Closed, Compact;
    var w: Window := if Active(q, now) then q.window else FreshAt(id);
    FreshIsClosed(id);
    var begin, acc :| Closed(w, begin, acc);
    if Admits(w, id) {
      InsertCloses(w, begin, acc, id);
      assert id in acc + {id};
    }
  }

  /** While the queue is active, what it remembers is refused and stays remembered. */
  lemma {:induction false} StillRemembers(q: Queue, past: int, id: int, now: real)
    requires Sane(q) && Remembers(q, past) && Active(q, now)
    ensures Remembers(InsertId(q, id, now).1, past)
    ensures past == id ==> !InsertId(q, id, now).0
  {
    hide Closed, Compact;
    var begin, acc :| Closed(q.window, begin, acc) && past in acc;
    AdmitsExactly(q.window, begin, acc, id);
    if Admits(q.window, id) {
      InsertCloses(q.window, begin, acc, id);
      assert past in acc + {id};
    }
  }

  /** A new client is let in at once. */
  lemma {:induction false} CreatedAdmits(id: int, now: real)
    ensures InsertId(Created(id, now), id, now).0
  {
  }

  function ValueOf(q: ClientQueue): Queue
    requires Bounded(q.Now())
    reads q
  {
    Queue(q.Now(), q.enable, q.lastUpdate, q.refs)
  }

  /** The object of auth_chain, which counts its connections and lives for ten minutes, follows the value. */
  method InsertOnObject(q: ClientQueue, id: int, now: real) returns (ok: bool)
    requires q.Valid() && q.counted && q.lifetime == 600.0
    modifies q
    ensures q.Valid() && Bounded(q.Now()) && Bounded(old(q.Now()))
    ensures (ok, ValueOf(q)) == InsertId(old(ValueOf(q)), id, now)
  {
    hide Closed, Compact;
    ClosedIsBounded(q.Now(), q.begin, q.accepted);
    ghost var was, w := ValueOf(q), if q.IsActive(now) then q.Now() else FreshAt(id);
    ghost var begin, acc := if q.IsActive(now) then q.begin else id, if q.IsActive(now) then q.accepted else {};
    FreshIsClosed(id);
    AdmitsExactly(w, begin, acc, id);
    if Admits(w, id) {
      InsertCloses(w, begin, acc, id);
    }
    ok := q.Insert(id, now);
    ClosedIsBounded(q.Now(), q.begin, q.accepted);
    if was.enable {
      ClosedIsUnique(q.Now(), if ok then Inserted(w, id) else w, begin, q.accepted);
    }
  }

  // ----- where a client's queue is found

  lemma {:induction false} FindPut(s: Table, k: int, q: Queue, now: real, c: int)
    requires T.OneEach(s)
    ensures Find(Put(s, k, q, now), c) == if c == k then Some(q) else Find(s, c)
  {
    T.RemovedSize(s, k);
    FindSnoc(Removed(s, k), Entry(k, now, q), c);
    if c != k {
      FindElsewhere(s, k, c);
    }
  }

  lemma {:induction false} FindTouchedAny(s: Table, k: int, now: real, c: int)
    requires T.OneEach(s)
    ensures Find(Touched(s, k, now), c) == Find(s, c)
  {
    if Find(s, k).Some? {
      FindPut(s, k, Find(s, k).value, now, c);
    }
  }

  lemma {:induction false} FindEvicted(s: Table, now: real, c: int)
    requires T.OneEach(s) && s != []
    ensures T.OneEach(T.Evicted(s, now))
    ensures Find(T.Evicted(s, now), c).Some? ==> Find(T.Evicted(s, now), c) == Find(s, c)
  {
    T.EvictsTheNext(s, now);
    var looked := Touched(s, s[0].key, now);
    T.TouchedSize(s, s[0].key, now);
    FindTouchedAny(s, s[0].key, now, c);
    if looked != [] {
      T.RemovedSize(looked, looked[0].key);
      if c != looked[0].key {
        FindElsewhere(looked, looked[0].key, c);
      }
    }
  }

  /** The queue that an offered id is put to. */
  function Asked(s: Table, client: int, id: int, now: real): Queue {
    match Find(s, client)
    case Some(q) => q
    case None => Created(id, now)
  }

  /** An insertion: the client's queue decides, or a new client finds no room; other queues are left alone or
      evicted. */
  lemma {:induction false} FindInsert(s: Table, client: int, id: int, now: real, maxClient: nat, c: int)
    requires Orderly(s)
    ensures var r := T.Insert(OPS, s, client, id, now, maxClient);
            && T.OneEach(r.1)
            && (c != client && Find(r.1, c).Some? ==> Find(r.1, c) == Find(s, c))
            && (|| (Find(s, client).None? && Find(r.1, client).None? && !r.0)
                || (Find(r.1, client) == Some(InsertId(Asked(s, client, id, now), id, now).1)
                    && r.0 == InsertId(Asked(s, client, id, now), id, now).0))
  {
    hide InsertId, Touched, Put, T.Evicted, T.OneEach, FreshAt, T.Admit, Sane;
    var found, t := Find(s, client), Touched(s, client, now);
    T.TouchedSize(s, client, now);
    FindTouchedAny(s, client, now, c);
    FindTouchedAny(s, client, now, client);
    if found.Some? {
      SaneIsEnabled(found.value);
      var q := InsertId(found.value, id, now).1;
      FindPut(t, client, q, now, c);
      FindPut(t, client, q, now, client);
      T.PutSize(t, client, q, now);
    } else if t == [] || |t| < maxClient {
      AdmitFinds(t, client, id, now, c);
    } else if !Active(t[0].value, now) {
      FindEvicted(t, now, c);
      FindEvicted(t, now, client);
      AdmitFinds(T.Evicted(t, now), client, id, now, c);
    } else {
      T.TouchedSize(t, t[0].key, now);
      FindTouchedAny(t, t[0].key, now, c);
      FindTouchedAny(t, t[0].key, now, client);
    }
  }

  lemma {:induction false} SaneIsEnabled(q: Queue)
    requires Sane(q)
    ensures q.enable && OPS.enabled(q)
  {
  }

  lemma {:induction false} AdmitFinds(s: Table, client: int, id: int, now: real, c: int)
    requires T.OneEach(s) && Find(s, client).None?
    ensures var r := T.Admit(OPS, s, client, id, now);
            && T.OneEach(r.1) && (c != client ==> Find(r.1, c) == Find(s, c))
            && r.0 == InsertId(Created(id, now), id, now).0
            && Find(r.1, client) == Some(InsertId(Created(id, now), id, now).1)
  {
    hide InsertId, Put, T.OneEach;
    var q := InsertId(Created(id, now), id, now).1;
    FindPut(s, client, q, now, c);
    FindPut(s, client, q, now, client);
    T.PutSize(s, client, q, now);
  }

  lemma {:induction false} ApplyIsOrderly(s: Table, e: Event, maxClient: nat)
    requires Orderly(s)
    ensures Orderly(Apply(s, e, maxClient))
  {
    hide InsertId, T.OneEach, T.Insert, Put;
    var t := Apply(s, e, maxClient);
    match e {
      case Offered(client, id, now) =>
        CreatedIsSane(id, now);
        InsertIsSane(Asked(s, client, id, now), id, now);
        FindInsert(s, client, id, now, maxClient, client);
        forall c | Find(t, c).Some?
          ensures Sane(Find(t, c).value)
        {
          FindInsert(s, client, id, now, maxClient, c);
        }
      case Released(client, now) =>
        if Find(s, client).Some? {
          var q := Find(s, client).value;
          var less := if q.refs > 0 then q.(refs := q.refs - 1) else q;
          T.PutSize(s, client, less, now);
          forall c | Find(t, c).Some?
            ensures Sane(Find(t, c).value)
          {
            FindPut(s, client, less, now, c);
          }
        }
    }
  }

  // ----- who is admitted

  /** A client with an active window is admitted if and only if the id is new and lies in the window. */
  lemma {:induction false} AdmittedExactlyBy(
      s: Table, c: int, id: int, now: real, maxClient: nat, begin: int, acc: set<int>)
    requires Orderly(s) && Find(s, c).Some? && Active(Find(s, c).value, now)
    requires Closed(Find(s, c).value.window, begin, acc)
    ensures var w := Find(s, c).value.window;
            T.Insert(OPS, s, c, id, now, maxClient).0 <==> id !in acc && Low(begin, w.back) <= id <= w.front + 0x4000
  {
    hide Closed, Compact, T.Insert;
    FindInsert(s, c, id, now, maxClient, c);
    SaneIsEnabled(Find(s, c).value);
    AdmitsExactly(Find(s, c).value.window, begin, acc, id);
  }

  /** A client whose window is not active starts afresh, with any id. */
  lemma {:induction false} InactiveIsAdmitted(s: Table, c: int, id: int, now: real, maxClient: nat)
    requires Orderly(s) && Find(s, c).Some?
    requires var q := Find(s, c).value; q.refs == 0 || now - q.lastUpdate >= 600.0
    ensures T.Insert(OPS, s, c, id, now, maxClient).0
  {
    hide Closed, Compact, T.Insert;
    FindInsert(s, c, id, now, maxClient, c);
    SaneIsEnabled(Find(s, c).value);
  }

  /** A client that is not in the table is admitted, whatever its id, if and only if there is room or the oldest
      client is inactive. */
  lemma {:induction false} NewcomerIsAdmitted(s: Table, c: int, id: int, now: real, maxClient: nat)
    requires Orderly(s) && Find(s, c).None?
    ensures T.Insert(OPS, s, c, id, now, maxClient).0 <==>
            s == [] || |s| < maxClient || !(s[0].value.refs > 0 && now - s[0].value.lastUpdate < 600.0)
  {
    hide InsertId, T.OneEach, T.Evicted, T.Admit;
    CreatedAdmits(id, now);
    if s == [] || |s| < maxClient {
      AdmitFinds(s, c, id, now, c);
    } else if !Active(s[0].value, now) {
      FindEvicted(s, now, c);
      AdmitFinds(T.Evicted(s, now), c, id, now, c);
    }
  }

  // ----- replays

  /** The client's queue is in the table and remembers the id. */
  ghost predicate Held(s: Table, c: int, id: int) {
    Orderly(s) && Find(s, c).Some? && Remembers(Find(s, c).value, id)
  }

  /** The event leaves the client in the table, and finds its queue active if it concerns it. */
  ghost predicate Undisturbed(s: Table, e: Event, c: int, maxClient: nat) {
    && Find(Apply(s, e, maxClient), c).Some?
    && (e.Offered? && e.client == c && Find(s, c).Some? ==> Active(Find(s, c).value, e.now))
  }

  lemma {:induction false} ApplyHolds(s: Table, e: Event, c: int, id: int, maxClient: nat)
    requires Held(s, c, id) && Undisturbed(s, e, c, maxClient)
    ensures Held(Apply(s, e, maxClient), c, id)
  {
    hide InsertId, T.OneEach, T.Insert, Put, Closed;
    ApplyIsOrderly(s, e, maxClient);
    match e {
      case Offered(client, offered, now) =>
        FindInsert(s, client, offered, now, maxClient, c);
        if client == c {
          StillRemembers(Find(s, c).value, id, offered, now);
        }
      case Released(client, now) =>
        if Find(s, client).Some? {
          var q := Find(s, client).value;
          FindPut(s, client, if q.refs > 0 then q.(refs := q.refs - 1) else q, now, c);
        }
    }
  }

  function RunEnd(s: Table, events: seq<Event>, maxClient: nat): Table
    decreases |events|
  {
    if events == [] then s else RunEnd(Apply(s, events[0], maxClient), events[1..], maxClient)
  }

  ghost predicate UndisturbedRun(s: Table, events: seq<Event>, c: int, maxClient: nat)
    decreases |events|
  {
    events == [] ||
    (Undisturbed(s, events[0], c, maxClient) && UndisturbedRun(Apply(s, events[0], maxClient), events[1..], c, maxClient))
  }

  lemma {:induction false} RunHolds(s: Table, events: seq<Event>, c: int, id: int, maxClient: nat)
    requires Held(s, c, id) && UndisturbedRun(s, events, c, maxClient)
    ensures Held(RunEnd(s, events, maxClient), c, id)
    decreases |events|
  {
    hide Held, Apply, Undisturbed;
    if events != [] {
      ApplyHolds(s, events[0], c, id, maxClient);
      RunHolds(Apply(s, events[0], maxClient), events[1..], c, id, maxClient);
    }
  }

  /** An id that was accepted once is refused after any run that leaves the client's window alone or active,
      as long as the window is active when the id comes back. */
  lemma {:induction false} ReplayIsRefused(
      s: Table, c: int, id: int, now: real, events: seq<Event>, later: real, maxClient: nat)
    requires Orderly(s) && T.Insert(OPS, s, c, id, now, maxClient).0
    requires var t := Apply(s, Offered(c, id, now), maxClient);
             && UndisturbedRun(t, events, c, maxClient)
             && var end := RunEnd(t, events, maxClient);
             Find(end, c).Some? ==> Active(Find(end, c).value, later)
    ensures var end := RunEnd(Apply(s, Offered(c, id, now), maxClient), events, maxClient);
            !T.Insert(OPS, end, c, id, later, maxClient).0
  {
    hide InsertId, T.OneEach, T.Insert, Put, Closed, Active, UndisturbedRun, RunEnd;
    var t := Apply(s, Offered(c, id, now), maxClient);
    ApplyIsOrderly(s, Offered(c, id, now), maxClient);
    FindInsert(s, c, id, now, maxClient, c);
    CreatedIsSane(id, now);
    InsertIsSane(Asked(s, c, id, now), id, now);
    RunHolds(t, events, c, id, maxClient);
    var end := RunEnd(t, events, maxClient);
    FindInsert(end, c, id, later, maxClient, c);
    StillRemembers(Find(end, c).value, id, id, later);
  }

  // ----- at the handshake

  /** The test a server makes of a decrypted head: the time stamp, and the table of the user. */
  function Door(s: Table, timely: Bytes16 -> bool, now: real, maxClient: nat): (Bytes, Bytes16) -> bool {
    (uid: Bytes, head: Bytes16) =>
      timely(head) && T.Insert(OPS, s, U32le(head[4..8]), U32le(head[8..12]), now, maxClient).0
  }

  /** The head of a handshake, as the server decrypts it. */
  function HeadOf(sv: S.Server, hello: Bytes): Bytes16
    requires |hello| == S.HELLO_LEN
  {
    sv.suite.aesDecrypt(S.HelloPeer(sv, hello).userKey, hello[16..32])
  }

  /** A handshake that was accepted once, sent again byte for byte, is rejected: after any run that leaves the
      client's window alone or active, as long as the window is active when the handshake comes back. */
  lemma {:induction false} ReplayedHelloIsRejected(
      sv: S.Server, hello: Bytes, s: Table, early: Bytes16 -> bool, now: real,
      events: seq<Event>, late: Bytes16 -> bool, later: real, maxClient: nat)
    requires |hello| == S.HELLO_LEN && Orderly(s)
    requires S.HelloAccepted(sv.(admit := Door(s, early, now, maxClient)), hello)
    requires var head := HeadOf(sv, hello);
             var c, id := U32le(head[4..8]), U32le(head[8..12]);
             var t := Apply(s, Offered(c, id, now), maxClient);
             && UndisturbedRun(t, events, c, maxClient)
             && var end := RunEnd(t, events, maxClient);
             Find(end, c).Some? ==> Active(Find(end, c).value, later)
    ensures var head := HeadOf(sv, hello);
            var end := RunEnd(Apply(s, Offered(U32le(head[4..8]), U32le(head[8..12]), now), maxClient), events, maxClient);
            !S.HelloAccepted(sv.(admit := Door(end, late, later, maxClient)), hello)
  {
    hide Apply, T.Insert, UndisturbedRun, RunEnd, Active, U32le, Orderly;
    var head := HeadOf(sv, hello);
    var c, id := U32le(head[4..8]), U32le(head[8..12]);
    var end := RunEnd(Apply(s, Offered(c, id, now), maxClient), events, maxClient);
    SameHead(sv, hello, Door(s, early, now, maxClient));
    SameHead(sv, hello, Door(end, late, later, maxClient));
    ReplayIsRefused(s, c, id, now, events, later, maxClient);
  }

  /** What a handshake says does not depend on who is admitted. */
  lemma {:induction false} SameHead(sv: S.Server, hello: Bytes, admit: (Bytes, Bytes16) -> bool)
    requires |hello| == S.HELLO_LEN
    ensures var sv' := sv.(admit := admit);
            && S.HelloUid(sv', hello) == S.HelloUid(sv, hello) && S.HelloPeer(sv', hello) == S.HelloPeer(sv, hello)
            && (S.HelloAccepted(sv', hello) ==>
                  exists uid :: admit(uid, HeadOf(sv, hello)))
            && ((forall uid :: !admit(uid, HeadOf(sv, hello))) ==> !S.HelloAccepted(sv', hello))
  {
    hide U32le, Le32, Xor32, U16le;
    var sv' := sv.(admit := admit);
    assert S.HelloUid(sv', hello) == S.HelloUid(sv, hello);
    assert forall uid :: sv'.UserKey(uid) == sv.UserKey(uid);
    var uid := if S.HelloUid(sv, hello) in sv.users then S.HelloUid(sv, hello) else [];
    assert S.HelloAccepted(sv', hello) ==> admit(uid, HeadOf(sv, hello));
  }

  /** A timely newcomer with the right key is on matching terms with the server, if its table has room. */
  lemma {:induction false} NewcomerMatches(
      c: S.Client, users: map<Bytes, Bytes>, s: Table, timely: Bytes16 -> bool, now: real, maxClient: nat)
    requires c.Valid() && timely(S.HelloHead(c)) && Orderly(s) && (s == [] || |s| < maxClient)
    requires Find(s, U32le(S.HelloHead(c)[4..8])).None?
    requires forall k: Bytes, b: Bytes16 :: c.suite.aesDecrypt(k, c.suite.aesEncrypt(k, b)) == b
    requires if c.uid in users then users[c.uid] == c.userKey else users == map[] && c.userKey == c.key
    ensures S.Matched(
              c, S.Server(c.suite, c.kind, c.tables, c.overhead, c.key, c.iv, users, Door(s, timely, now, maxClient)))
  {
    hide T.Insert, Orderly;
    var head := S.HelloHead(c);
    NewcomerIsAdmitted(s, U32le(head[4..8]), U32le(head[8..12]), now, maxClient);
    S.TermsMatch(c, users, Door(s, timely, now, maxClient));
  }
}
