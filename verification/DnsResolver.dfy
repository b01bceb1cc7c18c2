/**
  The resolver's book of pending look-ups: which host is asked for in which address family, who waits for
  it, and what the waiters are told. Callbacks do not call the resolver back.
*/
module DnsLookups {
  import opened Binary
  import opened Containers
  import opened DnsCodec
  import opened DnsMessages

  type Host = Bytes
  type Callback = nat

  datatype Family = V4 | V6

  /** `Nothing` stands for no address. */
  type Ip = Payload

  /** What a callback is told. */
  datatype Outcome = Found(ip: Ip) | Literal | Failed | Refused

  datatype Call = Call(callback: Callback, host: Host, outcome: Outcome)

  datatype Query = Query(host: Host, kind: Word16)

  /** Whether this machine can use IPv6, the entries of the hosts file, and the two tests on names. */
  datatype Config = Config(ipv6: bool, hosts: map<Host, Ip>, isIp: Host -> bool, valid: Host -> bool)

  /** The dictionaries of the resolver, the calls it has made and the queries it has sent. */
  datatype State = State(
    status: map<Host, Family>,
    waiters: map<Host, seq<Callback>>,
    owner: map<Callback, Host>,
    cache: map<Host, Ip>,
    calls: seq<Call>,
    sent: seq<Query>)

  datatype Event =
    | Resolve(host: Host, callback: Callback)
    | Receive(reply: Response)
    | Cancel(callback: Callback)
    | Forget(hosts: set<Host>)

  const FRESH := State(map[], map[], map[], map[], [], [])

  function First(cfg: Config): Family {
    if cfg.ipv6 then V6 else V4
  }

  function Second(cfg: Config): Family {
    if cfg.ipv6 then V4 else V6
  }

  function QueryType(f: Family): Word16 {
    if f == V4 then A else AAAA
  }

  // ----- steps

  function Calls(callbacks: seq<Callback>, host: Host, outcome: Outcome): (r: seq<Call>)
    ensures |r| == |callbacks|
  {
    seq(|callbacks|, i requires 0 <= i < |callbacks| => Call(callbacks[i], host, outcome))
  }

  function Waiting(s: State, host: Host): seq<Callback> {
    if host in s.waiters then s.waiters[host] else []
  }

  /** The set of the elements of a list. */
  function Members(list: seq<Callback>): set<Callback> {
    set i | 0 <= i < |list| :: list[i]
  }

  /** Everybody waiting for the host is told, and forgotten. */
  function CallAll(s: State, host: Host, ip: Ip): State {
    var told := if ip == Nothing then Failed else Found(ip);
    s.(calls := s.calls + Calls(Waiting(s, host), host, told),
       owner := s.owner - Members(Waiting(s, host)),
       waiters := s.waiters - {host},
       status := s.status - {host})
  }

  /** The first answer that is an Internet address. */
  function FirstAddress(answers: seq<Entry>): Ip {
    if answers == [] then Nothing
    else if IsAddress(answers[0]) then answers[0].payload
    else FirstAddress(answers[1..])
  }

  predicate IsAddress(answer: Entry) {
    (answer.kind == A || answer.kind == AAAA) && answer.class_ == IN
  }

  predicate Asks(questions: seq<Entry>, kind: Word16) {
    exists i :: 0 <= i < |questions| && questions[i].kind == kind
  }

  function OnReply(cfg: Config, s: State, reply: Response): State {
    if reply.hostname == None || reply.hostname.value == [] then s
    else
      var host, ip := reply.hostname.value, FirstAddress(reply.answers);
      if ip == Nothing && host in s.status && s.status[host] == First(cfg) then
        s.(status := s.status[host := Second(cfg)], sent := s.sent + [Query(host, QueryType(Second(cfg)))])
      else if ip != Nothing then CallAll(s.(cache := s.cache[host := ip]), host, ip)
      else if host in s.status && s.status[host] == Second(cfg) && Asks(reply.questions, QueryType(Second(cfg))) then
        CallAll(s, host, Nothing)
      else s
  }

  /** What is told at once, without asking a server. */
  function AtOnce(cfg: Config, s: State, host: Host): Option<Outcome> {
    if host == [] then Some(Refused)
    else if cfg.isIp(host) then Some(Literal)
    else if host in cfg.hosts then Some(Found(cfg.hosts[host]))
    else if host in s.cache then Some(Found(s.cache[host]))
    else if !cfg.valid(host) then Some(Refused)
    else None
  }

  /** The first to wait for a host opens an episode; only he enters the reverse dictionary. */
  function Enqueue(cfg: Config, s: State, host: Host, callback: Callback): State {
    var asked := s.(sent := s.sent + [Query(host, QueryType(First(cfg)))]);
    if Waiting(s, host) == [] then
      asked.(status := s.status[host := First(cfg)],
             waiters := s.waiters[host := [callback]],
             owner := s.owner[callback := host])
    else asked.(waiters := s.waiters[host := s.waiters[host] + [callback]])
  }

  function OnResolve(cfg: Config, s: State, host: Host, callback: Callback): State {
    match AtOnce(cfg, s, host)
    case Some(outcome) => s.(calls := s.calls + [Call(callback, host, outcome)])
    case None => Enqueue(cfg, s, host, callback)
  }

  /** list.remove: without the first occurrence. */
  function RemoveFirst(list: seq<Callback>, c: Callback): seq<Callback> {
    if list == [] then [] else if list[0] == c then list[1..] else [list[0]] + RemoveFirst(list[1..], c)
  }

  function OnCancel(s: State, callback: Callback): State {
    if callback !in s.owner || s.owner[callback] == [] then s
    else
      var host := s.owner[callback];
      var t := s.(owner := s.owner - {callback});
      if callback !in Waiting(s, host) then t
      else
        var left := RemoveFirst(s.waiters[host], callback);
        if left == [] then t.(waiters := s.waiters - {host}, status := s.status - {host})
        else t.(waiters := s.waiters[host := left])
  }

  function Step(cfg: Config, s: State, e: Event): State {
    match e
    case Resolve(host, callback) => OnResolve(cfg, s, host, callback)
    case Receive(reply) => OnReply(cfg, s, reply)
    case Cancel(callback) => OnCancel(s, callback)
    case Forget(hosts) => s.(cache := s.cache - hosts)
  }

  /** The state after the first `k` events. */
  function After(cfg: Config, events: seq<Event>, k: nat): State
    requires k <= |events|
  {
    if k == 0 then FRESH else Step(cfg, After(cfg, events, k - 1), events[k - 1])
  }

  // ----- the book is consistent

  ghost predicate Pending(s: State, c: Callback) {
    exists h :: h in s.waiters && c in s.waiters[h]
  }

  /** Nobody waits twice, and no list is empty. */
  ghost predicate Orderly(waiters: map<Host, seq<Callback>>) {
    && (forall h :: h in waiters ==> h != [] && waiters[h] != [] && Distinct(waiters[h]))
    && (forall g, h, c :: g in waiters && h in waiters && c in waiters[g] && c in waiters[h] ==> g == h)
  }

  /** The reverse dictionary, as far as it goes, agrees with the lists. */
  ghost predicate Owned(waiters: map<Host, seq<Callback>>, owner: map<Callback, Host>) {
    forall c :: c in owner ==> owner[c] in waiters && c in waiters[owner[c]]
  }

  /** Exactly the hosts with a status have waiters. */
  ghost predicate Consistent(s: State) {
    s.status.Keys == s.waiters.Keys && Orderly(s.waiters) && Owned(s.waiters, s.owner)
  }

  lemma {:induction false} RemoveFirstShape(list: seq<Callback>, c: Callback)
    requires Distinct(list) && c in list
    ensures Distinct(RemoveFirst(list, c))
    ensures forall d :: d in RemoveFirst(list, c) <==> d in list && d != c
    decreases |list|
  {
    if list[0] == c {
      assert forall d :: d in list <==> d == list[0] || d in list[1..];
    } else {
      assert forall d :: d in list <==> d == list[0] || d in list[1..];
      assert forall i, j :: 0 <= i < j < |list[1..]| ==> list[1..][i] == list[i + 1] && list[1..][j] == list[j + 1];
      RemoveFirstShape(list[1..], c);
      var w := RemoveFirst(list[1..], c);
      assert list[0] !in list[1..];
      assert list[0] !in w;
      assert forall d :: d in [list[0]] + w <==> d == list[0] || d in w;
    }
  }

  lemma {:induction false} CallAllConsistent(s: State, host: Host, ip: Ip)
    requires Consistent(s)
    ensures Consistent(CallAll(s, host, ip))
  {
    var t := CallAll(s, host, ip);
    forall c | c in t.owner
      ensures t.owner[c] in t.waiters && c in t.waiters[t.owner[c]]
    {
      assert c !in Members(Waiting(s, host));
    }
  }

  lemma {:induction false} CancelConsistent(s: State, c: Callback)
    requires Consistent(s)
    ensures Consistent(OnCancel(s, c))
  {
    if c in s.owner {
      var host := s.owner[c];
      var left := RemoveFirst(s.waiters[host], c);
      RemoveFirstShape(s.waiters[host], c);
      if left != [] {
        OrderlyPart(s.waiters, host, left);
      }
    }
  }

  lemma {:induction false} OrderlyPart(waiters: map<Host, seq<Callback>>, host: Host, left: seq<Callback>)
    requires Orderly(waiters) && host in waiters && left != [] && Distinct(left)
    requires forall d :: d in left ==> d in waiters[host]
    ensures Orderly(waiters[host := left])
  {
    var now := waiters[host := left];
    assert forall h, d :: h in now && d in now[h] ==> h in waiters && d in waiters[h];
  }

  lemma {:induction false} OrderlyMore(waiters: map<Host, seq<Callback>>, host: Host, list: seq<Callback>, c: Callback)
    requires Orderly(waiters) && host != [] && list == (if host in waiters then waiters[host] else [])
    requires forall h :: h in waiters ==> c !in waiters[h]
    ensures Orderly(waiters[host := list + [c]])
  {
    var now := waiters[host := list + [c]];
    assert forall h, d :: h in now && d in now[h] && d != c ==> h in waiters && d in waiters[h];
    assert forall h :: h in now && c in now[h] ==> h == host;
  }

  lemma {:induction false} EnqueueConsistent(cfg: Config, s: State, host: Host, c: Callback)
    requires Consistent(s) && !Pending(s, c) && host != []
    ensures Consistent(Enqueue(cfg, s, host, c))
  {
    hide Orderly;
    var t := Enqueue(cfg, s, host, c);
    assert t.waiters[host] == Waiting(s, host) + [c];
    assert t.waiters == s.waiters[host := Waiting(s, host) + [c]];
    OrderlyMore(s.waiters, host, Waiting(s, host), c);
    assert host in s.waiters ==> s.waiters[host] != [] by { OrderlyLists(s.waiters); }
  }

  lemma {:induction false} OrderlyLists(waiters: map<Host, seq<Callback>>)
    requires Orderly(waiters)
    ensures forall h :: h in waiters ==> waiters[h] != []
  {
  }

  lemma {:induction false} ResolveConsistent(cfg: Config, s: State, host: Host, c: Callback)
    requires Consistent(s) && !Pending(s, c)
    ensures Consistent(OnResolve(cfg, s, host, c))
  {
    hide Enqueue;
    if host != [] {
      EnqueueConsistent(cfg, s, host, c);
    }
  }

  lemma {:induction false} StepConsistent(cfg: Config, s: State, e: Event)
    requires Consistent(s) && (e.Resolve? ==> !Pending(s, e.callback))
    ensures Consistent(Step(cfg, s, e))
  {
    hide CallAll, OnResolve, OnCancel, Orderly, Owned;
    match e
    case Resolve(host, callback) => ResolveConsistent(cfg, s, host, callback);
    case Receive(reply) =>
      if reply.hostname.Some? {
        var host, ip := reply.hostname.value, FirstAddress(reply.answers);
        CallAllConsistent(s.(cache := s.cache[host := ip]), host, ip);
        CallAllConsistent(s, host, Nothing);
      }
    case Cancel(callback) => CancelConsistent(s, callback);
    case Forget(hosts) =>
  }

  // ----- the fate of every waiter

  function TimesCalled(calls: seq<Call>, c: Callback): nat {
    if calls == [] then 0
    else TimesCalled(calls[..|calls| - 1], c) + (if calls[|calls| - 1].callback == c then 1 else 0)
  }

  lemma {:induction false} TimesCalledAppend(a: seq<Call>, b: seq<Call>, c: Callback)
    ensures TimesCalled(a + b, c) == TimesCalled(a, c) + TimesCalled(b, c)
    decreases |b|
  {
    if b == [] {
      assert a + b == a;
    } else {
      TimesCalledAppend(a, b[..|b| - 1], c);
      assert (a + b)[..|a + b| - 1] == a + b[..|b| - 1];
    }
  }

  lemma {:induction false} CallsOnce(list: seq<Callback>, host: Host, o: Outcome, c: Callback)
    requires Distinct(list)
    ensures TimesCalled(Calls(list, host, o), c) == if c in list then 1 else 0
    decreases |list|
  {
    if list != [] {
      var n := |list| - 1;
      CallsOnce(list[..n], host, o, c);
      assert Calls(list, host, o)[..n] == Calls(list[..n], host, o);
      assert list == list[..n] + [list[n]];
    }
  }

  /** The callbacks handed in so far, and those a cancellation has taken off a list. */
  datatype Trail = Trail(seen: set<Callback>, cancelled: set<Callback>)

  function Track(t: Trail, s: State, e: Event): Trail {
    match e
    case Resolve(_, callback) => t.(seen := t.seen + {callback})
    case Cancel(callback) => if callback in s.owner then t.(cancelled := t.cancelled + {callback}) else t
    case _ => t
  }

  function TrailAfter(cfg: Config, events: seq<Event>, k: nat): Trail
    requires k <= |events|
  {
    if k == 0 then Trail({}, {})
    else Track(TrailAfter(cfg, events, k - 1), After(cfg, events, k - 1), events[k - 1])
  }

  ghost function Fate(s: State, t: Trail, c: Callback): nat {
    (if Pending(s, c) then 1 else 0) + TimesCalled(s.calls, c) + (if c in t.cancelled then 1 else 0)
  }

  /** Whoever was handed in is either pending, or was called once, or was cancelled; nobody else is. */
  ghost predicate Accounted(s: State, t: Trail) {
    forall c :: Fate(s, t, c) == if c in t.seen then 1 else 0
  }

  lemma {:induction false} PendingAfterCallAll(s: State, host: Host, ip: Ip, c: Callback)
    requires Consistent(s)
    ensures Pending(CallAll(s, host, ip), c) <==> Pending(s, c) && c !in Waiting(s, host)
  {
    var t := CallAll(s, host, ip);
    if Pending(s, c) && c !in Waiting(s, host) {
      var h :| h in s.waiters && c in s.waiters[h];
      assert h in t.waiters;
    }
  }

  lemma {:induction false} CallAllAccounted(s: State, t: Trail, host: Host, ip: Ip)
    requires Consistent(s) && Accounted(s, t)
    ensures Accounted(CallAll(s, host, ip), t)
  {
    hide TimesCalled;
    forall c
      ensures Fate(CallAll(s, host, ip), t, c) == if c in t.seen then 1 else 0
    {
      var told := if ip == Nothing then Failed else Found(ip);
      assert Fate(s, t, c) == if c in t.seen then 1 else 0;
      PendingAfterCallAll(s, host, ip, c);
      TimesCalledAppend(s.calls, Calls(Waiting(s, host), host, told), c);
      CallsOnce(Waiting(s, host), host, told, c);
      assert c in Waiting(s, host) ==> Pending(s, c);
    }
  }

  lemma {:induction false} PendingAfterCancel(s: State, b: Callback, c: Callback)
    requires Consistent(s)
    ensures Pending(OnCancel(s, b), c) <==> Pending(s, c) && !(c == b && b in s.owner)
  {
    if b in s.owner {
      var host, t := s.owner[b], OnCancel(s, b);
      RemoveFirstShape(s.waiters[host], b);
      if Pending(s, c) && c != b {
        var h :| h in s.waiters && c in s.waiters[h];
        assert h in t.waiters && c in t.waiters[h];
      }
      if Pending(t, c) {
        var h :| h in t.waiters && c in t.waiters[h];
        assert h in s.waiters && c in s.waiters[h];
      }
    }
  }

  lemma {:induction false} CancelAccounted(s: State, t: Trail, b: Callback)
    requires Consistent(s) && Accounted(s, t)
    ensures Accounted(OnCancel(s, b), Track(t, s, Cancel(b)))
  {
    hide TimesCalled;
    var s', t' := OnCancel(s, b), Track(t, s, Cancel(b));
    forall c
      ensures Fate(s', t', c) == if c in t'.seen then 1 else 0
    {
      assert Fate(s, t, c) == if c in t.seen then 1 else 0;
      PendingAfterCancel(s, b, c);
      assert b in s.owner ==> Pending(s, b);
    }
  }

  lemma {:induction false} PendingAfterEnqueue(cfg: Config, s: State, host: Host, b: Callback, c: Callback)
    ensures Pending(Enqueue(cfg, s, host, b), c) <==> Pending(s, c) || c == b
  {
    var t := Enqueue(cfg, s, host, b);
    assert t.waiters[host] == Waiting(s, host) + [b];
    assert forall d :: d in t.waiters[host] <==> d in Waiting(s, host) || d == b;
    assert forall h :: h in t.waiters && h != host ==> h in s.waiters && t.waiters[h] == s.waiters[h];
    if Pending(s, c) {
      var h :| h in s.waiters && c in s.waiters[h];
      assert h in t.waiters && c in t.waiters[h];
    }
    assert b in t.waiters[host];
    if Pending(t, c) && c != b {
      var h :| h in t.waiters && c in t.waiters[h];
      assert h in s.waiters && c in s.waiters[h];
    }
  }

  lemma {:induction false} PendingAfterResolve(cfg: Config, s: State, host: Host, b: Callback, c: Callback)
    ensures Pending(OnResolve(cfg, s, host, b), c) <==> Pending(s, c) || (c == b && AtOnce(cfg, s, host) == None)
  {
    hide Enqueue;
    PendingAfterEnqueue(cfg, s, host, b, c);
  }

  lemma {:induction false} ResolveAccounted(cfg: Config, s: State, t: Trail, host: Host, b: Callback)
    requires Consistent(s) && Accounted(s, t) && b !in t.seen
    ensures !Pending(s, b)
    ensures Accounted(OnResolve(cfg, s, host, b), Track(t, s, Resolve(host, b)))
  {
    hide TimesCalled;
    var s', t' := OnResolve(cfg, s, host, b), Track(t, s, Resolve(host, b));
    assert Fate(s, t, b) == 0;
    forall c
      ensures Fate(s', t', c) == if c in t'.seen then 1 else 0
    {
      assert Fate(s, t, c) == if c in t.seen then 1 else 0;
      PendingAfterResolve(cfg, s, host, b, c);
      if AtOnce(cfg, s, host).Some? {
        OneMoreCall(s.calls, Call(b, host, AtOnce(cfg, s, host).value), c);
      }
    }
  }

  lemma {:induction false} OneMoreCall(calls: seq<Call>, call: Call, c: Callback)
    ensures TimesCalled(calls + [call], c) == TimesCalled(calls, c) + if call.callback == c then 1 else 0
  {
    assert (calls + [call])[..|calls|] == calls;
  }

  lemma {:induction false} StepAccounted(cfg: Config, s: State, t: Trail, e: Event)
    requires Consistent(s) && Accounted(s, t) && (e.Resolve? ==> e.callback !in t.seen)
    ensures e.Resolve? ==> !Pending(s, e.callback)
    ensures Accounted(Step(cfg, s, e), Track(t, s, e))
  {
    hide CallAll, OnResolve, OnCancel, TimesCalled;
    match e
    case Resolve(host, callback) => ResolveAccounted(cfg, s, t, host, callback);
    case Cancel(callback) => CancelAccounted(s, t, callback);
    case Receive(reply) =>
      var s' := OnReply(cfg, s, reply);
      if reply.hostname.Some? {
        var host, ip := reply.hostname.value, FirstAddress(reply.answers);
        var cached := s.(cache := s.cache[host := ip]);
        SameFates(s, cached, t);
        CallAllAccounted(cached, t, host, ip);
        CallAllAccounted(s, t, host, Nothing);
      }
      if s'.calls == s.calls && s'.waiters == s.waiters {
        SameFates(s, s', t);
      }
    case Forget(hosts) => SameFates(s, Step(cfg, s, e), t);
  }

  lemma {:induction false} SameFates(s: State, s': State, t: Trail)
    requires s'.waiters == s.waiters && s'.calls == s.calls && Accounted(s, t)
    ensures Accounted(s', t)
  {
    forall c
      ensures Fate(s', t, c) == if c in t.seen then 1 else 0
    {
      assert Fate(s, t, c) == if c in t.seen then 1 else 0;
    }
  }

  /** Every look-up is made with a callback of its own. */
  ghost predicate OwnCallbacks(events: seq<Event>) {
    forall i, j :: 0 <= i < j < |events| && events[i].Resolve? && events[j].Resolve? ==>
      events[i].callback != events[j].callback
  }

  lemma {:induction false} SeenWereHandedIn(cfg: Config, events: seq<Event>, k: nat)
    requires k <= |events|
    ensures forall c :: c in TrailAfter(cfg, events, k).seen <==>
              exists i :: 0 <= i < k && events[i].Resolve? && events[i].callback == c
  {
    if k > 0 {
      SeenWereHandedIn(cfg, events, k - 1);
    }
  }

  /** Over every run: hosts with a status are exactly those with waiters, and every callback handed in is in
      exactly one of pending, called once and cancelled. */
  lemma {:induction false} EveryRunIsAccounted(cfg: Config, events: seq<Event>, k: nat)
    requires OwnCallbacks(events) && k <= |events|
    ensures Consistent(After(cfg, events, k))
    ensures Accounted(After(cfg, events, k), TrailAfter(cfg, events, k))
    ensures forall c :: c in TrailAfter(cfg, events, k).seen <==>
              exists i :: 0 <= i < k && events[i].Resolve? && events[i].callback == c
  {
    hide Consistent, Accounted, Step, Track;
    SeenWereHandedIn(cfg, events, k);
    if k == 0 {
      StartIsAccounted();
    } else {
      EveryRunIsAccounted(cfg, events, k - 1);
      var s, t, e := After(cfg, events, k - 1), TrailAfter(cfg, events, k - 1), events[k - 1];
      StepAccounted(cfg, s, t, e);
      StepConsistent(cfg, s, e);
    }
  }

  lemma {:induction false} StartIsAccounted()
    ensures Consistent(FRESH) && Accounted(FRESH, Trail({}, {}))
  {
  }

  // ----- what cancelling can reach

  /** Cancelling takes a waiter off its list if and only if the reverse dictionary knows it. */
  lemma {:induction false} CancelReaches(s: State, c: Callback)
    requires Consistent(s) && Pending(s, c)
    ensures !Pending(OnCancel(s, c), c) <==> c in s.owner
    ensures forall d :: d != c ==> (Pending(OnCancel(s, c), d) <==> Pending(s, d))
  {
    forall d
      ensures d != c ==> (Pending(OnCancel(s, c), d) <==> Pending(s, d))
    {
      PendingAfterCancel(s, c, d);
    }
    PendingAfterCancel(s, c, c);
  }

  /** Once handed in and still waiting, a callback stays in the dictionary, or out of it, as it began. */
  lemma {:induction false} OwnerIsSettled(cfg: Config, s: State, e: Event, c: Callback)
    requires Consistent(s) && Pending(s, c) && Pending(Step(cfg, s, e), c)
    requires e.Resolve? ==> e.callback != c
    ensures c in Step(cfg, s, e).owner <==> c in s.owner
  {
    hide OnCancel, CallAll;
    match e
    case Receive(reply) =>
      if reply.hostname.Some? {
        var host, ip := reply.hostname.value, FirstAddress(reply.answers);
        OwnerAfterCallAll(s.(cache := s.cache[host := ip]), host, ip, c);
        OwnerAfterCallAll(s, host, Nothing, c);
      }
    case Cancel(b) => OwnerAfterCancel(s, b, c);
    case _ =>
  }

  lemma {:induction false} OwnerAfterCallAll(s: State, host: Host, ip: Ip, c: Callback)
    requires Consistent(s)
    ensures Pending(CallAll(s, host, ip), c) ==> (c in CallAll(s, host, ip).owner <==> c in s.owner)
  {
    PendingAfterCallAll(s, host, ip, c);
  }

  lemma {:induction false} OwnerAfterCancel(s: State, b: Callback, c: Callback)
    requires Pending(OnCancel(s, b), c) && Consistent(s)
    ensures c in OnCancel(s, b).owner <==> c in s.owner
  {
    PendingAfterCancel(s, b, c);
  }

  /** A waiter that is still pending after `k` events can be cancelled if and only if nobody was waiting for
      its host when it was handed in, as event `j`. */
  lemma {:induction false} CancelExactly(cfg: Config, events: seq<Event>, j: nat, k: nat)
    requires OwnCallbacks(events) && j < k <= |events| && events[j].Resolve?
    requires Pending(After(cfg, events, k), events[j].callback)
    ensures var c := events[j].callback;
            !Pending(OnCancel(After(cfg, events, k), c), c) <==> Waiting(After(cfg, events, j), events[j].host) == []
  {
    var c := events[j].callback;
    EveryRunIsAccounted(cfg, events, k);
    CancelReaches(After(cfg, events, k), c);
    OwnedFromTheStart(cfg, events, j, k);
  }

  /** The second of two waiters for a host is called although it was cancelled. */
  lemma {:induction false} CancelCounterexample(cfg: Config, host: Host, reply: Response)
    requires AtOnce(cfg, FRESH, host) == None
    requires reply.hostname == Some(host) && FirstAddress(reply.answers) != Nothing
    ensures var events := [Resolve(host, 1), Resolve(host, 2), Cancel(2), Receive(reply)];
            After(cfg, events, 4).calls ==
            [Call(1, host, Found(FirstAddress(reply.answers))), Call(2, host, Found(FirstAddress(reply.answers)))]
  {
    hide Step, FirstAddress;
    var events := [Resolve(host, 1), Resolve(host, 2), Cancel(2), Receive(reply)];
    var s1 := Step(cfg, FRESH, Resolve(host, 1));
    var s2 := Step(cfg, s1, Resolve(host, 2));
    AfterNext(cfg, events, 0);
    AfterNext(cfg, events, 1);
    AfterNext(cfg, events, 2);
    AfterNext(cfg, events, 3);
    assert After(cfg, events, 0) == FRESH;
    hide After;
    FirstWaits(cfg, host);
    SecondWaits(cfg, s1, host);
    CancelLost(cfg, s2, host);
    BothCalled(cfg, s2, host, reply);
  }

  lemma {:induction false} AfterNext(cfg: Config, events: seq<Event>, k: nat)
    requires k < |events|
    ensures After(cfg, events, k + 1) == Step(cfg, After(cfg, events, k), events[k])
  {
    hide Step;
  }

  lemma {:induction false} FirstWaits(cfg: Config, host: Host)
    requires AtOnce(cfg, FRESH, host) == None
    ensures var s := Step(cfg, FRESH, Resolve(host, 1));
            s.waiters == map[host := [1]] && s.owner == map[1 := host] && s.calls == [] && s.cache == map[]
  {
    hide QueryType;
    assert Waiting(FRESH, host) == [];
  }

  lemma {:induction false} SecondWaits(cfg: Config, s: State, host: Host)
    requires AtOnce(cfg, FRESH, host) == None
    requires s.waiters == map[host := [1]] && s.owner == map[1 := host] && s.calls == [] && s.cache == map[]
    ensures var t := Step(cfg, s, Resolve(host, 2));
            t.waiters == map[host := [1, 2]] && t.owner == map[1 := host] && t.calls == [] && t.cache == map[]
  {
    hide QueryType;
    assert AtOnce(cfg, s, host) == None && Waiting(s, host) == [1];
    assert [1] + [2] == [1, 2];
    assert Step(cfg, s, Resolve(host, 2)).waiters == s.waiters[host := [1] + [2]];
  }

  lemma {:induction false} CancelLost(cfg: Config, s: State, host: Host)
    requires s.owner == map[1 := host]
    ensures Step(cfg, s, Cancel(2)) == s
  {
  }

  lemma {:induction false} BothCalled(cfg: Config, s: State, host: Host, reply: Response)
    requires s.waiters == map[host := [1, 2]] && s.calls == [] && host != []
    requires reply.hostname == Some(host) && FirstAddress(reply.answers) != Nothing
    ensures var ip := FirstAddress(reply.answers);
            Step(cfg, s, Receive(reply)).calls == [Call(1, host, Found(ip)), Call(2, host, Found(ip))]
  {
    hide FirstAddress, Members;
    var ip := FirstAddress(reply.answers);
    var cached := s.(cache := s.cache[host := ip]);
    assert Step(cfg, s, Receive(reply)) == CallAll(cached, host, ip);
    assert Waiting(cached, host) == [1, 2];
    assert Calls([1, 2], host, Found(ip)) == [Call(1, host, Found(ip)), Call(2, host, Found(ip))];
  }

  lemma {:induction false} OwnedFromTheStart(cfg: Config, events: seq<Event>, j: nat, k: nat)
    requires OwnCallbacks(events) && j < k <= |events| && events[j].Resolve?
    requires Pending(After(cfg, events, k), events[j].callback)
    ensures events[j].callback in After(cfg, events, k).owner <==> Waiting(After(cfg, events, j), events[j].host) == []
    decreases k
  {
    hide Accounted, TimesCalled, Step, Consistent;
    var c := events[j].callback;
    EveryRunIsAccounted(cfg, events, k - 1);
    EveryRunIsAccounted(cfg, events, k);
    var s := After(cfg, events, k - 1);
    if k == j + 1 {
      NotYetKnown(cfg, events, j);
      OwnedByOpener(cfg, s, events[j].host, c);
    } else {
      StillPending(cfg, events, j, k);
      OwnerIsSettled(cfg, s, events[k - 1], c);
      OwnedFromTheStart(cfg, events, j, k - 1);
    }
  }

  lemma {:induction false} OwnedByOpener(cfg: Config, s: State, host: Host, c: Callback)
    requires Consistent(s) && !Pending(s, c) && c !in s.owner
    requires Pending(Step(cfg, s, Resolve(host, c)), c)
    ensures c in Step(cfg, s, Resolve(host, c)).owner <==> Waiting(s, host) == []
  {
    PendingAfterResolve(cfg, s, host, c, c);
  }

  /** Before it is handed in, a callback is in no dictionary. */
  lemma {:induction false} NotYetKnown(cfg: Config, events: seq<Event>, j: nat)
    requires OwnCallbacks(events) && j < |events| && events[j].Resolve?
    ensures var s := After(cfg, events, j);
            !Pending(s, events[j].callback) && events[j].callback !in s.owner
  {
    EveryRunIsAccounted(cfg, events, j);
    var s, t, c := After(cfg, events, j), TrailAfter(cfg, events, j), events[j].callback;
    assert c !in t.seen;
    assert Fate(s, t, c) == 0;
  }

  /** Who waits after an event was waiting before it, unless the event handed him in. */
  lemma {:induction false} StillPending(cfg: Config, events: seq<Event>, j: nat, k: nat)
    requires OwnCallbacks(events) && j + 1 < k <= |events| && events[j].Resolve?
    requires Pending(After(cfg, events, k), events[j].callback)
    ensures Pending(After(cfg, events, k - 1), events[j].callback)
  {
    hide Consistent, Accounted, Step, Pending;
    EveryRunIsAccounted(cfg, events, k - 1);
    PendingBefore(cfg, After(cfg, events, k - 1), events[k - 1], events[j].callback);
  }

  lemma {:induction false} PendingBefore(cfg: Config, s: State, e: Event, c: Callback)
    requires Consistent(s) && Pending(Step(cfg, s, e), c) && (e.Resolve? ==> e.callback != c)
    ensures Pending(s, c)
  {
    match e
    case Receive(reply) =>
      if reply.hostname.Some? {
        var host, ip := reply.hostname.value, FirstAddress(reply.answers);
        PendingAfterCallAll(s.(cache := s.cache[host := ip]), host, ip, c);
        PendingAfterCallAll(s, host, Nothing, c);
      }
    case Cancel(b) => PendingAfterCancel(s, b, c);
    case Resolve(host, b) => PendingAfterResolve(cfg, s, host, b, c);
    case Forget(_) =>
  }

  // ----- falling back to the other address family

  ghost function StatusAt(cfg: Config, events: seq<Event>, k: nat, host: Host): Option<Family>
    requires k <= |events|
  {
    var s := After(cfg, events, k);
    if host in s.status then Some(s.status[host]) else None
  }

  /** An address-less reply for the host. */
  ghost predicate NoAddressFor(e: Event, host: Host) {
    e.Receive? && e.reply.hostname == Some(host) && FirstAddress(e.reply.answers) == Nothing
  }

  /** How one event may change the status of one host. */
  lemma {:induction false} StatusMoves(cfg: Config, s: State, e: Event, host: Host)
    requires Consistent(s)
    ensures var t := Step(cfg, s, e);
            && (host in t.status && host in s.status && t.status[host] != s.status[host] ==>
                  s.status[host] == First(cfg) && t.status[host] == Second(cfg) && NoAddressFor(e, host))
            && (host in t.status && host !in s.status ==>
                  t.status[host] == First(cfg) && e.Resolve? && e.host == host)
  {
    hide Orderly, Owned, FirstAddress, RemoveFirst, Members;
    if e.Resolve? {
      OrderlyLists(s.waiters);
    }
  }

  /** The fallback of an episode: event `j` is an address-less reply that finds the first family, and from
      then until `k` the host is being asked for in the second. */
  ghost predicate FellBackAt(cfg: Config, events: seq<Event>, j: nat, k: nat, host: Host)
    requires j < k <= |events|
  {
    && NoAddressFor(events[j], host)
    && StatusAt(cfg, events, j, host) == Some(First(cfg))
    && forall i :: j < i <= k ==> StatusAt(cfg, events, i, host) == Some(Second(cfg))
  }

  /** The second family is only ever asked for after such a fallback in the same episode. */
  lemma {:induction false} SecondNeedsFallback(cfg: Config, events: seq<Event>, k: nat, host: Host) returns (j: nat)
    requires OwnCallbacks(events) && k <= |events|
    requires StatusAt(cfg, events, k, host) == Some(Second(cfg))
    ensures j < k && FellBackAt(cfg, events, j, k, host)
  {
    hide Consistent, Step, Accounted;
    j := 0;
    if k > 0 {
      EveryRunIsAccounted(cfg, events, k - 1);
      StatusMoves(cfg, After(cfg, events, k - 1), events[k - 1], host);
      if StatusAt(cfg, events, k - 1, host) == Some(Second(cfg)) {
        j := SecondNeedsFallback(cfg, events, k - 1, host);
      } else {
        j := k - 1;
      }
    }
  }

  /** Whoever is told of a failure by an event is told by an address-less reply that carries the question of
      the second family, after another address-less reply has caused the fallback in the same episode. */
  lemma {:induction false} FailureNeedsFallback(cfg: Config, events: seq<Event>, k: nat, n: nat) returns (j: nat)
    requires OwnCallbacks(events) && k < |events|
    requires |After(cfg, events, k).calls| <= n < |After(cfg, events, k + 1).calls|
    requires After(cfg, events, k + 1).calls[n].outcome == Failed
    ensures var host := After(cfg, events, k + 1).calls[n].host;
            && j < k && FellBackAt(cfg, events, j, k, host)
            && NoAddressFor(events[k], host)
            && Asks(events[k].reply.questions, QueryType(Second(cfg)))
  {
    var s, e := After(cfg, events, k), events[k];
    var call := Step(cfg, s, e).calls[n];
    FailedCall(cfg, s, e, n);
    j := SecondNeedsFallback(cfg, events, k, call.host);
  }

  lemma {:induction false} FailedCall(cfg: Config, s: State, e: Event, n: nat)
    requires |s.calls| <= n < |Step(cfg, s, e).calls| && Step(cfg, s, e).calls[n].outcome == Failed
    ensures var host := Step(cfg, s, e).calls[n].host;
            && NoAddressFor(e, host) && Asks(e.reply.questions, QueryType(Second(cfg)))
            && host in s.status && s.status[host] == Second(cfg)
  {
    hide FirstAddress, Enqueue, Members, Asks, RemoveFirst;
    if e.Resolve? {
      CallsOnlyAppended(cfg, s, e.host, e.callback);
    }
  }

  lemma {:induction false} CallsOnlyAppended(cfg: Config, s: State, host: Host, c: Callback)
    ensures AtOnce(cfg, s, host) == None ==> OnResolve(cfg, s, host, c).calls == s.calls
    ensures AtOnce(cfg, s, host) != Some(Failed)
  {
  }

  /** An episode falls back at most once: between two fallbacks for a host its look-up has ended. */
  lemma {:induction false} FallbackOncePerEpisode(cfg: Config, events: seq<Event>, i: nat, j: nat, host: Host) returns (m: nat)
    requires OwnCallbacks(events) && i < j <= |events|
    requires StatusAt(cfg, events, i, host) == Some(Second(cfg))
    requires StatusAt(cfg, events, j, host) == Some(First(cfg))
    ensures i < m < j && StatusAt(cfg, events, m, host) == None
    decreases j
  {
    hide Consistent, Step, Accounted;
    EveryRunIsAccounted(cfg, events, j - 1);
    StatusMoves(cfg, After(cfg, events, j - 1), events[j - 1], host);
    if StatusAt(cfg, events, j - 1, host) == None {
      m := j - 1;
    } else {
      m := FallbackOncePerEpisode(cfg, events, i, j - 1, host);
    }
  }

  // ----- where addresses come from

  /** An answer with an Internet address: type A or AAAA, class IN. */
  predicate Addressed(answer: Entry) {
    (answer.kind == 1 || answer.kind == 28) && answer.class_ == 1
  }

  /** The reply names the host, and `ip` is what the first of its addressed answers carries. */
  ghost predicate Tells(reply: Response, host: Host, ip: Ip) {
    && reply.hostname == Some(host) && host != [] && ip != Nothing
    && exists i :: 0 <= i < |reply.answers| && Addressed(reply.answers[i]) && reply.answers[i].payload == ip &&
         forall j :: 0 <= j < i ==> !Addressed(reply.answers[j])
  }

  /** The chosen address is the payload of the first answer of type A or AAAA and class IN, and there is none
      if there is no such answer. */
  lemma {:induction false} FirstAddressExactly(answers: seq<Entry>)
    ensures (forall i :: 0 <= i < |answers| ==> !Addressed(answers[i])) ==> FirstAddress(answers) == Nothing
    ensures forall i :: 0 <= i < |answers| && Addressed(answers[i]) && (forall j :: 0 <= j < i ==> !Addressed(answers[j])) ==>
              FirstAddress(answers) == answers[i].payload
    decreases |answers|
  {
    if answers != [] {
      var rest := answers[1..];
      FirstAddressExactly(rest);
      assert forall i :: 0 <= i < |rest| ==> rest[i] == answers[i + 1];
      if !Addressed(answers[0]) {
        forall i | 0 <= i < |answers| && Addressed(answers[i]) && (forall j :: 0 <= j < i ==> !Addressed(answers[j]))
          ensures FirstAddress(answers) == answers[i].payload
        {
          assert Addressed(rest[i - 1]) && forall j :: 0 <= j < i - 1 ==> !Addressed(rest[j]);
        }
      }
    }
  }

  /** Some addressed answer comes first, if there is one. */
  lemma {:induction false} FirstAddressed(answers: seq<Entry>, n: nat) returns (i: nat)
    requires n < |answers| && Addressed(answers[n])
    ensures i <= n && Addressed(answers[i]) && forall j :: 0 <= j < i ==> !Addressed(answers[j])
  {
    i := 0;
    while !Addressed(answers[i])
      invariant i <= n && forall j :: 0 <= j < i ==> !Addressed(answers[j])
      decreases n - i
    {
      i := i + 1;
    }
  }

  lemma {:induction false} TellsExactly(reply: Response, host: Host, ip: Ip)
    ensures Tells(reply, host, ip) <==>
            reply.hostname == Some(host) && host != [] && ip != Nothing && FirstAddress(reply.answers) == ip
  {
    FirstAddressExactly(reply.answers);
    if FirstAddress(reply.answers) != Nothing {
      var n :| 0 <= n < |reply.answers| && Addressed(reply.answers[n]);
      var i := FirstAddressed(reply.answers, n);
    }
  }

  /** A reply with an address is cached and told to everybody who waits for the host, in order; they are then
      forgotten, and nothing else changes. */
  lemma {:induction false} AddressIsTold(cfg: Config, s: State, reply: Response, host: Host, ip: Ip)
    requires Tells(reply, host, ip)
    ensures var t, w := Step(cfg, s, Receive(reply)), Waiting(s, host);
            && t.cache == s.cache[host := ip] && t.sent == s.sent
            && host !in t.waiters && host !in t.status && t.waiters == s.waiters - {host} && t.status == s.status - {host}
            && |t.calls| == |s.calls| + |w| && t.calls[..|s.calls|] == s.calls
            && forall i :: 0 <= i < |w| ==> t.calls[|s.calls| + i] == Call(w[i], host, Found(ip))
  {
    hide FirstAddress, Tells;
    TellsExactly(reply, host, ip);
  }

  /** A reply without an address: the first one of an episode asks for the other family, a later one with the
      question of that family tells everybody of the failure, and any other changes nothing. */
  lemma {:induction false} NoAddressIsHandled(cfg: Config, s: State, reply: Response, host: Host)
    requires reply.hostname == Some(host) && host != []
    requires forall i :: 0 <= i < |reply.answers| ==> !Addressed(reply.answers[i])
    ensures var t, w := Step(cfg, s, Receive(reply)), Waiting(s, host);
            var first, other := if cfg.ipv6 then V6 else V4, if cfg.ipv6 then 1 else 28;
            if host in s.status && s.status[host] == first then
              && t == s.(status := t.status, sent := s.sent + [Query(host, other)])
              && t.status == s.status[host := if cfg.ipv6 then V4 else V6]
            else if host in s.status && exists i :: 0 <= i < |reply.questions| && reply.questions[i].kind == other then
              && host !in t.waiters && host !in t.status && t.cache == s.cache && t.sent == s.sent
              && |t.calls| == |s.calls| + |w| && t.calls[..|s.calls|] == s.calls
              && forall i :: 0 <= i < |w| ==> t.calls[|s.calls| + i] == Call(w[i], host, Failed)
            else t == s
  {
    hide FirstAddress;
    FirstAddressExactly(reply.answers);
  }

  /** A look-up: what is told at once and from where, or who waits and what is asked. */
  lemma {:induction false} ResolveExactly(cfg: Config, s: State, host: Host, c: Callback)
    ensures var t := Step(cfg, s, Resolve(host, c));
            if host == [] then t == s.(calls := s.calls + [Call(c, host, Refused)])
            else if cfg.isIp(host) then t == s.(calls := s.calls + [Call(c, host, Literal)])
            else if host in cfg.hosts then t == s.(calls := s.calls + [Call(c, host, Found(cfg.hosts[host]))])
            else if host in s.cache then t == s.(calls := s.calls + [Call(c, host, Found(s.cache[host]))])
            else if !cfg.valid(host) then t == s.(calls := s.calls + [Call(c, host, Refused)])
            else
              && t.calls == s.calls && t.cache == s.cache && t.sent == s.sent + [Query(host, if cfg.ipv6 then 28 else 1)]
              && host in t.waiters && t.waiters == s.waiters[host := Waiting(s, host) + [c]]
              && (Waiting(s, host) == [] ==>
                    t.status == s.status[host := if cfg.ipv6 then V6 else V4] && t.owner == s.owner[c := host])
              && (Waiting(s, host) != [] ==> t.status == s.status && t.owner == s.owner)
  {
    var t := Step(cfg, s, Resolve(host, c));
    if AtOnce(cfg, s, host) == None {
      assert t.waiters[host] == Waiting(s, host) + [c];
      assert t.waiters == s.waiters[host := Waiting(s, host) + [c]];
    }
  }

  /** Among the first `k` events is a reply that tells this address of the host. */
  ghost predicate WasTold(events: seq<Event>, k: nat, host: Host, ip: Ip)
    requires k <= |events|
  {
    exists i :: 0 <= i < k && events[i].Receive? && Tells(events[i].reply, host, ip)
  }

  ghost predicate Sourced(cfg: Config, events: seq<Event>, k: nat, s: State)
    requires k <= |events|
  {
    && (forall h :: h in s.cache ==> WasTold(events, k, h, s.cache[h]))
    && (forall n :: 0 <= n < |s.calls| && s.calls[n].outcome.Found? ==>
          var h, ip := s.calls[n].host, s.calls[n].outcome.ip;
          (h in cfg.hosts && cfg.hosts[h] == ip) || WasTold(events, k, h, ip))
  }

  /** Over every run, every cached address and every address that a waiter was told is one that a reply told
      of that host, or that the hosts file lists. */
  lemma {:induction false} AddressesHaveSources(cfg: Config, events: seq<Event>, k: nat)
    requires k <= |events|
    ensures Sourced(cfg, events, k, After(cfg, events, k))
  {
    hide Sourced, Step;
    if k == 0 {
      FreshIsSourced(cfg, events);
    } else {
      AddressesHaveSources(cfg, events, k - 1);
      AfterNext(cfg, events, k - 1);
      StepIsSourced(cfg, After(cfg, events, k - 1), events, k);
    }
  }

  lemma {:induction false} FreshIsSourced(cfg: Config, events: seq<Event>)
    ensures Sourced(cfg, events, 0, FRESH)
  {
  }

  lemma {:induction false} StepIsSourced(cfg: Config, s: State, events: seq<Event>, k: nat)
    requires 0 < k <= |events| && Sourced(cfg, events, k - 1, s)
    ensures Sourced(cfg, events, k, Step(cfg, s, events[k - 1]))
  {
    hide Tells, Step, WasTold;
    var t := Step(cfg, s, events[k - 1]);
    forall h | h in t.cache
      ensures WasTold(events, k, h, t.cache[h])
    {
      CachedHasSource(cfg, s, events, k, h);
    }
    forall n | 0 <= n < |t.calls| && t.calls[n].outcome.Found?
      ensures (t.calls[n].host in cfg.hosts && cfg.hosts[t.calls[n].host] == t.calls[n].outcome.ip)
              || WasTold(events, k, t.calls[n].host, t.calls[n].outcome.ip)
    {
      CallHasSource(cfg, s, events, k, n);
    }
  }

  lemma {:induction false} CachedHasSource(cfg: Config, s: State, events: seq<Event>, k: nat, h: Host)
    requires 0 < k <= |events| && Sourced(cfg, events, k - 1, s)
    ensures var t := Step(cfg, s, events[k - 1]); h in t.cache ==> WasTold(events, k, h, t.cache[h])
  {
    hide Tells, Step, WasTold;
    var t := Step(cfg, s, events[k - 1]);
    StepHasSources(cfg, s, events[k - 1]);
    if h in t.cache {
      ToldBy(events, k, h, t.cache[h]);
    }
  }

  lemma {:induction false} CallHasSource(cfg: Config, s: State, events: seq<Event>, k: nat, n: nat)
    requires 0 < k <= |events| && Sourced(cfg, events, k - 1, s)
    ensures var t := Step(cfg, s, events[k - 1]);
            n < |t.calls| && t.calls[n].outcome.Found? ==>
              var h, ip := t.calls[n].host, t.calls[n].outcome.ip;
              (h in cfg.hosts && cfg.hosts[h] == ip) || WasTold(events, k, h, ip)
  {
    hide Tells, Step, WasTold;
    var t := Step(cfg, s, events[k - 1]);
    StepHasSources(cfg, s, events[k - 1]);
    if n < |t.calls| && t.calls[n].outcome.Found? {
      ToldBy(events, k, t.calls[n].host, t.calls[n].outcome.ip);
    }
  }

  lemma {:induction false} ToldBy(events: seq<Event>, k: nat, host: Host, ip: Ip)
    requires 0 < k <= |events|
    ensures WasTold(events, k - 1, host, ip) ==> WasTold(events, k, host, ip)
    ensures events[k - 1].Receive? && Tells(events[k - 1].reply, host, ip) ==> WasTold(events, k, host, ip)
  {
    hide Tells;
  }

  /** What an event adds to the cache and to the calls. */
  lemma {:induction false} StepHasSources(cfg: Config, s: State, e: Event)
    ensures var t := Step(cfg, s, e);
            && (forall h :: h in t.cache ==> (h in s.cache && t.cache[h] == s.cache[h]) || (e.Receive? && Tells(e.reply, h, t.cache[h])))
            && |s.calls| <= |t.calls| && (forall n :: 0 <= n < |s.calls| ==> t.calls[n] == s.calls[n])
            && (forall n :: |s.calls| <= n < |t.calls| && t.calls[n].outcome.Found? ==>
                  var h, ip := t.calls[n].host, t.calls[n].outcome.ip;
                  || (h in cfg.hosts && cfg.hosts[h] == ip) || (h in s.cache && s.cache[h] == ip)
                  || (e.Receive? && Tells(e.reply, h, ip)))
  {
    hide FirstAddress, Tells, Members, RemoveFirst, QueryType, Asks, Enqueue, OnCancel;
    match e
    case Receive(reply) =>
      if reply.hostname.Some? {
        TellsExactly(reply, reply.hostname.value, FirstAddress(reply.answers));
      }
    case Resolve(host, c) => EnqueueTellsNobody(cfg, s, host, c);
    case Cancel(c) => CancelTellsNobody(s, c);
    case Forget(_) =>
  }

  lemma {:induction false} EnqueueTellsNobody(cfg: Config, s: State, host: Host, c: Callback)
    ensures Enqueue(cfg, s, host, c).calls == s.calls && Enqueue(cfg, s, host, c).cache == s.cache
  {
  }

  lemma {:induction false} CancelTellsNobody(s: State, c: Callback)
    ensures OnCancel(s, c).calls == s.calls && OnCancel(s, c).cache == s.cache
  {
  }
}

/** The resolver object. Its socket and the callbacks it runs are the two logs `sent` and `calls`. */
module DnsResolver {
  import opened Binary
  import opened Containers
  import opened DnsCodec
  import opened DnsMessages
  import opened DnsLookups

  class DNSResolver {
    const cfg: Config
    var hostnameStatus: map<Host, Family>
    var hostnameToCb: map<Host, seq<Callback>>
    var cbToHostname: map<Callback, Host>
    var cache: map<Host, Ip>
    var calls: seq<Call>
    var sent: seq<Query>

    function Book(): State
      reads this
    {
      State(hostnameStatus, hostnameToCb, cbToHostname, cache, calls, sent)
    }

    constructor (cfg: Config)
      ensures this.cfg == cfg && Book() == FRESH
    {
      this.cfg := cfg;
      hostnameStatus, hostnameToCb, cbToHostname, cache := map[], map[], map[], map[];
      calls, sent := [], [];
    }

    method SendReq(host: Host, kind: Word16)
      modifies this`sent
      ensures sent == old(sent) + [Query(host, kind)]
    {
      sent := sent + [Query(host, kind)];
    }

    method Resolve(host: Host, callback: Callback)
      modifies this
      ensures Book() == Step(cfg, old(Book()), DnsLookups.Resolve(host, callback))
    {
      if host == [] {
        calls := calls + [Call(callback, host, Refused)];
      } else if cfg.isIp(host) {
        calls := calls + [Call(callback, host, Literal)];
      } else if host in cfg.hosts {
        calls := calls + [Call(callback, host, Found(cfg.hosts[host]))];
      } else if host in cache {
        calls := calls + [Call(callback, host, Found(cache[host]))];
      } else if !cfg.valid(host) {
        calls := calls + [Call(callback, host, Refused)];
      } else {
        var arr := if host in hostnameToCb then hostnameToCb[host] else [];
        if arr == [] {
          hostnameStatus := hostnameStatus[host := First(cfg)];
          SendReq(host, QueryType(First(cfg)));
          hostnameToCb := hostnameToCb[host := [callback]];
          cbToHostname := cbToHostname[callback := host];
        } else {
          hostnameToCb := hostnameToCb[host := arr + [callback]];
          SendReq(host, QueryType(First(cfg)));
        }
      }
    }

    /** _call_callback: no address means failure. */
    method CallCallback(host: Host, ip: Ip)
      modifies this
      ensures Book() == CallAll(old(Book()), host, ip)
    {
      var callbacks := if host in hostnameToCb then hostnameToCb[host] else [];
      for i := 0 to |callbacks|
        invariant hostnameStatus == old(hostnameStatus) && hostnameToCb == old(hostnameToCb)
        invariant cache == old(cache) && sent == old(sent)
        invariant cbToHostname == old(cbToHostname) - Members(callbacks[..i])
        invariant calls == old(calls) + Calls(callbacks[..i], host, if ip == Nothing then Failed else Found(ip))
      {
        var callback := callbacks[i];
        assert callbacks[..i + 1] == callbacks[..i] + [callback];
        MembersAppend(callbacks[..i], callback);
        if callback in cbToHostname {
          cbToHostname := cbToHostname - {callback};
        }
        calls := calls + [Call(callback, host, if ip == Nothing then Failed else Found(ip))];
      }
      assert callbacks[..|callbacks|] == callbacks;
      hostnameToCb := hostnameToCb - {host};
      hostnameStatus := hostnameStatus - {host};
    }

    /** _handle_data, on a parsed reply. */
    method HandleData(reply: Response)
      modifies this
      ensures Book() == Step(cfg, old(Book()), Receive(reply))
    {
      if reply.hostname == None || reply.hostname.value == [] {
        return;
      }
      var host, ip: Ip := reply.hostname.value, Nothing;
      ip := PickAddress(reply.answers);
      if ip == Nothing && host in hostnameStatus && hostnameStatus[host] == First(cfg) {
        hostnameStatus := hostnameStatus[host := Second(cfg)];
        SendReq(host, QueryType(Second(cfg)));
      } else if ip != Nothing {
        cache := cache[host := ip];
        CallCallback(host, ip);
      } else if host in hostnameStatus && hostnameStatus[host] == Second(cfg) {
        var k := 0;
        while k < |reply.questions|
          invariant 0 <= k <= |reply.questions|
          invariant forall i :: 0 <= i < k ==> reply.questions[i].kind != QueryType(Second(cfg))
          invariant Book() == old(Book())
        {
          if reply.questions[k].kind == QueryType(Second(cfg)) {
            CallCallback(host, Nothing);
            return;
          }
          k := k + 1;
        }
      }
    }

    method RemoveCallback(callback: Callback)
      modifies this
      ensures Book() == Step(cfg, old(Book()), Cancel(callback))
    {
      if callback in cbToHostname && cbToHostname[callback] != [] {
        var host := cbToHostname[callback];
        cbToHostname := cbToHostname - {callback};
        if host in hostnameToCb && callback in hostnameToCb[host] {
          hostnameToCb := hostnameToCb[host := RemoveFirst(hostnameToCb[host], callback)];
          if hostnameToCb[host] == [] {
            hostnameToCb := hostnameToCb - {host};
            hostnameStatus := hostnameStatus - {host};
          }
        }
      }
    }

    /** handle_periodic: the cache drops some entries. */
    method HandlePeriodic(stale: set<Host>)
      modifies this`cache
      ensures Book() == Step(cfg, old(Book()), Forget(stale))
    {
      cache := cache - stale;
    }
  }

  lemma {:induction false} MembersAppend(list: seq<Callback>, c: Callback)
    ensures Members(list + [c]) == Members(list) + {c}
  {
    var more := list + [c];
    assert forall i :: 0 <= i < |list| ==> more[i] == list[i];
    assert more[|list|] == c;
  }

  /** The loop over the answers. */
  method PickAddress(answers: seq<Entry>) returns (ip: Ip)
    ensures ip == FirstAddress(answers)
    ensures (forall i :: 0 <= i < |answers| ==> !Addressed(answers[i])) ==> ip == Nothing
    ensures forall i :: 0 <= i < |answers| && Addressed(answers[i]) && (forall j :: 0 <= j < i ==> !Addressed(answers[j])) ==>
              ip == answers[i].payload
  {
    FirstAddressExactly(answers);
    var k := 0;
    assert answers[0..] == answers;
    while k < |answers|
      invariant 0 <= k <= |answers| && FirstAddress(answers) == FirstAddress(answers[k..])
    {
      assert answers[k..][1..] == answers[k + 1..];
      if IsAddress(answers[k]) {
        return answers[k].payload;
      }
      k := k + 1;
    }
    ip := Nothing;
  }
}
