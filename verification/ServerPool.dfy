/** The traffic of all relays, collected per port. */
module ServerPool {
  import opened Traffic
  import opened RelayCounters

  /** What get_ud and get_users_ud report of one relay. */
  datatype Relay = Relay(own: Pair, ul: map<Uid, nat>, dl: map<Uid, nat>)

  type Port = int
  type Pool = map<Port, Relay>

  // ----- what the figures mean

  function Ups(m: map<Uid, nat>): map<Uid, Pair> {
    map uid | uid in m :: Pair(m[uid], 0)
  }

  function Downs(m: map<Uid, nat>): map<Uid, Pair> {
    map uid | uid in m :: Pair(0, m[uid])
  }

  /** What a dictionary of users holds for the port that the user number encodes. */
  ghost function BillOf(bills: map<Uid, Pair>, port: Port): Pair {
    Get(bills, port)
  }

  /** What a user's counter shows. */
  ghost function Shown(m: map<Uid, nat>, uid: Uid): nat {
    if uid in m then m[uid] else 0
  }

  /** The sum of all users' counters. */
  ghost function ShownTotal(m: map<Uid, nat>): int {
    Sum(m.Keys, uid => Pair(Shown(m, uid), 0)).u
  }

  /** The part of the relay at `p` that belongs to users with number `port`. */
  ghost function UserPart(pool: Pool, p: Port, port: Port): Pair {
    if p in pool then Pair(Shown(pool[p].ul, port), Shown(pool[p].dl, port)) else ZERO
  }

  ghost function UserSum(pool: Pool, p: Port): Pair {
    if p in pool then Pair(ShownTotal(pool[p].ul), ShownTotal(pool[p].dl)) else ZERO
  }

  ghost function OwnPart(pool: Pool, p: Port): Pair {
    if p in pool then pool[p].own else ZERO
  }

  ghost function UserShare(pool: Pool, among: set<Port>, port: Port): Pair {
    Sum(among, p => UserPart(pool, p, port))
  }

  ghost function UserTotal(pool: Pool, among: set<Port>): Pair {
    Sum(among, p => UserSum(pool, p))
  }

  ghost function OwnTotal(pool: Pool, among: set<Port>): Pair {
    Sum(among, p => OwnPart(pool, p))
  }

  /** Everything the relays of a pool have counted for a port: the relay at that port and that user anywhere. */
  ghost function PortShare(pool: Pool, port: Port): Pair {
    Plus(OwnPart(pool, port), UserShare(pool, pool.Keys, port))
  }

  /** Everything the relays of a pool have counted. */
  ghost function PoolTotal(pool: Pool): Pair {
    Plus(OwnTotal(pool, pool.Keys), UserTotal(pool, pool.Keys))
  }

  // ----- charging users

  ghost function BillAmong(bills: map<Uid, Pair>, done: set<Uid>, port: Port): Pair {
    if port in done then BillOf(bills, port) else ZERO
  }

  ghost function BillTotal(bills: map<Uid, Pair>, done: set<Uid>): Pair {
    Sum(done, uid => Get(bills, uid))
  }

  /** One more user charged, as one port sees it. */
  lemma {:induction false} ChargeAt(
      dict: map<Port, Pair>, bills: map<Uid, Pair>, done: set<Uid>, before: map<Port, Pair>, uid: Uid, port: Port)
    requires uid in bills && uid !in done
    requires Get(before, port) == Plus(Get(dict, port), BillAmong(bills, done, port))
    ensures Get(before[uid := Plus(Get(before, uid), bills[uid])], port) ==
            Plus(Get(dict, port), BillAmong(bills, done + {uid}, port))
  {
    hide Plus;
    PlusZero(Get(dict, port));
  }

  lemma {:induction false} ChargeTotal(bills: map<Uid, Pair>, done: set<Uid>, uid: Uid)
    requires uid in bills && uid !in done
    ensures BillTotal(bills, done + {uid}) == Plus(BillTotal(bills, done), bills[uid])
  {
    hide Sum, Plus;
    SumAdds(done, uid => Get(bills, uid), uid);
  }

  /** One more user charged. */
  lemma {:induction false} ChargeOne(
      dict: map<Port, Pair>, bills: map<Uid, Pair>, done: set<Uid>, before: map<Port, Pair>, uid: Uid)
    requires uid in bills && uid !in done
    requires Charged(dict, bills, done, before)
    ensures Charged(dict, bills, done + {uid}, before[uid := Plus(Get(before, uid), bills[uid])])
  {
    hide Total, Get, Plus, BillTotal, BillAmong;
    var ret := before[uid := Plus(Get(before, uid), bills[uid])];
    forall port: Port
      ensures Get(ret, port) == Plus(Get(dict, port), BillAmong(bills, done + {uid}, port))
    {
      ChargeAt(dict, bills, done, before, uid, port);
    }
    TotalGrows(before, uid, bills[uid]);
    ChargeTotal(bills, done, uid);
    PlusAssociates(Total(dict), BillTotal(bills, done), bills[uid]);
  }

  /** `ret` is `dict` with the users in `done` charged. */
  ghost predicate Charged(dict: map<Port, Pair>, bills: map<Uid, Pair>, done: set<Uid>, ret: map<Port, Pair>) {
    && (forall port :: Get(ret, port) == Plus(Get(dict, port), BillAmong(bills, done, port)))
    && Total(ret) == Plus(Total(dict), BillTotal(bills, done))
    && dict.Keys <= ret.Keys
  }

  /** One loop of update_mu_transfer. */
  method Charge(dict: map<Port, Pair>, bills: map<Uid, Pair>) returns (ret: map<Port, Pair>)
    ensures forall port :: Get(ret, port) == Plus(Get(dict, port), BillOf(bills, port))
    ensures Total(ret) == Plus(Total(dict), Total(bills))
    ensures dict.Keys <= ret.Keys
  {
    hide Charged, Total, Get, BillOf;
    ret := dict;
    var todo := bills.Keys;
    ghost var done: set<Uid> := {};
    NothingCharged(dict, bills);
    while todo != {}
      invariant done * todo == {} && done + todo == bills.Keys && Charged(dict, bills, done, ret)
      decreases todo
    {
      var uid := Pick(todo);
      var port := uid;
      ghost var before := ret;
      if port !in ret {
        ret := ret[port := ZERO];
      }
      ret := ret[port := Plus(ret[port], bills[uid])];
      GetIs(before, port);
      assert ret == before[port := Plus(Get(before, port), bills[uid])];
      ChargeOne(dict, bills, done, before, uid);
      todo := todo - {uid};
      done := done + {uid};
    }
    assert done == bills.Keys;
    AllCharged(dict, bills, ret);
  }

  lemma {:induction false} GetIs(m: map<Port, Pair>, port: Port)
    ensures Get(m, port) == if port in m then m[port] else ZERO
  {
  }

  lemma {:induction false} NothingCharged(dict: map<Port, Pair>, bills: map<Uid, Pair>)
    ensures Charged(dict, bills, {}, dict)
  {
    hide Total, Sum;
    SumOfNone(uid => Get(bills, uid));
  }

  lemma {:induction false} TotalOfBills(bills: map<Uid, Pair>)
    ensures BillTotal(bills, bills.Keys) == Total(bills)
  {
    hide Sum;
    SumSame(bills.Keys, uid => Get(bills, uid), k => Get(bills, k));
  }

  lemma {:induction false} AllCharged(dict: map<Port, Pair>, bills: map<Uid, Pair>, ret: map<Port, Pair>)
    requires Charged(dict, bills, bills.Keys, ret)
    ensures forall port :: Get(ret, port) == Plus(Get(dict, port), BillOf(bills, port))
    ensures Total(ret) == Plus(Total(dict), Total(bills))
    ensures dict.Keys <= ret.Keys
  {
    hide Total, BillTotal;
    TotalOfBills(bills);
  }

  /** Uploads and downloads are charged to their users, and to nobody else. */
  ghost predicate BothCharged(dict: map<Port, Pair>, u: map<Uid, nat>, d: map<Uid, nat>, ret: map<Port, Pair>) {
    && (forall port :: Get(ret, port) == Pair(Get(dict, port).u + Shown(u, port), Get(dict, port).d + Shown(d, port)))
    && Total(ret) == Pair(Total(dict).u + ShownTotal(u), Total(dict).d + ShownTotal(d))
    && dict.Keys <= ret.Keys
  }

  /** A sum of pairs whose second parts are zero, and the same the other way round. */
  lemma {:induction false} SumOneSided(keys: set<Uid>, m: map<Uid, nat>)
    ensures Sum(keys, uid => Pair(Shown(m, uid), 0)).d == 0
    ensures Sum(keys, uid => Pair(0, Shown(m, uid))) == Pair(0, Sum(keys, uid => Pair(Shown(m, uid), 0)).u)
    decreases |keys|
  {
    var f, g := (uid: Uid) => Pair(Shown(m, uid), 0), (uid: Uid) => Pair(0, Shown(m, uid));
    SumSame(keys, f, uid => Pair(Shown(m, uid), 0));
    SumSame(keys, g, uid => Pair(0, Shown(m, uid)));
    if keys == {} {
      SumOfNone(f);
      SumOfNone(g);
    } else {
      var k :| k in keys;
      SumTakes(keys, f, k);
      SumTakes(keys, g, k);
      SumOneSided(keys - {k}, m);
      SumSame(keys - {k}, f, uid => Pair(Shown(m, uid), 0));
      SumSame(keys - {k}, g, uid => Pair(0, Shown(m, uid)));
    }
  }

  lemma {:induction false} UpsAndDowns(m: map<Uid, nat>)
    ensures forall port :: BillOf(Ups(m), port) == Pair(Shown(m, port), 0) && BillOf(Downs(m), port) == Pair(0, Shown(m, port))
    ensures Total(Ups(m)) == Pair(ShownTotal(m), 0) && Total(Downs(m)) == Pair(0, ShownTotal(m))
  {
    var keys := m.Keys;
    assert Ups(m).Keys == keys && Downs(m).Keys == keys;
    SumOneSided(keys, m);
    hide Sum;
    SumSame(keys, k => Get(Ups(m), k), uid => Pair(Shown(m, uid), 0));
    SumSame(keys, k => Get(Downs(m), k), uid => Pair(0, Shown(m, uid)));
  }

  method UpdateMuTransfer(dict: map<Port, Pair>, u: map<Uid, nat>, d: map<Uid, nat>) returns (ret: map<Port, Pair>)
    ensures BothCharged(dict, u, d, ret)
  {
    hide BillOf, Total, Get, Ups, Downs, Shown, ShownTotal;
    var half := Charge(dict, Ups(u));
    ret := Charge(half, Downs(d));
    UpsAndDowns(u);
    UpsAndDowns(d);
    hide Plus;
    forall port: Port
      ensures Get(ret, port) == Pair(Get(dict, port).u + Shown(u, port), Get(dict, port).d + Shown(d, port))
    {
      assert Get(half, port) == Plus(Get(dict, port), BillOf(Ups(u), port));
      PlusBoth(Get(dict, port), Shown(u, port), Shown(d, port));
    }
    PlusBoth(Total(dict), ShownTotal(u), ShownTotal(d));
  }

  lemma {:induction false} PlusBoth(a: Pair, u: int, d: int)
    ensures Plus(Plus(a, Pair(u, 0)), Pair(0, d)) == Pair(a.u + u, a.d + d)
  {
  }

  /** The users of the relays at the ports in `done` are charged. */
  ghost predicate PoolCharged(dict: map<Port, Pair>, pool: Pool, done: set<Port>, ret: map<Port, Pair>) {
    && (forall port :: Get(ret, port) == Plus(Get(dict, port), UserShare(pool, done, port)))
    && Total(ret) == Plus(Total(dict), UserTotal(pool, done))
    && dict.Keys <= ret.Keys
  }

  lemma {:induction false} RelayCharged(
      dict: map<Port, Pair>, pool: Pool, done: set<Port>, p: Port, before: map<Port, Pair>, ret: map<Port, Pair>)
    requires PoolCharged(dict, pool, done, before) && p in pool && p !in done
    requires BothCharged(before, pool[p].ul, pool[p].dl, ret)
    ensures PoolCharged(dict, pool, done + {p}, ret)
  {
    hide Total, Get, Shown, ShownTotal, Sum;
    SumAdds(done, p => UserSum(pool, p), p);
    forall port: Port
      ensures Get(ret, port) == Plus(Get(dict, port), UserShare(pool, done + {p}, port))
    {
      SumAdds(done, p => UserPart(pool, p, port), p);
      assert Get(before, port) == Plus(Get(dict, port), UserShare(pool, done, port));
    }
  }

  lemma {:induction false} NoneCharged(dict: map<Port, Pair>, pool: Pool)
    ensures PoolCharged(dict, pool, {}, dict)
  {
    hide Total, Sum, UserPart, UserSum;
    SumOfNone(p => UserSum(pool, p));
    forall port: Port
      ensures UserShare(pool, {}, port) == ZERO
    {
      SumOfNone(p => UserPart(pool, p, port));
    }
  }

  /** One of the four loops over the users of a pool. */
  method ChargePool(dict: map<Port, Pair>, pool: Pool) returns (ret: map<Port, Pair>)
    ensures PoolCharged(dict, pool, pool.Keys, ret)
  {
    hide PoolCharged, BothCharged;
    ret := dict;
    var todo := pool.Keys;
    ghost var done: set<Port> := {};
    NoneCharged(dict, pool);
    while todo != {}
      invariant done * todo == {} && done + todo == pool.Keys && PoolCharged(dict, pool, done, ret)
      decreases todo
    {
      var p := Pick(todo);
      ghost var before := ret;
      ret := UpdateMuTransfer(ret, pool[p].ul, pool[p].dl);
      RelayCharged(dict, pool, done, p, before, ret);
      todo := todo - {p};
      done := done + {p};
    }
    assert done == pool.Keys;
  }

  // ----- the four pools together

  ghost function Own(tcp: Pool, udp: Pool, tcp6: Pool, udp6: Pool, port: Port): Pair {
    Plus(Plus(OwnPart(tcp, port), OwnPart(udp, port)), Plus(OwnPart(tcp6, port), OwnPart(udp6, port)))
  }

  class Servers {
    var tcp: Pool
    var tcp6: Pool
    var udp: Pool
    var udp6: Pool

    method GetServerTransfer(port: Port) returns (ret: Pair)
      ensures ret == Own(tcp, udp, tcp6, udp6, port)
    {
      ret := ZERO;
      if port in tcp {
        ret := tcp[port].own;
      }
      if port in udp {
        ret := Plus(ret, udp[port].own);
      }
      if port in tcp6 {
        ret := Plus(ret, tcp6[port].own);
      }
      if port in udp6 {
        ret := Plus(ret, udp6[port].own);
      }
    }

    ghost function Ports(): set<Port>
      reads this
    {
      tcp.Keys + tcp6.Keys + udp.Keys + udp6.Keys
    }

    /** The traffic of the relays themselves, before any user is charged. */
    method OwnTransfers() returns (ret: map<Port, Pair>)
      ensures ret.Keys == Ports()
      ensures forall port :: port in ret ==> ret[port] == Own(tcp, udp, tcp6, udp6, port)
    {
      hide Own;
      ret := map[];
      var todo := tcp.Keys + tcp6.Keys + udp.Keys + udp6.Keys;
      while todo != {}
        invariant ret.Keys * todo == {} && ret.Keys + todo == Ports()
        invariant forall port :: port in ret ==> ret[port] == Own(tcp, udp, tcp6, udp6, port)
        decreases todo
      {
        var port := Pick(todo);
        var own := GetServerTransfer(port);
        ret := ret[port := own];
        todo := todo - {port};
      }
      assert ret.Keys == Ports();
    }

    /** Every port's figure is what the four pools have counted for it, and nothing is lost or counted twice,
        whatever ports and user numbers coincide. */
    method GetServersTransfer() returns (ret: map<Port, Pair>)
      ensures forall port :: Get(ret, port) ==
                Plus(Plus(PortShare(tcp, port), PortShare(udp, port)), Plus(PortShare(tcp6, port), PortShare(udp6, port)))
      ensures Total(ret) == Plus(Plus(PoolTotal(tcp), PoolTotal(udp)), Plus(PoolTotal(tcp6), PoolTotal(udp6)))
      ensures Ports() <= ret.Keys
    {
      hide Total, Get, PortShare, PoolTotal, Own, PoolCharged;
      var own := OwnTransfers();
      var r1 := ChargePool(own, tcp);
      var r2 := ChargePool(r1, tcp6);
      var r3 := ChargePool(r2, udp);
      ret := ChargePool(r3, udp6);
      AllPools(own, r1, r2, r3, ret, tcp, udp, tcp6, udp6);
    }
  }

  lemma {:induction false} Regroup(a: Pair, b: Pair, c: Pair, d: Pair, ua: Pair, ub: Pair, uc: Pair, ud: Pair)
    ensures Plus(Plus(Plus(Plus(Plus(Plus(a, b), Plus(c, d)), ua), uc), ub), ud) ==
            Plus(Plus(Plus(a, ua), Plus(b, ub)), Plus(Plus(c, uc), Plus(d, ud)))
  {
  }

  lemma {:induction false} AllPools(
      own: map<Port, Pair>, r1: map<Port, Pair>, r2: map<Port, Pair>, r3: map<Port, Pair>, r4: map<Port, Pair>,
      tcp: Pool, udp: Pool, tcp6: Pool, udp6: Pool)
    requires own.Keys == tcp.Keys + tcp6.Keys + udp.Keys + udp6.Keys
    requires forall p :: p in own ==> own[p] == Own(tcp, udp, tcp6, udp6, p)
    requires PoolCharged(own, tcp, tcp.Keys, r1) && PoolCharged(r1, tcp6, tcp6.Keys, r2)
    requires PoolCharged(r2, udp, udp.Keys, r3) && PoolCharged(r3, udp6, udp6.Keys, r4)
    ensures forall port :: Get(r4, port) ==
              Plus(Plus(PortShare(tcp, port), PortShare(udp, port)), Plus(PortShare(tcp6, port), PortShare(udp6, port)))
    ensures Total(r4) == Plus(Plus(PoolTotal(tcp), PoolTotal(udp)), Plus(PoolTotal(tcp6), PoolTotal(udp6)))
    ensures own.Keys <= r4.Keys
  {
    hide Total, Get, UserShare, UserTotal, OwnPart, OwnTotal, Own, Plus;
    OwnSum(own, tcp, udp, tcp6, udp6);
    Regroup(OwnTotal(tcp, tcp.Keys), OwnTotal(udp, udp.Keys), OwnTotal(tcp6, tcp6.Keys), OwnTotal(udp6, udp6.Keys),
            UserTotal(tcp, tcp.Keys), UserTotal(udp, udp.Keys), UserTotal(tcp6, tcp6.Keys), UserTotal(udp6, udp6.Keys));
    forall port: Port
      ensures Get(r4, port) ==
              Plus(Plus(PortShare(tcp, port), PortShare(udp, port)), Plus(PortShare(tcp6, port), PortShare(udp6, port)))
    {
      OwnEverywhere(own, tcp, udp, tcp6, udp6, port);
      assert Get(r3, port) == Plus(Plus(Plus(Get(own, port), UserShare(tcp, tcp.Keys, port)),
                                        UserShare(tcp6, tcp6.Keys, port)), UserShare(udp, udp.Keys, port));
      Regroup(OwnPart(tcp, port), OwnPart(udp, port), OwnPart(tcp6, port), OwnPart(udp6, port),
              UserShare(tcp, tcp.Keys, port), UserShare(udp, udp.Keys, port),
              UserShare(tcp6, tcp6.Keys, port), UserShare(udp6, udp6.Keys, port));
    }
  }

  lemma {:induction false} OwnEverywhere(own: map<Port, Pair>, tcp: Pool, udp: Pool, tcp6: Pool, udp6: Pool, port: Port)
    requires own.Keys == tcp.Keys + tcp6.Keys + udp.Keys + udp6.Keys
    requires forall p :: p in own ==> own[p] == Own(tcp, udp, tcp6, udp6, p)
    ensures Get(own, port) ==
            Plus(Plus(OwnPart(tcp, port), OwnPart(udp, port)), Plus(OwnPart(tcp6, port), OwnPart(udp6, port)))
  {
  }

  lemma {:induction false} OwnOver(pool: Pool, ports: set<Port>)
    requires pool.Keys <= ports
    ensures OwnTotal(pool, pool.Keys) == OwnTotal(pool, ports)
  {
    SumOver(pool.Keys, ports, p => OwnPart(pool, p));
  }

  lemma {:induction false} OwnOfTwo(a: Pool, b: Pool, ports: set<Port>)
    ensures Sum(ports, p => Plus(OwnPart(a, p), OwnPart(b, p))) == Plus(OwnTotal(a, ports), OwnTotal(b, ports))
  {
    SumOfSums(ports, p => OwnPart(a, p), p => OwnPart(b, p), p => Plus(OwnPart(a, p), OwnPart(b, p)));
  }

  lemma {:induction false} OwnSum(own: map<Port, Pair>, a: Pool, b: Pool, c: Pool, d: Pool)
    requires own.Keys == a.Keys + c.Keys + b.Keys + d.Keys
    requires forall p :: p in own ==> own[p] == Own(a, b, c, d, p)
    ensures Total(own) == Plus(Plus(OwnTotal(a, a.Keys), OwnTotal(b, b.Keys)), Plus(OwnTotal(c, c.Keys), OwnTotal(d, d.Keys)))
  {
    hide Sum, OwnTotal, OwnPart;
    var ports := own.Keys;
    OwnOver(a, ports);
    OwnOver(b, ports);
    OwnOver(c, ports);
    OwnOver(d, ports);
    OwnOfTwo(a, b, ports);
    OwnOfTwo(c, d, ports);
    var f := (p: Port) => Plus(OwnPart(a, p), OwnPart(b, p));
    var g := (p: Port) => Plus(OwnPart(c, p), OwnPart(d, p));
    SumOfSums(ports, f, g, k => Get(own, k));
  }
}
