/** The incremental push of traffic to the database, and the threshold that puts small amounts off. */
module TransferPush {
  import opened Traffic

  type Id = int

  /** What is remembered between rounds: the amounts reported, and the last reading. */
  datatype Ledger = Ledger(lastUpdate: map<Id, Pair>, lastGet: map<Id, Pair>)

  /** One round: the counters read, the ids whose offers are acknowledged, those marked as restarted, those of
      ports that many users share, and whether an exception ended it before the books were touched. */
  datatype Round = Round(curr: map<Id, Pair>, acked: set<Id>, forced: set<Id>, shared: set<Id>, raised: bool)

  predicate Acked(r: Round, id: Id) {
    !r.raised && id in r.acked
  }

  const START := Ledger(map[], map[])

  predicate Grown(d: Pair) {
    d.u + d.d > 0
  }

  /** Whether the round offers an increment for the id. A forced id gets what the last reading left
      unreported; shared ports are skipped. */
  predicate Offered(l: Ledger, r: Round, id: Id) {
    if id in r.forced then id in l.lastGet && id in l.lastUpdate
    else id in r.curr && id !in r.shared && Grown(Minus(r.curr[id], Get(l.lastUpdate, id)))
  }

  function Offer(l: Ledger, r: Round, id: Id): Pair {
    Minus(if id in r.forced then Get(l.lastGet, id) else Get(r.curr, id), Get(l.lastUpdate, id))
  }

  function Offers(l: Ledger, r: Round): map<Id, Pair> {
    map id | id in r.forced + r.curr.Keys && Offered(l, r, id) :: Offer(l, r, id)
  }

  /** What the round bills to the id. */
  function Paid(l: Ledger, r: Round, id: Id): Pair {
    if Offered(l, r, id) && Acked(r, id) then Offer(l, r, id) else ZERO
  }

  /** The books after a round. */
  function After(l: Ledger, r: Round): Ledger {
    if r.raised then l
    else
      Ledger(map id | id in l.lastUpdate.Keys + r.curr.Keys && id !in r.forced &&
                      (id in l.lastUpdate || (Offered(l, r, id) && Acked(r, id))) ::
               Plus(Get(l.lastUpdate, id), Paid(l, r, id)),
             r.curr - r.forced)
  }

  // ----- the ledger of one id that is neither forced nor shared

  /** The id is settled up to the counter just read exactly when its increment is acknowledged, and is left
      as it was otherwise. */
  lemma {:induction false} RoundSettles(l: Ledger, r: Round, id: Id)
    requires id !in r.forced
    ensures var t := After(l, r);
            && Get(t.lastUpdate, id) == Plus(Get(l.lastUpdate, id), Paid(l, r, id))
            && Get(t.lastUpdate, id) ==
               (if Offered(l, r, id) && Acked(r, id) then Get(r.curr, id) else Get(l.lastUpdate, id))
            && (id in t.lastUpdate <==> id in l.lastUpdate || (Offered(l, r, id) && Acked(r, id)))
  {
    hide After, Offered, Get;
    Recorded(l, r, id);
    NothingRecorded(l.lastUpdate, id);
    NothingRecorded(After(l, r).lastUpdate, id);
  }

  lemma {:induction false} Recorded(l: Ledger, r: Round, id: Id)
    requires id !in r.forced
    ensures var now := After(l, r).lastUpdate;
            && (id in now <==> id in l.lastUpdate || (Offered(l, r, id) && Acked(r, id)))
            && (id in now ==> now[id] == Plus(Get(l.lastUpdate, id), Paid(l, r, id)))
  {
    hide Get, Plus;
    NothingRecorded(l.lastUpdate, id);
    PlusZero(Get(l.lastUpdate, id));
  }

  lemma {:induction false} NothingRecorded(m: map<Id, Pair>, id: Id)
    ensures Get(m, id) == if id in m then m[id] else ZERO
  {
  }

  /** The books after the first `k` rounds. */
  function Books(rounds: seq<Round>, k: nat): Ledger
    requires k <= |rounds|
  {
    if k == 0 then START else After(Books(rounds, k - 1), rounds[k - 1])
  }

  /** What the first `k` rounds have billed to the id. */
  function PaidSoFar(rounds: seq<Round>, k: nat, id: Id): Pair
    requires k <= |rounds|
  {
    if k == 0 then ZERO else Plus(PaidSoFar(rounds, k - 1, id), Paid(Books(rounds, k - 1), rounds[k - 1], id))
  }

  ghost predicate AtMost(a: Pair, b: Pair) {
    a.u <= b.u && a.d <= b.d
  }

  /** The live counter of the id never shrinks. */
  ghost predicate Growing(rounds: seq<Round>, k: nat, id: Id)
    requires k <= |rounds|
  {
    && (forall i :: 0 <= i < k ==> AtMost(ZERO, Get(rounds[i].curr, id)))
    && (forall i, j :: 0 <= i < j < k ==> AtMost(Get(rounds[i].curr, id), Get(rounds[j].curr, id)))
  }

  /** Whatever is acknowledged: the increments billed are exactly the recorded total, which never exceeds
      the counter read last. */
  lemma {:induction false} BilledIsRecorded(rounds: seq<Round>, k: nat, id: Id)
    requires k <= |rounds| && forall i :: 0 <= i < k ==> id !in rounds[i].forced
    ensures PaidSoFar(rounds, k, id) == Get(Books(rounds, k).lastUpdate, id)
    ensures Growing(rounds, k, id) ==> AtMost(ZERO, Get(Books(rounds, k).lastUpdate, id))
    ensures Growing(rounds, k, id) && k > 0 ==> AtMost(Get(Books(rounds, k).lastUpdate, id), Get(rounds[k - 1].curr, id))
  {
    hide After, Paid, Offered;
    if k > 0 {
      BilledIsRecorded(rounds, k - 1, id);
      RoundSettles(Books(rounds, k - 1), rounds[k - 1], id);
      if Growing(rounds, k, id) && k > 1 {
        assert AtMost(Get(rounds[k - 2].curr, id), Get(rounds[k - 1].curr, id));
      }
    }
  }

  // ----- a port that is restarted

  /** A forced round bills the rest of the last reading, and forgets the id. */
  lemma {:induction false} ForcedRound(l: Ledger, r: Round, id: Id)
    requires id in r.forced
    ensures !r.raised ==> id !in After(l, r).lastUpdate && id !in After(l, r).lastGet
    ensures Paid(l, r, id) ==
            if id in l.lastGet && id in l.lastUpdate && Acked(r, id)
            then Minus(l.lastGet[id], l.lastUpdate[id]) else ZERO
  {
    hide Get;
    NothingRecorded(l.lastUpdate, id);
    NothingRecorded(l.lastGet, id);
  }

  /** When an id is forced in round `k`, everything read of it before has been billed afterwards if and only
      if nothing was left over, or it had been billed before and the last instalment is acknowledged. */
  lemma {:induction false} RestartExactly(rounds: seq<Round>, k: nat, id: Id)
    requires k < |rounds| && forall i :: 0 <= i < k ==> id !in rounds[i].forced
    requires id in rounds[k].forced && id in Books(rounds, k).lastGet
    ensures var l, read := Books(rounds, k), Books(rounds, k).lastGet[id];
            PaidSoFar(rounds, k + 1, id) == read <==>
            Get(l.lastUpdate, id) == read || (id in l.lastUpdate && Acked(rounds[k], id))
  {
    hide After, Paid, Offered, Get;
    BilledIsRecorded(rounds, k, id);
    assert PaidSoFar(rounds, k + 1, id) == Plus(PaidSoFar(rounds, k, id), Paid(Books(rounds, k), rounds[k], id));
    LastInstalment(Books(rounds, k), rounds[k], Books(rounds, k).lastGet[id], id);
  }

  lemma {:induction false} LastInstalment(l: Ledger, r: Round, read: Pair, id: Id)
    requires id in r.forced && id in l.lastGet && l.lastGet[id] == read
    ensures Plus(Get(l.lastUpdate, id), Paid(l, r, id)) == read <==>
            Get(l.lastUpdate, id) == read || (id in l.lastUpdate && Acked(r, id))
  {
    hide After, Paid, Get, Plus, Minus;
    ForcedRound(l, r, id);
    NothingRecorded(l.lastUpdate, id);
    PlusMinus(Get(l.lastUpdate, id), read);
  }

  lemma {:induction false} PlusMinus(a: Pair, b: Pair)
    ensures Plus(a, Minus(b, a)) == b && Plus(a, ZERO) == a
  {
  }

  /** The last reading that is remembered is that of the last round that ended. */
  lemma {:induction false} LastReading(l: Ledger, r: Round, id: Id)
    requires id !in r.forced && id in r.curr && !r.raised
    ensures id in After(l, r).lastGet && After(l, r).lastGet[id] == r.curr[id]
  {
  }

  /** A small amount that was put off once is lost by a restart, although every push succeeds. */
  lemma {:induction false} RestartCounterexample()
    ensures var first, second := Round(map[1 := Pair(100, 0)], {}, {}, {}, false), Round(map[], {1}, {1}, {}, false);
            PaidSoFar([first, second], 2, 1) != Pair(100, 0)
  {
    hide After, Paid, Get, Offered, Plus, PaidSoFar;
    var first, second := Round(map[1 := Pair(100, 0)], {}, {}, {}, false), Round(map[], {1}, {1}, {}, false);
    var rounds := [first, second];
    assert Books(rounds, 0) == START;
    assert Books(rounds, 1) == After(START, first);
    Recorded(START, first, 1);
    NothingRecorded(After(START, first).lastUpdate, 1);
    LastReading(START, first, 1);
    RestartExactly(rounds, 1, 1);
  }

  // ----- the threshold

  /** The least amount that is sent after `n` rounds of waiting. */
  function Threshold(n: nat): int {
    1024 * (2048 - n * 64)
  }

  function Passes(passes: map<Id, nat>, id: Id): nat {
    if id in passes then passes[id] else 0
  }

  /** Whether the amount goes into the statement for the database. */
  predicate Due(passes: map<Id, nat>, forced: set<Id>, id: Id, amount: Pair) {
    id in forced || amount.u + amount.d >= Threshold(Passes(passes, id))
  }

  function PassesAfter(passes: map<Id, nat>, forced: set<Id>, offers: map<Id, Pair>): map<Id, nat> {
    map id | id in passes.Keys + offers.Keys && !(id in offers && Due(passes, forced, id, offers[id])) ::
      if id in offers then Passes(passes, id) + 1 else Passes(passes, id)
  }

  /** How often each id has been put off since it was last sent, after `k` rounds. */
  function Deferrals(rounds: seq<Round>, k: nat): map<Id, nat>
    requires k <= |rounds|
  {
    if k == 0 then map[]
    else PassesAfter(Deferrals(rounds, k - 1), rounds[k - 1].forced, Offers(Books(rounds, k - 1), rounds[k - 1]))
  }

  lemma {:induction false} OffersAre(l: Ledger, r: Round, id: Id)
    ensures id in Offers(l, r) <==> Offered(l, r, id)
    ensures id in Offers(l, r) ==> Offers(l, r)[id] == Offer(l, r, id)
    ensures id in Offers(l, r) && id !in r.forced ==> Grown(Offers(l, r)[id])
  {
  }

  lemma {:induction false} OnePass(passes: map<Id, nat>, forced: set<Id>, offers: map<Id, Pair>, id: Id)
    ensures Passes(PassesAfter(passes, forced, offers), id) ==
            if id !in offers then Passes(passes, id)
            else if Due(passes, forced, id, offers[id]) then 0
            else Passes(passes, id) + 1
  {
    var after := PassesAfter(passes, forced, offers);
    assert id in after <==> id in passes.Keys + offers.Keys && !(id in offers && Due(passes, forced, id, offers[id]));
  }

  /** No id is ever put off more than 32 times. */
  lemma {:induction false} CountStaysSmall(rounds: seq<Round>, k: nat, id: Id)
    requires k <= |rounds|
    ensures Passes(Deferrals(rounds, k), id) <= 32
  {
    hide Books, Offers, PassesAfter;
    if k > 0 {
      CountStaysSmall(rounds, k - 1, id);
      var l, r := Books(rounds, k - 1), rounds[k - 1];
      OffersAre(l, r, id);
      OnePass(Deferrals(rounds, k - 1), r.forced, Offers(l, r), id);
    }
  }

  /** Round `k` has traffic of the id to report, and leaves it for later. */
  ghost predicate PutOff(rounds: seq<Round>, k: nat, id: Id)
    requires k < |rounds|
  {
    var l, r := Books(rounds, k), rounds[k];
    Offered(l, r, id) && !Due(Deferrals(rounds, k), r.forced, id, Offer(l, r, id))
  }

  lemma {:induction false} PutOffCounts(rounds: seq<Round>, from: nat, n: nat, id: Id)
    requires from + n <= |rounds| && forall i :: from <= i < from + n ==> PutOff(rounds, i, id)
    ensures Passes(Deferrals(rounds, from + n), id) >= n
    decreases n
  {
    hide Books, Offers, Offered, Offer, PassesAfter, Passes, Due;
    if n > 0 {
      PutOffCounts(rounds, from, n - 1, id);
      var k := from + n - 1;
      var l, r := Books(rounds, k), rounds[k];
      assert PutOff(rounds, k, id);
      OffersAre(l, r, id);
      OnePass(Deferrals(rounds, k), r.forced, Offers(l, r), id);
    }
  }

  /** Unreported traffic is put off at most 32 rounds in a row. */
  lemma {:induction false} PutOffAtMost32(rounds: seq<Round>, from: nat, n: nat, id: Id)
    requires from + n <= |rounds| && forall i :: from <= i < from + n ==> PutOff(rounds, i, id)
    ensures n <= 32
  {
    PutOffCounts(rounds, from, n, id);
    CountStaysSmall(rounds, from + n, id);
  }

  // ----- traffic is billed

  /** What the books show for an id, as figures. */
  function RecordedU(l: Ledger, id: Id): int {
    if id in l.lastUpdate then l.lastUpdate[id].u else 0
  }

  function RecordedD(l: Ledger, id: Id): int {
    if id in l.lastUpdate then l.lastUpdate[id].d else 0
  }

  /** The round reads more of a plain id than the books show. */
  predicate Unreported(l: Ledger, r: Round, id: Id) {
    && id in r.curr && id !in r.forced && id !in r.shared
    && r.curr[id].u + r.curr[id].d > RecordedU(l, id) + RecordedD(l, id)
  }

  /** Apart from forced ids, just the unreported ones are offered, with just the difference; a forced id is
      offered the rest of the last reading if it is in both books. */
  lemma {:induction false} OfferedExactly(l: Ledger, r: Round, id: Id)
    ensures id !in r.forced ==> (id in Offers(l, r) <==> Unreported(l, r, id))
    ensures id in r.forced ==> (id in Offers(l, r) <==> id in l.lastGet && id in l.lastUpdate)
    ensures id in Offers(l, r) ==>
              Offers(l, r)[id] ==
              (if id in r.forced
               then Pair(l.lastGet[id].u - l.lastUpdate[id].u, l.lastGet[id].d - l.lastUpdate[id].d)
               else Pair(r.curr[id].u - RecordedU(l, id), r.curr[id].d - RecordedD(l, id)))
  {
    OffersAre(l, r, id);
  }

  /** An amount is sent if and only if it is forced or reaches two mebibytes, less 64 kibibytes for every time
      it was put off. */
  lemma {:induction false} DueExactly(passes: map<Id, nat>, forced: set<Id>, id: Id, amount: Pair)
    ensures Due(passes, forced, id, amount) <==>
            id in forced || amount.u + amount.d + 65536 * Passes(passes, id) >= 2097152
  {
  }

  /** The database accepts the round: just the offers that are due are acknowledged. */
  ghost predicate AcceptedRound(rounds: seq<Round>, k: nat)
    requires k < |rounds|
  {
    var l, r := Books(rounds, k), rounds[k];
    !r.raised && forall id :: id in r.acked <==> id in Offers(l, r) && Due(Deferrals(rounds, k), r.forced, id, Offers(l, r)[id])
  }

  /** Traffic that stays unreported through 33 accepted rounds is billed in one of them, and the books then
      show the counter just read. */
  lemma {:induction false} BilledWithin33(rounds: seq<Round>, from: nat, id: Id) returns (k: nat)
    requires from + 33 <= |rounds|
    requires forall i :: from <= i < from + 33 ==> AcceptedRound(rounds, i) && Unreported(Books(rounds, i), rounds[i], id)
    ensures from <= k < from + 33 && id in Books(rounds, k + 1).lastUpdate && id in rounds[k].curr
    ensures Books(rounds, k + 1).lastUpdate[id] == rounds[k].curr[id]
    ensures Paid(Books(rounds, k), rounds[k], id) ==
            Pair(rounds[k].curr[id].u - RecordedU(Books(rounds, k), id), rounds[k].curr[id].d - RecordedD(Books(rounds, k), id))
  {
    hide Books, Offers, Offered, Offer, After, Paid, Deferrals, Due;
    k := from;
    if forall i :: from <= i < from + 33 ==> PutOff(rounds, i, id) {
      PutOffAtMost32(rounds, from, 33, id);
      assert false;
    } else {
      k :| from <= k < from + 33 && !PutOff(rounds, k, id);
      assert AcceptedRound(rounds, k) && Unreported(Books(rounds, k), rounds[k], id);
      BilledIn(rounds, k, id);
    }
  }

  lemma {:induction false} BilledIn(rounds: seq<Round>, k: nat, id: Id)
    requires k < |rounds| && AcceptedRound(rounds, k) && Unreported(Books(rounds, k), rounds[k], id) && !PutOff(rounds, k, id)
    ensures id in Books(rounds, k + 1).lastUpdate && Books(rounds, k + 1).lastUpdate[id] == rounds[k].curr[id]
    ensures Paid(Books(rounds, k), rounds[k], id) ==
            Pair(rounds[k].curr[id].u - RecordedU(Books(rounds, k), id), rounds[k].curr[id].d - RecordedD(Books(rounds, k), id))
  {
    var l, r := Books(rounds, k), rounds[k];
    assert Books(rounds, k + 1) == After(l, r);
    hide Books, Offers, After, Deferrals, Due, Offered, Offer, Get, Plus;
    OffersAre(l, r, id);
    OfferedExactly(l, r, id);
    RoundSettles(l, r, id);
    NothingRecorded(After(l, r).lastUpdate, id);
    NothingRecorded(r.curr, id);
  }

  /** What becomes of the statement sent to the database. */
  datatype Database = Accepts | Rejects | Unreachable

  class DbTransfer {
    var lastUpdateTransfer: map<Id, Pair>
    var lastGetTransfer: map<Id, Pair>
    var forceUpdateTransfer: set<Id>
    var muPorts: set<Id>
    var userPass: map<Id, nat>
    var pullOk: bool

    function Value(): Ledger
      reads this
    {
      Ledger(lastUpdateTransfer, lastGetTransfer)
    }

    /** update_all_user: which offers the database took; none if the statement failed. An exception is raised
        if it cannot be reached although there is something to send. */
    method UpdateAllUser(offers: map<Id, Pair>, db: Database) returns (taken: map<Id, Pair>, raised: bool)
      modifies this`userPass
      ensures userPass == PassesAfter(old(userPass), forceUpdateTransfer, offers)
      ensures raised <==>
              db.Unreachable? && exists id :: id in offers && Due(old(userPass), forceUpdateTransfer, id, offers[id])
      ensures forall id :: id in taken <==>
                id in offers && db.Accepts? && Due(old(userPass), forceUpdateTransfer, id, offers[id])
      ensures forall id :: id in taken ==> taken[id] == offers[id]
    {
      hide Due, Passes, PassesAfter;
      taken := map[];
      var todo, sending := offers.Keys, false;
      ghost var done: set<Id> := {};
      BeforePasses(userPass, forceUpdateTransfer, offers);
      while todo != {}
        invariant todo !! done && todo + done == offers.Keys
        invariant PartlyPassed(old(userPass), forceUpdateTransfer, offers, done, userPass)
        invariant forall id :: id in taken <==> id in done && Due(old(userPass), forceUpdateTransfer, id, offers[id])
        invariant forall id :: id in taken ==> taken[id] == offers[id]
        invariant sending <==> exists id :: id in taken
        decreases todo
      {
        hide PartlyPassed;
        var id := Pick(todo);
        var transfer := offers[id];
        DueNow(old(userPass), forceUpdateTransfer, offers, done, userPass, id);
        if transfer.u + transfer.d < Threshold(Passes(userPass, id)) && id !in forceUpdateTransfer {
          userPass := userPass[id := Passes(userPass, id) + 1];
        } else {
          userPass := userPass - {id};
          taken := taken[id := transfer];
          sending := true;
          assert id in taken;
        }
        todo := todo - {id};
        done := done + {id};
      }
      assert done == offers.Keys;
      AfterPasses(old(userPass), forceUpdateTransfer, offers, userPass);
      raised := db.Unreachable? && sending;
      if !db.Accepts? {
        taken := map[];
      }
    }

    /** The increments to report: the rest of forced ids, then what has grown. */
    method CollectOffers(curr: map<Id, Pair>) returns (dt: map<Id, Pair>)
      ensures dt == Offers(Value(), Round(curr, {}, forceUpdateTransfer, muPorts, false))
    {
      ghost var l, r := Value(), Round(curr, {}, forceUpdateTransfer, muPorts, false);
      dt := map[];
      var todo := forceUpdateTransfer;
      while todo != {}
        invariant todo <= forceUpdateTransfer
        invariant Collected(l, r, forceUpdateTransfer - todo, dt)
        decreases todo
      {
        hide Collected;
        var id := Pick(todo);
        ghost var seen, before := forceUpdateTransfer - todo, dt;
        if id in lastGetTransfer && id in lastUpdateTransfer {
          dt := dt[id := Minus(lastGetTransfer[id], lastUpdateTransfer[id])];
        }
        todo := todo - {id};
        CollectOne(l, r, seen, before, id, dt);
        assert forceUpdateTransfer - todo == seen + {id};
      }
      todo := curr.Keys;
      assert forceUpdateTransfer - {} == forceUpdateTransfer + (curr.Keys - todo);
      while todo != {}
        invariant todo <= curr.Keys
        invariant Collected(l, r, forceUpdateTransfer + (curr.Keys - todo), dt)
        decreases todo
      {
        hide Collected;
        var id := Pick(todo);
        ghost var seen, before := forceUpdateTransfer + (curr.Keys - todo), dt;
        if id !in forceUpdateTransfer && id !in muPorts {
          if id in lastUpdateTransfer {
            if curr[id].u + curr[id].d - lastUpdateTransfer[id].u - lastUpdateTransfer[id].d > 0 {
              dt := dt[id := Minus(curr[id], lastUpdateTransfer[id])];
            }
          } else if curr[id].u + curr[id].d > 0 {
            dt := dt[id := curr[id]];
          }
        }
        todo := todo - {id};
        CollectAgain(l, r, seen, before, id, dt);
        assert forceUpdateTransfer + (curr.Keys - todo) == seen + {id};
      }
      assert forceUpdateTransfer + (curr.Keys - {}) == r.forced + r.curr.Keys;
      CollectedAll(l, r, dt);
    }

    /** The acknowledged increments are added to the books of all ids but the forced ones. */
    method Credit(taken: map<Id, Pair>)
      modifies this`lastUpdateTransfer
      ensures Credited(old(lastUpdateTransfer), taken, taken.Keys - forceUpdateTransfer, lastUpdateTransfer)
    {
      var todo := taken.Keys;
      while todo != {}
        invariant todo <= taken.Keys
        invariant Credited(old(lastUpdateTransfer), taken, taken.Keys - todo - forceUpdateTransfer, lastUpdateTransfer)
        decreases todo
      {
        var id := Pick(todo);
        if id !in forceUpdateTransfer {
          lastUpdateTransfer := lastUpdateTransfer[id := Plus(Get(lastUpdateTransfer, id), taken[id])];
        }
        todo := todo - {id};
      }
      assert taken.Keys - {} - forceUpdateTransfer == taken.Keys - forceUpdateTransfer;
    }

    /** push_db_all_user: one round, of which the database acknowledges what is due, or nothing. An exception
        leaves everything but the deferral counts as it was. */
    method PushDbAllUser(curr: map<Id, Pair>, db: Database) returns (ghost acked: set<Id>, raised: bool)
      modifies this
      ensures pullOk == old(pullOk) && muPorts == old(muPorts)
      ensures !pullOk ==>
                !raised && Value() == old(Value()) && forceUpdateTransfer == old(forceUpdateTransfer) && userPass == old(userPass)
      ensures pullOk ==>
                var l, r := old(Value()), Round(curr, acked, old(forceUpdateTransfer), muPorts, raised);
                && Value() == After(l, r) && forceUpdateTransfer == (if raised then old(forceUpdateTransfer) else {})
                && userPass == PassesAfter(old(userPass), r.forced, Offers(l, r))
                && (forall id :: id in acked <==>
                      Offered(l, r, id) && db.Accepts? && Due(old(userPass), r.forced, id, Offer(l, r, id)))
                && (raised <==>
                    (db.Unreachable? && exists id :: Offered(l, r, id) && Due(old(userPass), r.forced, id, Offer(l, r, id))))
    {
      hide After, Offers, Offered, Offer, Due, PassesAfter, Credited;
      acked, raised := {}, false;
      if !pullOk {
        return;
      }
      ghost var l, forced, passes := Value(), forceUpdateTransfer, userPass;
      var dt := CollectOffers(curr);
      var taken;
      taken, raised := UpdateAllUser(dt, db);
      acked := taken.Keys;
      ghost var r := Round(curr, acked, forced, muPorts, raised);
      AcksDoNotMatter(l, r, Round(curr, {}, forced, muPorts, false));
      forall id
        ensures id in dt <==> Offered(l, r, id)
        ensures id in dt ==> dt[id] == Offer(l, r, id)
      {
        OffersAre(l, r, id);
      }
      if raised {
        RaisedRound(l, r);
        return;
      }
      Credit(taken);
      lastGetTransfer := curr - forceUpdateTransfer;
      CreditedIsAfter(l, r, taken, lastUpdateTransfer);
      lastUpdateTransfer := lastUpdateTransfer - forceUpdateTransfer;
      forceUpdateTransfer := {};
    }

    /** The object is where these rounds lead. */
    ghost predicate Shows(rounds: seq<Round>)
      reads this
    {
      Value() == Books(rounds, |rounds|) && userPass == Deferrals(rounds, |rounds|)
    }

    /** A round on the object is a round of the history. */
    method PushRound(curr: map<Id, Pair>, db: Database, ghost rounds: seq<Round>) returns (ghost r: Round)
      requires pullOk && Shows(rounds)
      modifies this
      ensures pullOk && Shows(rounds + [r]) && r.curr == curr && r.forced == old(forceUpdateTransfer) && r.shared == muPorts
      ensures db.Accepts? ==> AcceptedRound(rounds + [r], |rounds|)
    {
      hide Books, Deferrals, After, Offers, Offered, Offer, PassesAfter, Due;
      ghost var l, forced := Value(), forceUpdateTransfer;
      ghost var acked: set<Id>;
      var raised: bool;
      acked, raised := PushDbAllUser(curr, db);
      r := Round(curr, acked, forced, muPorts, raised);
      BooksNext(rounds, r);
      forall id
        ensures id in Offers(l, r) <==> Offered(l, r, id)
        ensures id in Offers(l, r) ==> Offers(l, r)[id] == Offer(l, r, id)
      {
        OffersAre(l, r, id);
      }
    }
  }

  lemma {:induction false} BooksPrefix(rounds: seq<Round>, r: Round, k: nat)
    requires k <= |rounds|
    ensures Books(rounds + [r], k) == Books(rounds, k) && Deferrals(rounds + [r], k) == Deferrals(rounds, k)
  {
    hide After, Offers, PassesAfter;
    if k > 0 {
      BooksPrefix(rounds, r, k - 1);
      assert (rounds + [r])[k - 1] == rounds[k - 1];
    }
  }

  lemma {:induction false} BooksNext(rounds: seq<Round>, r: Round)
    ensures var n, all := |rounds|, rounds + [r];
            && Books(all, n) == Books(rounds, n) && Deferrals(all, n) == Deferrals(rounds, n) && all[n] == r
            && Books(all, n + 1) == After(Books(rounds, n), r)
            && Deferrals(all, n + 1) == PassesAfter(Deferrals(rounds, n), r.forced, Offers(Books(rounds, n), r))
  {
    hide After, Offers, PassesAfter;
    BooksPrefix(rounds, r, |rounds|);
  }

  lemma {:induction false} RaisedRound(l: Ledger, r: Round)
    requires r.raised
    ensures After(l, r) == l
  {
  }

  /** `dt` holds the offers among the ids in `seen`. */
  ghost predicate Collected(l: Ledger, r: Round, seen: set<Id>, dt: map<Id, Pair>) {
    && (forall id :: id in dt <==> id in seen && Offered(l, r, id))
    && (forall id :: id in dt ==> dt[id] == Offer(l, r, id))
  }

  lemma {:induction false} CollectOne(l: Ledger, r: Round, seen: set<Id>, before: map<Id, Pair>, id: Id, dt: map<Id, Pair>)
    requires Collected(l, r, seen, before) && id in r.forced
    requires dt == if id in l.lastGet && id in l.lastUpdate then before[id := Minus(l.lastGet[id], l.lastUpdate[id])] else before
    ensures Collected(l, r, seen + {id}, dt)
  {
  }

  lemma {:induction false} CollectAgain(l: Ledger, r: Round, seen: set<Id>, before: map<Id, Pair>, id: Id, dt: map<Id, Pair>)
    requires Collected(l, r, seen, before) && id in r.curr && (id in r.forced ==> id in seen)
    requires dt == if id !in r.forced && Offered(l, r, id) then before[id := Minus(r.curr[id], Get(l.lastUpdate, id))] else before
    ensures Collected(l, r, seen + {id}, dt)
  {
  }

  lemma {:induction false} CollectedAll(l: Ledger, r: Round, dt: map<Id, Pair>)
    requires Collected(l, r, r.forced + r.curr.Keys, dt)
    ensures dt == Offers(l, r)
  {
    var offers := Offers(l, r);
    forall id
      ensures id in dt <==> id in offers
      ensures id in dt ==> dt[id] == offers[id]
    {
      OffersAre(l, r, id);
    }
    assert dt.Keys == offers.Keys;
  }

  lemma {:induction false} AcksDoNotMatter(l: Ledger, r: Round, s: Round)
    requires r.curr == s.curr && r.forced == s.forced && r.shared == s.shared
    ensures Offers(l, r) == Offers(l, s)
  {
    CollectedAll(l, r, Offers(l, s));
  }

  /** `now` is `before` with the increments of `those` added. */
  ghost predicate Credited(before: map<Id, Pair>, taken: map<Id, Pair>, those: set<Id>, now: map<Id, Pair>)
    requires those <= taken.Keys
  {
    && now.Keys == before.Keys + those
    && forall id :: id in now ==> now[id] == if id in those then Plus(Get(before, id), taken[id]) else Get(before, id)
  }

  lemma {:induction false} CreditedIsAfter(l: Ledger, r: Round, taken: map<Id, Pair>, now: map<Id, Pair>)
    requires Credited(l.lastUpdate, taken, taken.Keys - r.forced, now) && r.acked == taken.Keys && !r.raised
    requires forall id :: id in taken ==> Offered(l, r, id) && taken[id] == Offer(l, r, id)
    ensures After(l, r) == Ledger(now - r.forced, r.curr - r.forced)
  {
    hide Get;
    var left, after := now - r.forced, After(l, r).lastUpdate;
    forall id
      ensures id in left <==> id in after
      ensures id in left ==> left[id] == after[id]
    {
      if id !in r.forced {
        Recorded(l, r, id);
        PlusZero(Get(l.lastUpdate, id));
      }
    }
    assert left.Keys == after.Keys;
  }

  /** The counts while `done` has been looked at. */
  ghost predicate PartlyPassed(passes: map<Id, nat>, forced: set<Id>, offers: map<Id, Pair>, done: set<Id>, now: map<Id, nat>)
    requires done <= offers.Keys
  {
    && (forall id :: id in now <==> if id in done then !Due(passes, forced, id, offers[id]) else id in passes)
    && (forall id :: id in now ==> now[id] == Passes(passes, id) + if id in done then 1 else 0)
  }

  lemma {:induction false} BeforePasses(passes: map<Id, nat>, forced: set<Id>, offers: map<Id, Pair>)
    ensures PartlyPassed(passes, forced, offers, {}, passes)
  {
  }

  lemma {:induction false} AfterPasses(passes: map<Id, nat>, forced: set<Id>, offers: map<Id, Pair>, now: map<Id, nat>)
    requires PartlyPassed(passes, forced, offers, offers.Keys, now)
    ensures now == PassesAfter(passes, forced, offers)
  {
    var after := PassesAfter(passes, forced, offers);
    assert forall id :: id in now <==> id in after;
    assert now.Keys == after.Keys;
  }

  /** One more offer looked at. */
  lemma {:induction false} DueNow(
      passes: map<Id, nat>, forced: set<Id>, offers: map<Id, Pair>, done: set<Id>, now: map<Id, nat>, id: Id)
    requires done <= offers.Keys && id in offers && id !in done
    requires PartlyPassed(passes, forced, offers, done, now)
    ensures var amount := offers[id];
            Due(passes, forced, id, amount) <==> !(amount.u + amount.d < Threshold(Passes(now, id)) && id !in forced)
    ensures Due(passes, forced, id, offers[id]) ==> PartlyPassed(passes, forced, offers, done + {id}, now - {id})
    ensures !Due(passes, forced, id, offers[id]) ==>
              PartlyPassed(passes, forced, offers, done + {id}, now[id := Passes(now, id) + 1])
  {
  }
}
