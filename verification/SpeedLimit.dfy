/** The rate limiter: a level that data raises and time lowers, and the bound it enforces on every interval. */
module SpeedLimit {

  /** The limiter's clock and level; `speed` is the limit in bytes per second. */
  datatype Meter = Meter(speed: real, lastTime: real, sumLen: real)

  function Drained(m: Meter, now: real): Meter {
    var level := m.sumLen - (now - m.lastTime) * m.speed;
    m.(sumLen := if level < 0.0 then 0.0 else level, lastTime := now)
  }

  function Added(m: Meter, now: real, n: nat): Meter {
    var d := Drained(m, now);
    d.(sumLen := d.sumLen + n as real)
  }

  predicate Exceeds(m: Meter, now: real) {
    Drained(m, now).sumLen >= m.speed
  }

  class SpeedTester {
    var maxSpeed: real
    var lastTime: real
    var sumLen: real

    constructor (kilobytes: nat, now: real)
      ensures State() == Meter((kilobytes * 1024) as real, now, 0.0)
    {
      maxSpeed, lastTime, sumLen := (kilobytes * 1024) as real, now, 0.0;
    }

    function State(): Meter
      reads this
    {
      Meter(maxSpeed, lastTime, sumLen)
    }

    method UpdateLimit(kilobytes: nat)
      modifies `maxSpeed
      ensures State() == old(State()).(speed := (kilobytes * 1024) as real)
    {
      maxSpeed := (kilobytes * 1024) as real;
    }

    method Add(dataLen: nat, now: real)
      modifies `lastTime, `sumLen
      ensures State() == if maxSpeed > 0.0 then Added(old(State()), now, dataLen) else old(State())
    {
      if maxSpeed > 0.0 {
        sumLen := sumLen - (now - lastTime) * maxSpeed;
        if sumLen < 0.0 {
          sumLen := 0.0;
        }
        lastTime := now;
        sumLen := sumLen + dataLen as real;
      }
    }

    method IsExceed(now: real) returns (exceeded: bool)
      modifies `lastTime, `sumLen
      ensures State() == if maxSpeed > 0.0 then Drained(old(State()), now) else old(State())
      ensures exceeded <==> maxSpeed > 0.0 && Exceeds(old(State()), now)
    {
      if maxSpeed > 0.0 {
        sumLen := sumLen - (now - lastTime) * maxSpeed;
        if sumLen < 0.0 {
          sumLen := 0.0;
        }
        lastTime := now;
        return sumLen >= maxSpeed;
      }
      return false;
    }
  }

  // ----- the bound

  /** The relay asks before it reads: a refused read only drains the level, an admitted one is added. */
  datatype Attempt = Refused(at: real) | Admitted(asked: real, at: real, n: nat)

  function After(m: Meter, a: Attempt): Meter {
    match a
    case Refused(at) => Drained(m, at)
    case Admitted(asked, at, n) => Added(Drained(m, asked), at, n)
  }

  /** Times do not run backwards, each admission follows a negative answer, and no read exceeds `most`. */
  ghost predicate Obeys(m: Meter, run: seq<Attempt>, most: nat)
    decreases |run|
  {
    run == [] ||
    (&& m.lastTime <= run[0].at
     && (run[0].Admitted? ==>
           m.lastTime <= run[0].asked <= run[0].at && !Exceeds(m, run[0].asked) && run[0].n <= most)
     && Obeys(After(m, run[0]), run[1..], most))
  }

  /** The bytes admitted from time `t0` to time `t1`. */
  function BytesIn(run: seq<Attempt>, t0: real, t1: real): nat {
    if run == [] then 0
    else (if run[0].Admitted? && t0 <= run[0].at <= t1 then run[0].n else 0) + BytesIn(run[1..], t0, t1)
  }

  /** What the limit allows in a stretch of time. */
  function Worth(speed: real, seconds: real): real {
    speed * seconds
  }

  lemma {:induction false} WorthIs(speed: real, seconds: real)
    ensures Worth(speed, seconds) == speed * seconds
  {
  }

  lemma {:induction false} Distribute(speed: real, a: real, b: real, c: real)
    requires a + b == c
    ensures Worth(speed, a) + Worth(speed, b) == Worth(speed, c)
  {
  }

  lemma {:induction false} Grows(speed: real, a: real, b: real)
    requires speed > 0.0 && a <= b
    ensures Worth(speed, a) <= Worth(speed, b)
    ensures Worth(speed, 0.0) == 0.0
  {
    assert speed * (b - a) >= 0.0;
    assert speed * (b - a) == speed * b - speed * a;
  }

  /** Time alone lowers the level by at most `speed` per second. */
  lemma {:induction false} DrainedAtLeast(m: Meter, now: real)
    requires m.speed > 0.0
    ensures Drained(m, now).sumLen >= m.sumLen - Worth(m.speed, now - m.lastTime)
    ensures Drained(m, now).sumLen >= 0.0 && Drained(m, now).speed == m.speed && Drained(m, now).lastTime == now
  {
    assert (now - m.lastTime) * m.speed == Worth(m.speed, now - m.lastTime);
  }

  lemma {:induction false} DrainedAtMost(m: Meter, now: real)
    requires m.speed > 0.0 && m.lastTime <= now && m.sumLen >= 0.0
    ensures Drained(m, now).sumLen <= m.sumLen
  {
    Grows(m.speed, 0.0, now - m.lastTime);
    assert (now - m.lastTime) * m.speed == Worth(m.speed, now - m.lastTime);
  }

  /** `w` bytes admitted since `t0` are either still in the level or were drained since. */
  ghost predicate Accounted(m: Meter, w: nat, t0: real) {
    w > 0 ==> w as real <= m.sumLen + Worth(m.speed, m.lastTime - t0)
  }

  lemma {:induction false} DrainKeepsAccount(m: Meter, now: real, w: nat, t0: real)
    requires m.speed > 0.0 && m.lastTime <= now && Accounted(m, w, t0)
    ensures Accounted(Drained(m, now), w, t0)
  {
    hide Worth;
    DrainedAtLeast(m, now);
    Distribute(m.speed, now - m.lastTime, m.lastTime - t0, now - t0);
  }

  lemma {:induction false} ExceedsMeans(m: Meter, now: real)
    ensures Exceeds(m, now) <==> Drained(m, now).sumLen >= m.speed
  {
  }

  /** An admission raises the level by what it admits and leaves it below `speed + most`. */
  lemma {:induction false} AdmissionAccounts(m: Meter, a: Attempt, most: nat, w: nat, t0: real)
    requires m.speed > 0.0 && m.sumLen >= 0.0 && a.Admitted? && t0 <= a.at && Accounted(m, w, t0)
    requires m.lastTime <= a.asked <= a.at && !Exceeds(m, a.asked) && a.n <= most
    ensures var r := After(m, a);
            && r.speed == m.speed && r.lastTime == a.at && 0.0 <= r.sumLen < m.speed + most as real
            && (w + a.n) as real <= r.sumLen + Worth(m.speed, a.at - t0)
  {
    hide Worth, Drained;
    ExceedsMeans(m, a.asked);
    var d := Drained(m, a.asked);
    DrainedAtLeast(m, a.asked);
    DrainKeepsAccount(m, a.asked, w, t0);
    var e := Drained(d, a.at);
    DrainedAtLeast(d, a.at);
    DrainedAtMost(d, a.at);
    DrainKeepsAccount(d, a.at, w, t0);
    Grows(m.speed, 0.0, a.at - t0);
  }

  lemma {:induction false} BoundFrom(m: Meter, run: seq<Attempt>, most: nat, t0: real, t1: real, w: nat)
    requires m.speed > 0.0 && m.sumLen >= 0.0 && t0 <= t1 && Obeys(m, run, most) && Accounted(m, w, t0)
    requires w as real < Worth(m.speed, t1 - t0) + m.speed + most as real
    ensures (w + BytesIn(run, t0, t1)) as real < Worth(m.speed, t1 - t0) + m.speed + most as real
    decreases |run|
  {
    hide Drained, Exceeds, After, Worth;
    if run != [] {
      var a, next := run[0], After(m, run[0]);
      if a.Admitted? && t0 <= a.at {
        AdmissionAccounts(m, a, most, w, t0);
        if a.at <= t1 {
          Grows(m.speed, a.at - t0, t1 - t0);
          BoundFrom(next, run[1..], most, t0, t1, w + a.n);
        } else {
          Lighter(next, w, a.n, t0);
          BoundFrom(next, run[1..], most, t0, t1, w);
        }
      } else {
        OutsideAccounts(m, a, most, w, t0);
        BoundFrom(next, run[1..], most, t0, t1, w);
      }
    }
  }

  lemma {:induction false} Lighter(m: Meter, w: nat, n: nat, t0: real)
    requires (w + n) as real <= m.sumLen + Worth(m.speed, m.lastTime - t0)
    ensures Accounted(m, w, t0)
  {
  }

  /** A refused attempt, or an admission before the interval, keeps the account. */
  lemma {:induction false} OutsideAccounts(m: Meter, a: Attempt, most: nat, w: nat, t0: real)
    requires m.speed > 0.0 && m.sumLen >= 0.0 && Accounted(m, w, t0) && m.lastTime <= a.at
    requires a.Admitted? ==> m.lastTime <= a.asked <= a.at
    ensures var r := After(m, a); r.speed == m.speed && r.sumLen >= 0.0 && Accounted(r, w, t0)
  {
    match a
    case Refused(at) =>
      DrainedAtLeast(m, at);
      DrainKeepsAccount(m, at, w, t0);
    case Admitted(asked, at, n) =>
      var d := Drained(m, asked);
      DrainedAtLeast(m, asked);
      DrainKeepsAccount(m, asked, w, t0);
      DrainedAtLeast(d, at);
      DrainKeepsAccount(d, at, w, t0);
  }

  /** Over every interval the bytes admitted stay below the limit times its length, plus one second's worth,
      plus one read. */
  lemma {:induction false} RateBound(m: Meter, run: seq<Attempt>, most: nat, t0: real, t1: real)
    requires m.speed > 0.0 && m.sumLen >= 0.0 && t0 <= t1 && Obeys(m, run, most)
    ensures BytesIn(run, t0, t1) as real < m.speed * (t1 - t0) + m.speed + most as real
  {
    Grows(m.speed, 0.0, t1 - t0);
    assert Worth(m.speed, t1 - t0) == m.speed * (t1 - t0);
    BoundFrom(m, run, most, t0, t1, 0);
  }

  // ----- and no more than the limit is refused

  /** The answer, without the level's history: what time has not worn off since the last look is at least one
      second's worth. */
  lemma {:induction false} ExceedsExactly(m: Meter, now: real)
    requires m.speed > 0.0
    ensures Exceeds(m, now) <==> m.sumLen >= m.speed * (now - m.lastTime) + m.speed
  {
    assert (now - m.lastTime) * m.speed == m.speed * (now - m.lastTime);
  }

  /** After long enough a pause everything is admitted again. */
  lemma {:induction false} Recovers(m: Meter, now: real)
    requires m.speed > 0.0 && m.lastTime <= now && m.sumLen <= m.speed * (now - m.lastTime)
    ensures !Exceeds(m, now)
  {
    ExceedsExactly(m, now);
  }

  /** `w` bytes admitted since `t0` make up the level and what time has worn off since. */
  ghost predicate Busy(m: Meter, w: nat, t0: real) {
    t0 <= m.lastTime && w as real >= m.sumLen + Worth(m.speed, m.lastTime - t0)
  }

  /** Time goes on: the busy period continues, or ends and a new one begins with nothing admitted. */
  lemma {:induction false} DrainBusy(m: Meter, now: real, w: nat, t0: real) returns (v: nat, t: real)
    requires m.speed > 0.0 && m.lastTime <= now && Busy(m, w, t0)
    ensures Busy(Drained(m, now), v, t) && ((v == w && t == t0) || (v == 0 && t == now))
  {
    v, t := w, t0;
    assert (now - m.lastTime) * m.speed == Worth(m.speed, now - m.lastTime);
    hide Worth;
    Distribute(m.speed, now - m.lastTime, m.lastTime - t0, now - t0);
    Grows(m.speed, 0.0, 0.0);
    if Drained(m, now).sumLen == 0.0 {
      v, t := 0, now;
      assert now - now == 0.0;
    }
  }

  function End(m: Meter, run: seq<Attempt>): Meter
    decreases |run|
  {
    if run == [] then m else End(After(m, run[0]), run[1..])
  }

  lemma {:induction false} ClockAdvances(m: Meter, run: seq<Attempt>, most: nat)
    requires Obeys(m, run, most)
    ensures m.lastTime <= End(m, run).lastTime && End(m, run).speed == m.speed
    decreases |run|
  {
    if run != [] {
      ClockAdvances(After(m, run[0]), run[1..], most);
    }
  }

  /** One attempt: the period continues with what is admitted, or a new one begins with it. */
  lemma {:induction false} AttemptBusy(m: Meter, a: Attempt, w: nat, t0: real) returns (v: nat, t: real)
    requires m.speed > 0.0 && Busy(m, w, t0) && m.lastTime <= a.at && (a.Admitted? ==> m.lastTime <= a.asked <= a.at)
    ensures var n := if a.Admitted? then a.n else 0;
            && Busy(After(m, a), v + n, t) && t <= a.at && ((v == w && t == t0) || (v == 0 && m.lastTime <= t))
  {
    hide Drained, Worth;
    match a
    case Refused(at) =>
      v, t := DrainBusy(m, at, w, t0);
      DrainedAtLeast(m, at);
    case Admitted(asked, at, n) =>
      v, t := DrainBusy(m, asked, w, t0);
      DrainedAtLeast(m, asked);
      var d := Drained(m, asked);
      v, t := DrainBusy(d, at, v, t);
      DrainedAtLeast(d, at);
  }

  lemma {:induction false} BusyEnds(m: Meter, w: nat, t0: real, t1: real)
    requires m.speed > 0.0 && Busy(m, w, t0) && m.lastTime <= t1 && Exceeds(m, t1)
    ensures w as real >= Worth(m.speed, t1 - t0) + m.speed
  {
    ExceedsExactly(m, t1);
    Distribute(m.speed, m.lastTime - t0, t1 - m.lastTime, t1 - t0);
  }

  lemma {:induction false} BusyRun(m: Meter, run: seq<Attempt>, most: nat, w: nat, t0: real, t1: real)
    returns (t: real, anew: bool)
    requires m.speed > 0.0 && Obeys(m, run, most) && Busy(m, w, t0)
    requires End(m, run).lastTime <= t1 && Exceeds(End(m, run), t1)
    ensures t0 <= t <= t1 && (!anew ==> t == t0)
    ensures ((if anew then 0 else w) + BytesIn(run, t, t1)) as real >= Worth(m.speed, t1 - t) + m.speed
    decreases |run|
  {
    hide Drained, Exceeds, Worth, After;
    if run == [] {
      t, anew := t0, false;
      BusyEnds(m, w, t0, t1);
    } else {
      var a, later := run[0], run[1..];
      ClockAdvances(After(m, a), later, most);
      AfterClock(m, a);
      var v, s := AttemptBusy(m, a, w, t0);
      var n := if a.Admitted? then a.n else 0;
      t, anew := BusyRun(After(m, a), later, most, v + n, s, t1);
      assert BytesIn(run, t, t1) >= BytesIn(later, t, t1);
      if !anew {
        assert BytesIn(run, t, t1) == n + BytesIn(later, t, t1);
        anew := !(v == w && s == t0);
      }
    }
  }

  lemma {:induction false} AfterClock(m: Meter, a: Attempt)
    ensures After(m, a).lastTime == a.at && After(m, a).speed == m.speed
  {
  }

  /** The limiter refuses only when the limit is reached: if it does at `t1`, then in some interval up to `t1`
      at least the limit times its length plus one second's worth has been admitted. */
  lemma {:induction false} RefusedOnlyAtLimit(m: Meter, run: seq<Attempt>, most: nat, t1: real) returns (t0: real)
    requires m.speed > 0.0 && m.sumLen == 0.0 && Obeys(m, run, most)
    requires End(m, run).lastTime <= t1 && Exceeds(End(m, run), t1)
    ensures m.lastTime <= t0 <= t1
    ensures BytesIn(run, t0, t1) as real >= m.speed * (t1 - t0) + m.speed
  {
    hide Drained, Exceeds, After, End, Obeys, BytesIn, Worth;
    var anew;
    Grows(m.speed, 0.0, 0.0);
    assert m.lastTime - m.lastTime == 0.0;
    t0, anew := BusyRun(m, run, most, 0, m.lastTime, t1);
    WorthIs(m.speed, t1 - t0);
  }
}
