/**
  Buffered stream decoding.

  Every receiver of this program keeps a buffer, appends what the socket delivered, and peels whole
  frames off its front while it can. This module states that loop once, over an arbitrary one-frame
  decoder, and proves when its result is independent of how the bytes were cut into reads.
*/
module Streaming {
  import opened Binary

  /** How a receiver gives up: with the decoy reply of 2048 bytes, or with an exception. */
  datatype Fault = Decoy | Raise

  /** What a decoder makes of the front of its buffer. */
  datatype Step<S> =
    | More
    | Bad(fault: Fault)
    | Frame(out: Bytes, next: S, used: nat, echo: bool)

  type Decoder<!S> = (S, Bytes) -> Step<S>

  /** The effect of one call: decoded bytes, new state, left-over buffer, and whether to send back. */
  datatype Result<S> =
    | Done(out: Bytes, state: S, rest: Bytes, echo: bool)
    | Broken(fault: Fault)

  /** A frame, once recognised, is recognised the same way whatever follows; a fault never hides one. */
  ghost predicate Steady<S(!new)>(d: Decoder<S>) {
    && (forall s, b :: d(s, b).Frame? ==> 0 < d(s, b).used <= |b|)
    && (forall s, b, more :: d(s, b).Frame? ==> d(s, b + more) == d(s, b))
    && (forall s, b, more :: d(s, b).Bad? ==> !d(s, b + more).Frame?)
  }

  /** Faults persist too: the decoder never waits past an error it has already reported. */
  ghost predicate Decisive<S(!new)>(d: Decoder<S>) {
    && Steady(d)
    && (forall s, b, more :: d(s, b).Bad? ==> d(s, b + more) == d(s, b))
  }

  function After<S>(out: Bytes, echo: bool, r: Result<S>): Result<S> {
    match r
    case Done(o, s, rest, e) => Done(out + o, s, rest, echo || e)
    case Broken(f) => Broken(f)
  }

  /** One call's loop: peel frames off `buf` until more bytes are needed. */
  function Drain<S(!new)>(d: Decoder<S>, s: S, buf: Bytes): Result<S>
    requires Steady(d)
    decreases |buf|
  {
    match d(s, buf)
    case More => Done([], s, buf, false)
    case Bad(f) => Broken(f)
    case Frame(out, next, used, echo) => After(out, echo, Drain(d, next, buf[used..]))
  }

  /** A sequence of calls, one for each piece the socket delivers. */
  function Feed<S(!new)>(d: Decoder<S>, s: S, buf: Bytes, pieces: seq<Bytes>): Result<S>
    requires Steady(d)
    decreases |pieces|
  {
    if pieces == [] then Done([], s, buf, false)
    else
      match Drain(d, s, buf + pieces[0])
      case Broken(f) => Broken(f)
      case Done(out, s1, rest, echo) => After(out, echo, Feed(d, s1, rest, pieces[1..]))
  }

  lemma {:induction false} DrainStops<S(!new)>(d: Decoder<S>, s: S, buf: Bytes)
    requires Steady(d)
    ensures Drain(d, s, buf).Done? ==> d(Drain(d, s, buf).state, Drain(d, s, buf).rest).More?
    decreases |buf|
  {
    if d(s, buf).Frame? {
      DrainStops(d, d(s, buf).next, buf[d(s, buf).used..]);
    }
  }

  /** Draining what has arrived, then the rest together with what arrives next, is draining at once. */
  lemma {:induction false} DrainAppend<S(!new)>(d: Decoder<S>, s: S, a: Bytes, b: Bytes)
    requires Steady(d) && Drain(d, s, a).Done?
    ensures var r := Drain(d, s, a);
            Drain(d, s, a + b) == After(r.out, r.echo, Drain(d, r.state, r.rest + b))
    decreases |a|
  {
    match d(s, a)
    case More =>
      assert Drain(d, s, a) == Done([], s, a, false);
      AfterNothing(Drain(d, s, a + b));
    case Frame(out, next, used, echo) =>
      assert d(s, a + b) == d(s, a);
      assert (a + b)[used..] == a[used..] + b;
      DrainAppend(d, next, a[used..], b);
      var r := Drain(d, next, a[used..]);
      AfterAfter(out, echo, r.out, r.echo, Drain(d, r.state, r.rest + b));
  }

  lemma {:induction false} AfterNothing<S>(r: Result<S>)
    ensures After([], false, r) == r
  {
    if r.Done? {
      assert [] + r.out == r.out;
    }
  }

  lemma {:induction false} AfterAfter<S>(o1: Bytes, e1: bool, o2: Bytes, e2: bool, r: Result<S>)
    ensures After(o1, e1, After(o2, e2, r)) == After(o1 + o2, e1 || e2, r)
  {
    if r.Done? {
      assert o1 + (o2 + r.out) == (o1 + o2) + r.out;
    }
  }

  lemma {:induction false} FeedNothing<S(!new)>(d: Decoder<S>, s: S, buf: Bytes)
    requires Steady(d) && d(s, buf).More?
    ensures Feed(d, s, buf, []) == Drain(d, s, buf + Join([])) == Done([], s, buf, false)
  {
    assert buf + Join([]) == buf;
  }

  lemma {:induction false} FeedStep<S(!new)>(d: Decoder<S>, s: S, buf: Bytes, pieces: seq<Bytes>)
    requires Steady(d) && pieces != []
    ensures var r := Drain(d, s, buf + pieces[0]);
            && (r.Broken? ==> Feed(d, s, buf, pieces).Broken?)
            && (r.Done? ==>
                  var later := Feed(d, r.state, r.rest, pieces[1..]);
                  Feed(d, s, buf, pieces) == After(r.out, r.echo, later) && (Feed(d, s, buf, pieces).Done? ==> later.Done?))
    ensures buf + Join(pieces) == (buf + pieces[0]) + Join(pieces[1..])
  {
    hide Drain, Steady;
    assert Join(pieces) == pieces[0] + Join(pieces[1..]);
  }

  /** If no call failed, the calls together did what one call on the whole stream does. */
  lemma {:induction false} FeedSound<S(!new)>(d: Decoder<S>, s: S, buf: Bytes, pieces: seq<Bytes>)
    requires Steady(d) && d(s, buf).More?
    requires Feed(d, s, buf, pieces).Done?
    ensures Feed(d, s, buf, pieces) == Drain(d, s, buf + Join(pieces))
    decreases |pieces|
  {
    hide Drain, Steady, Feed, Join, After;
    if pieces == [] {
      FeedNothing(d, s, buf);
    } else {
      var got, later := buf + pieces[0], pieces[1..];
      FeedStep(d, s, buf, pieces);
      var r := Drain(d, s, got);
      DrainStops(d, s, got);
      FeedSound(d, r.state, r.rest, later);
      DrainAppend(d, s, got, Join(later));
    }
  }

  /** No prefix of the undecoded residue looks like a fault. */
  ghost predicate Clean<S>(d: Decoder<S>, s: S, rest: Bytes) {
    forall k :: 0 <= k <= |rest| ==> !d(s, rest[..k]).Bad?
  }

  lemma {:induction false} CleanPrefix<S(!new)>(d: Decoder<S>, s: S, a: Bytes, b: Bytes)
    requires Steady(d)
    requires var r := Drain(d, s, a + b); r.Done? && Clean(d, r.state, r.rest)
    ensures Drain(d, s, a).Done?
    decreases |a|
  {
    assert (a + b)[..|a|] == a;
    match d(s, a)
    case More =>
    case Frame(out, next, used, echo) =>
      assert d(s, a + b) == d(s, a);
      assert (a + b)[used..] == a[used..] + b;
      CleanPrefix(d, next, a[used..], b);
    case Bad(f) =>
      assert false;
  }

  /** A stream that decodes cleanly as a whole decodes to the same thing under every segmentation. */
  lemma {:induction false} FeedComplete<S(!new)>(d: Decoder<S>, s: S, buf: Bytes, pieces: seq<Bytes>)
    requires Steady(d) && d(s, buf).More?
    requires var r := Drain(d, s, buf + Join(pieces)); r.Done? && Clean(d, r.state, r.rest)
    ensures Feed(d, s, buf, pieces) == Drain(d, s, buf + Join(pieces))
    decreases |pieces|
  {
    if pieces == [] {
      assert buf + Join(pieces) == buf;
    } else {
      var a, b := buf + pieces[0], Join(pieces[1..]);
      assert buf + Join(pieces) == a + b;
      CleanPrefix(d, s, a, b);
      DrainStops(d, s, a);
      DrainAppend(d, s, a, b);
      var r := Drain(d, s, a);
      FeedComplete(d, r.state, r.rest, pieces[1..]);
    }
  }

  lemma {:induction false} BrokenAppend<S(!new)>(d: Decoder<S>, s: S, a: Bytes, b: Bytes)
    requires Decisive(d) && Drain(d, s, a).Broken?
    ensures Drain(d, s, a + b) == Drain(d, s, a)
    decreases |a|
  {
    assert d(s, a + b) == d(s, a);
    if d(s, a).Frame? {
      var used := d(s, a).used;
      assert (a + b)[used..] == a[used..] + b;
      BrokenAppend(d, d(s, a).next, a[used..], b);
    }
  }

  /** With persistent faults, success, failure and the fault reported are all independent of the cuts. */
  lemma {:induction false} FeedExact<S(!new)>(d: Decoder<S>, s: S, buf: Bytes, pieces: seq<Bytes>)
    requires Decisive(d) && d(s, buf).More?
    ensures Feed(d, s, buf, pieces) == Drain(d, s, buf + Join(pieces))
    decreases |pieces|
  {
    if pieces == [] {
      assert buf + Join(pieces) == buf;
    } else {
      var a, b := buf + pieces[0], Join(pieces[1..]);
      assert buf + Join(pieces) == a + b;
      var r := Drain(d, s, a);
      if r.Broken? {
        BrokenAppend(d, s, a, b);
      } else {
        DrainStops(d, s, a);
        DrainAppend(d, s, a, b);
        FeedExact(d, r.state, r.rest, pieces[1..]);
      }
    }
  }

  // ----- streams produced by a sender

  /** One frame as sent: its bytes, the payload it carries, and the receiver's state after it. */
  datatype Packet<S> = Packet(wire: Bytes, data: Bytes, next: S, echo: bool)

  /** The length of a frame without payload and padding; receivers look at it only once more follows. */
  const HELD := 4

  /** The receiver reads `p` whatever follows, or holds back an empty frame that nothing follows. */
  ghost predicate Reads<S(!new)>(d: Decoder<S>, s: S, p: Packet<S>) {
    && (forall rest {:trigger d(s, p.wire + rest)} ::
          rest != [] ==> d(s, p.wire + rest) == Frame(p.data, p.next, |p.wire|, p.echo))
    && (|| d(s, p.wire) == Frame(p.data, p.next, |p.wire|, p.echo)
        || (d(s, p.wire).More? && p.data == [] && |p.wire| == HELD && Clean(d, s, p.wire)))
  }

  ghost predicate Sent<S(!new)>(d: Decoder<S>, s: S, ps: seq<Packet<S>>)
    decreases |ps|
  {
    ps == [] || (Reads(d, s, ps[0]) && ps[0].wire != [] && Sent(d, ps[0].next, ps[1..]))
  }

  function Wire<S>(ps: seq<Packet<S>>): Bytes {
    if ps == [] then [] else ps[0].wire + Wire(ps[1..])
  }

  function Payload<S>(ps: seq<Packet<S>>): Bytes {
    if ps == [] then [] else ps[0].data + Payload(ps[1..])
  }

  function Final<S>(s: S, ps: seq<Packet<S>>): S {
    if ps == [] then s else ps[|ps| - 1].next
  }

  lemma {:induction false} WireAppends<S>(a: seq<Packet<S>>, b: seq<Packet<S>>)
    ensures Wire(a + b) == Wire(a) + Wire(b) && Payload(a + b) == Payload(a) + Payload(b)
    decreases |a|
  {
    if a == [] {
      assert a + b == b;
    } else {
      assert (a + b)[1..] == a[1..] + b;
      WireAppends(a[1..], b);
    }
  }

  lemma {:induction false} FinalAppends<S>(s: S, a: seq<Packet<S>>, b: seq<Packet<S>>)
    ensures Final(s, a + b) == Final(Final(s, a), b)
  {
    if b == [] {
      assert a + b == a;
    }
  }

  /** The rest of a sent stream is sent from where its first part leads. */
  lemma {:induction false} SentDrops<S(!new)>(d: Decoder<S>, s: S, ps: seq<Packet<S>>, k: nat)
    requires Sent(d, s, ps) && k <= |ps|
    ensures Sent(d, Final(s, ps[..k]), ps[k..])
    ensures Wire(ps) == Wire(ps[..k]) + Wire(ps[k..]) && Payload(ps) == Payload(ps[..k]) + Payload(ps[k..])
    ensures Final(s, ps) == Final(Final(s, ps[..k]), ps[k..])
    decreases k
  {
    assert ps == ps[..k] + ps[k..];
    WireAppends(ps[..k], ps[k..]);
    FinalAppends(s, ps[..k], ps[k..]);
    if k > 0 {
      SentDrops(d, ps[0].next, ps[1..], k - 1);
      assert ps[..k][1..] == ps[1..][..k - 1] && ps[k..] == ps[1..][k - 1..];
      assert Final(s, ps[..k]) == Final(ps[0].next, ps[1..][..k - 1]);
    } else {
      assert ps[..0] == [] && ps[0..] == ps;
    }
  }

  lemma {:induction false} SentAppends<S(!new)>(d: Decoder<S>, s: S, a: seq<Packet<S>>, b: seq<Packet<S>>)
    requires Sent(d, s, a) && Sent(d, Final(s, a), b)
    ensures Sent(d, s, a + b) && Final(s, a + b) == Final(Final(s, a), b)
    decreases |a|
  {
    if a == [] {
      assert a + b == b;
    } else {
      assert (a + b)[0] == a[0] && (a + b)[1..] == a[1..] + b;
      assert Final(s, a) == Final(a[0].next, a[1..]);
      SentAppends(d, a[0].next, a[1..], b);
    }
  }

  /** What is left when every sent byte has arrived: nothing, or one held-back empty last frame. */
  ghost predicate Settled<S>(s: S, ps: seq<Packet<S>>, r: Result<S>) {
    && r.Done?
    && r.out == Payload(ps)
    && (|| (r.rest == [] && r.state == Final(s, ps))
        || (ps != [] && var last := ps[|ps| - 1];
            last.data == [] && r.rest == last.wire && |r.rest| == 4 && r.state == Final(s, ps[..|ps| - 1])))
  }

  /** No frame is as short as one that can be held back. */
  ghost predicate NoneHeld<S>(ps: seq<Packet<S>>) {
    ps == [] || (|ps[0].wire| > HELD && NoneHeld(ps[1..]))
  }

  lemma {:induction false} NoneHeldAppends<S>(a: seq<Packet<S>>, b: seq<Packet<S>>)
    requires NoneHeld(a) && NoneHeld(b)
    ensures NoneHeld(a + b)
    decreases |a|
  {
    if a == [] {
      assert a + b == b;
    } else {
      assert (a + b)[1..] == a[1..] + b;
      NoneHeldAppends(a[1..], b);
    }
  }

  lemma {:induction false} LastIsNotHeld<S>(ps: seq<Packet<S>>)
    requires NoneHeld(ps) && ps != []
    ensures |ps[|ps| - 1].wire| > HELD
    decreases |ps|
  {
    if |ps| > 1 {
      LastIsNotHeld(ps[1..]);
    }
  }

  lemma {:induction false} SettledShifts<S>(s: S, ps: seq<Packet<S>>, r: Result<S>)
    requires |ps| > 1 && Settled(ps[0].next, ps[1..], r)
    ensures Settled(s, ps, After(ps[0].data, ps[0].echo, r))
  {
    var tail := ps[1..];
    assert ps[..|ps| - 1][1..] == tail[..|tail| - 1];
    assert ps[|ps| - 1] == tail[|tail| - 1];
  }

  lemma {:induction false} DrainSent<S(!new)>(d: Decoder<S>, s: S, ps: seq<Packet<S>>)
    requires Steady(d) && Sent(d, s, ps) && (forall t :: d(t, []).More?)
    ensures Settled(s, ps, Drain(d, s, Wire(ps)))
    ensures var r := Drain(d, s, Wire(ps)); Clean(d, r.state, r.rest)
    decreases |ps|
  {
    if ps == [] {
    } else {
      var p, tail := ps[0], ps[1..];
      if tail == [] {
        assert Wire(ps) == p.wire + [] == p.wire;
        assert p.data + [] == p.data;
        assert Payload(ps) == p.data && ps[..0] == [];
        if d(s, p.wire).Frame? {
          assert p.wire[|p.wire|..] == [];
          assert Drain(d, p.next, []) == Done([], p.next, [], false);
          assert Drain(d, s, p.wire) == Done(p.data, p.next, [], p.echo);
        }
      } else {
        assert Wire(tail) != [];
        assert d(s, p.wire + Wire(tail)) == Frame(p.data, p.next, |p.wire|, p.echo);
        assert (p.wire + Wire(tail))[|p.wire|..] == Wire(tail);
        hide Settled, Clean, Reads;
        DrainSent(d, p.next, tail);
        SettledShifts(s, ps, Drain(d, p.next, Wire(tail)));
      }
    }
  }

  /** Whatever packets were sent, and however their bytes were cut, the receiver outputs their payload. */
  lemma {:induction false} Delivery<S(!new)>(d: Decoder<S>, s: S, ps: seq<Packet<S>>, pieces: seq<Bytes>)
    requires Steady(d) && Sent(d, s, ps) && (forall t :: d(t, []).More?)
    requires Join(pieces) == Wire(ps)
    ensures Settled(s, ps, Feed(d, s, [], pieces))
  {
    DrainSent(d, s, ps);
    assert [] + Join(pieces) == Wire(ps);
    FeedComplete(d, s, [], pieces);
  }

  /** The receiver stands at a frame boundary of the sender: it has read the first `k` packets, is in the
      state that the sender gives them, and holds the bytes that came behind them. */
  ghost predicate AtBoundary<S>(s: S, ps: seq<Packet<S>>, got: Bytes, r: Result<S>, k: nat) {
    && k <= |ps| && r.Done?
    && r.state == Final(s, ps[..k]) && r.out == Payload(ps[..k]) && Wire(ps[..k]) + r.rest == got
  }

  /** What the first bytes of a stream of packets can be: too few, or the whole first packet. */
  lemma {:induction false} FirstOfSent<S(!new)>(d: Decoder<S>, s: S, ps: seq<Packet<S>>, got: Bytes)
    requires Steady(d) && Sent(d, s, ps) && ps != [] && got <= Wire(ps)
    ensures var p := ps[0];
            || d(s, got).More?
            || (d(s, got) == Frame(p.data, p.next, |p.wire|, p.echo) && p.wire <= got && got[|p.wire|..] <= Wire(ps[1..]))
  {
    var p, tail := ps[0], Wire(ps[1..]);
    var flight := Wire(ps)[|got|..];
    assert got + flight == Wire(ps) == p.wire + tail;
    if tail == [] {
      assert p.wire + tail == p.wire;
      if d(s, p.wire).More? {
        assert p.wire[..|got|] == got;
      }
    }
    if d(s, got).Frame? {
      assert d(s, got + flight) == d(s, got);
      assert got[..|p.wire|] == Wire(ps)[..|p.wire|] == p.wire;
      assert got[|p.wire|..] == tail[..|got| - |p.wire|];
    }
  }

  lemma {:induction false} SentTakes<S(!new)>(d: Decoder<S>, s: S, ps: seq<Packet<S>>, k: nat)
    requires Sent(d, s, ps) && k <= |ps|
    ensures Sent(d, s, ps[..k])
    decreases k
  {
    if k > 0 {
      SentTakes(d, ps[0].next, ps[1..], k - 1);
      assert ps[..k][0] == ps[0] && ps[..k][1..] == ps[1..][..k - 1];
    }
  }

  /** Behind packets that are read, a receiver fails on what it would fail on alone. */
  lemma {:induction false} DrainBreaks<S(!new)>(d: Decoder<S>, s: S, ps: seq<Packet<S>>, bad: Bytes)
    requires Steady(d) && Sent(d, s, ps) && bad != [] && Drain(d, Final(s, ps), bad).Broken?
    ensures Drain(d, s, Wire(ps) + bad) == Drain(d, Final(s, ps), bad)
    decreases |ps|
  {
    if ps == [] {
      assert Wire(ps) + bad == bad;
    } else {
      var p, later := ps[0], Wire(ps[1..]) + bad;
      assert Wire(ps) + bad == p.wire + later;
      assert d(s, p.wire + later) == Frame(p.data, p.next, |p.wire|, p.echo);
      assert (p.wire + later)[|p.wire|..] == later;
      assert Final(s, ps) == Final(p.next, ps[1..]);
      DrainBreaks(d, p.next, ps[1..], bad);
    }
  }

  /** However such a stream is cut, the receiver fails. */
  lemma {:induction false} FeedBreaks<S(!new)>(d: Decoder<S>, s: S, ps: seq<Packet<S>>, bad: Bytes, pieces: seq<Bytes>)
    requires Steady(d) && Sent(d, s, ps) && bad != [] && Drain(d, Final(s, ps), bad).Broken? && d(s, []).More?
    requires Join(pieces) == Wire(ps) + bad
    ensures Feed(d, s, [], pieces).Broken?
  {
    DrainBreaks(d, s, ps, bad);
    assert [] + Join(pieces) == Wire(ps) + bad;
    if Feed(d, s, [], pieces).Done? {
      FeedSound(d, s, [], pieces);
      assert false;
    }
  }

  /** However many bytes of the stream have arrived, the receiver stands at a frame boundary. */
  lemma {:induction false} BoundaryOf<S(!new)>(d: Decoder<S>, s: S, ps: seq<Packet<S>>, got: Bytes) returns (k: nat)
    requires Steady(d) && Sent(d, s, ps) && (forall t :: d(t, []).More?) && got <= Wire(ps)
    ensures AtBoundary(s, ps, got, Drain(d, s, got), k)
    decreases |ps|
  {
    k := 0;
    assert ps[..0] == [] && [] + got == got;
    if ps != [] {
      FirstOfSent(d, s, ps, got);
      if d(s, got).Frame? {
        var p := ps[0];
        var later := got[|p.wire|..];
        k := BoundaryOf(d, p.next, ps[1..], later);
        var r := Drain(d, p.next, later);
        BoundaryShifts(s, ps, later, r, k);
        k := k + 1;
        assert got == p.wire + later;
      }
    }
  }

  lemma {:induction false} BoundaryShifts<S>(s: S, ps: seq<Packet<S>>, later: Bytes, r: Result<S>, k: nat)
    requires ps != [] && AtBoundary(ps[0].next, ps[1..], later, r, k)
    ensures AtBoundary(s, ps, ps[0].wire + later, After(ps[0].data, ps[0].echo, r), k + 1)
  {
    var p := ps[0];
    assert ps[..k + 1][1..] == ps[1..][..k] && ps[..k + 1][0] == p;
    assert p.wire + Wire(ps[1..][..k]) + r.rest == p.wire + (Wire(ps[1..][..k]) + r.rest);
  }

  /** While bytes are still in flight, after any number of calls, the receiver stands at a frame boundary:
      its state is the sender's state there, its output the payload up to there. */
  lemma {:induction false} PartialDelivery<S(!new)>(d: Decoder<S>, s: S, ps: seq<Packet<S>>, pieces: seq<Bytes>)
    returns (k: nat)
    requires Steady(d) && Sent(d, s, ps) && (forall t :: d(t, []).More?)
    requires Join(pieces) <= Wire(ps)
    ensures AtBoundary(s, ps, Join(pieces), Feed(d, s, [], pieces), k)
  {
    var got := Join(pieces);
    var flight := Wire(ps)[|got|..];
    assert Wire(ps) == got + flight;
    assert Join(pieces + [flight]) == Wire(ps) by { JoinAppends(pieces, [flight]); assert Join([flight]) == flight; }
    Delivery(d, s, ps, pieces + [flight]);
    FeedAppend(d, s, [], pieces, [flight]);
    FeedSound(d, s, [], pieces);
    assert [] + got == got;
    k := BoundaryOf(d, s, ps, got);
  }

  lemma {:induction false} FeedAppend<S(!new)>(d: Decoder<S>, s: S, buf: Bytes, a: seq<Bytes>, b: seq<Bytes>)
    requires Steady(d) && Feed(d, s, buf, a + b).Done?
    ensures var r := Feed(d, s, buf, a);
            r.Done? && Feed(d, s, buf, a + b) == After(r.out, r.echo, Feed(d, r.state, r.rest, b))
    decreases |a|
  {
    if a == [] {
      assert a + b == b;
      AfterNothing(Feed(d, s, buf, b));
    } else {
      assert (a + b)[0] == a[0] && (a + b)[1..] == a[1..] + b;
      var r := Drain(d, s, buf + a[0]);
      FeedAppend(d, r.state, r.rest, a[1..], b);
      var t := Feed(d, r.state, r.rest, a[1..]);
      AfterAfter(r.out, r.echo, t.out, t.echo, Feed(d, t.state, t.rest, b));
    }
  }

  /** What each call of a sequence outputs, up to the first failing call. */
  function Outputs<S(!new)>(d: Decoder<S>, s: S, buf: Bytes, pieces: seq<Bytes>): seq<Bytes>
    requires Steady(d)
    decreases |pieces|
  {
    if pieces == [] then []
    else
      match Drain(d, s, buf + pieces[0])
      case Broken(_) => []
      case Done(out, s1, rest, _) => [out] + Outputs(d, s1, rest, pieces[1..])
  }

  lemma {:induction false} OutputsJoin<S(!new)>(d: Decoder<S>, s: S, buf: Bytes, pieces: seq<Bytes>)
    requires Steady(d) && Feed(d, s, buf, pieces).Done?
    ensures Join(Outputs(d, s, buf, pieces)) == Feed(d, s, buf, pieces).out
    decreases |pieces|
  {
    hide Drain;
    if pieces != [] {
      var r := Drain(d, s, buf + pieces[0]);
      OutputsJoin(d, r.state, r.rest, pieces[1..]);
      var outs := Outputs(d, s, buf, pieces);
      assert outs[0] == r.out && outs[1..] == Outputs(d, r.state, r.rest, pieces[1..]);
    }
  }

  // ----- the relay's view

  /** What a receiving call returns to the relay. */
  datatype Reply = Reply(data: Bytes, sendback: bool) | Raised

  function DecoyReply(): (r: Bytes)
    ensures |r| == 2048 && forall i :: 0 <= i < |r| ==> r[i] == 'E' as int
  {
    seq(2048, _ => 69)
  }

  /** The relay's view of a decoding result. */
  function ReplyOf<S>(r: Result<S>): Reply {
    match r
    case Done(out, _, _, echo) => Reply(out, echo)
    case Broken(Decoy) => Reply(DecoyReply(), false)
    case Broken(Raise) => Raised
  }
}
