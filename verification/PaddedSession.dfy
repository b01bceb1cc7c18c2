/**
  Client-to-server connections of auth_aes128_* and auth_sha1_v4: their handshakes, which already carry
  payload, followed by padded frames.
*/
module PaddedSession {
  import opened Binary
  import opened Streaming
  import opened PaddedFrames

  /** What a server makes of the first bytes of a connection. */
  datatype Greeting = Undecided | Rejected | Welcome(data: Bytes, userKey: Bytes, used: nat)

  /** A server as its receiver sees it: the handshake test, the seals for a user's key, and whether it counts
      the calls with output (auth_sha1_v4) to decide about the decoy, instead of looking at the frame id. */
  datatype Server = Server(greet: Bytes -> Greeting, seals: Bytes -> Sealer, counts: bool)

  datatype State = Fresh | Talking(userKey: Bytes, id: Word32)

  ghost predicate SteadyGreeting(g: Bytes -> Greeting) {
    && g([]).Undecided?
    && (forall b :: g(b).Welcome? ==> 0 < g(b).used <= |b|)
    && (forall b, more :: g(b).Welcome? ==> g(b + more) == g(b))
    && (forall b, more :: g(b).Rejected? ==> !g(b + more).Welcome?)
  }

  function FrameFault(sv: Server, id: Word32): Fault {
    if !sv.counts && id == 0 then Decoy else Raise
  }

  function UpStep(sv: Server, s: State, buf: Bytes): Step<State> {
    match s
    case Fresh => (
      match sv.greet(buf)
      case Undecided => More
      case Rejected => Bad(Decoy)
      case Welcome(data, userKey, used) => Frame(data, Talking(userKey, 1), used, true)
    )
    case Talking(userKey, id) => (
      match Open(sv.seals(userKey), id, buf)
      case Wait => More
      case Forged => Bad(FrameFault(sv, id))
      case Refused => Bad(FrameFault(sv, id))
      case Opened(data, used, echo) => Frame(data, Talking(userKey, NextId(id)), used, echo)
    )
  }

  function UpDecoder(sv: Server): Decoder<State> {
    (s: State, buf: Bytes) => UpStep(sv, s, buf)
  }

  lemma {:induction false} UpIsSteady(sv: Server)
    requires SteadyGreeting(sv.greet)
    ensures Steady(UpDecoder(sv))
    ensures forall s :: UpDecoder(sv)(s, []).More?
  {
    hide Open;
    var d := UpDecoder(sv);
    forall s, b: Bytes, more: Bytes
      ensures d(s, b).Frame? ==> d(s, b + more) == d(s, b)
      ensures d(s, b).Bad? ==> !d(s, b + more).Frame?
    {
      if s.Talking? {
        OpenIsStable(sv.seals(s.userKey), s.id, b, more);
      }
    }
    forall s, b: Bytes
      ensures d(s, b).Frame? ==> 0 < d(s, b).used <= |b|
    {
      if s.Talking? {
        OpenIsStable(sv.seals(s.userKey), s.id, b, []);
      }
    }
    forall s
      ensures d(s, []).More?
    {
      if s.Talking? {
        ShortWaits(sv.seals(s.userKey), s.id, []);
      }
    }
  }

  function UpPacket(userKey: Bytes, p: Packet<Word32>): Packet<State> {
    Packet(p.wire, p.data, Talking(userKey, p.next), p.echo)
  }

  function UpPackets(userKey: Bytes, ps: seq<Packet<Word32>>): (r: seq<Packet<State>>)
    ensures |r| == |ps|
  {
    if ps == [] then [] else [UpPacket(userKey, ps[0])] + UpPackets(userKey, ps[1..])
  }

  lemma {:induction false} UpPacketIsRead(sv: Server, userKey: Bytes, id: Word32, data: Bytes, h: nat, noise: nat -> Byte)
    requires Fits(h, |data|)
    ensures Reads(UpDecoder(sv), Talking(userKey, id), UpPacket(userKey, Pack(sv.seals(userKey), id, data, h, noise)))
  {
    hide Open;
    var d, s := UpDecoder(sv), Talking(userKey, id);
    var p := UpPacket(userKey, Pack(sv.seals(userKey), id, data, h, noise));
    forall rest: Bytes
      ensures d(s, p.wire + rest) == Frame(p.data, p.next, |p.wire|, p.echo)
    {
      OpenPacked(sv.seals(userKey), id, data, h, noise, rest);
    }
    assert p.wire + [] == p.wire;
  }

  lemma {:induction false} UpUnitsArrive(sv: Server, userKey: Bytes, id: Word32, units: seq<Bytes>, w: Write, k: nat)
    requires AllFit(units, w.heads, k)
    ensures var ps := PackUnits(sv.seals(userKey), id, units, w, k);
            var us := UpPackets(userKey, ps);
            && Sent(UpDecoder(sv), Talking(userKey, id), us) && Payload(us) == Join(units)
            && Final(Talking(userKey, id), us) == Talking(userKey, Final(id, ps)) && NoneHeld(us)
    decreases |units|
  {
    hide Pack, Reads, UpDecoder, AllFit;
    if units != [] {
      AllFitTail(units, w.heads, k);
      var sl, noise := sv.seals(userKey), (i: nat) => w.noise(k, i);
      var p := Pack(sl, id, units[0], w.heads(k), noise);
      UpPacketIsRead(sv, userKey, id, units[0], w.heads(k), noise);
      UpUnitsArrive(sv, userKey, p.next, units[1..], w, k + 1);
      var ps := PackUnits(sl, id, units, w, k);
      assert ps[0] == p && ps[1..] == PackUnits(sl, p.next, units[1..], w, k + 1);
      var us := UpPackets(userKey, ps);
      assert us[0] == UpPacket(userKey, p) && us[1..] == UpPackets(userKey, ps[1..]);
    }
  }

  lemma {:induction false} UpPacketsAppend(userKey: Bytes, a: seq<Packet<Word32>>, b: seq<Packet<Word32>>)
    ensures UpPackets(userKey, a + b) == UpPackets(userKey, a) + UpPackets(userKey, b)
    decreases |a|
  {
    if a == [] {
      assert a + b == b;
    } else {
      assert (a + b)[1..] == a[1..] + b;
      UpPacketsAppend(userKey, a[1..], b);
    }
  }

  lemma {:induction false} LaterWritesArrive(sv: Server, userKey: Bytes, id: Word32, ws: seq<Write>)
    requires WritesFit(ws)
    ensures var us := UpPackets(userKey, WritePackets(sv.seals(userKey), id, ws));
            Sent(UpDecoder(sv), Talking(userKey, id), us) && Payload(us) == Text(ws) && NoneHeld(us)
    decreases |ws|
  {
    hide UpDecoder, PackUnits, Reads, AllFit;
    if ws != [] {
      var sl := sv.seals(userKey);
      var ps := PackUnits(sl, id, Units(ws[0].data, UNIT), ws[0], 0);
      var rest := WritePackets(sl, Final(id, ps), ws[1..]);
      UpUnitsArrive(sv, userKey, id, Units(ws[0].data, UNIT), ws[0], 0);
      LaterWritesArrive(sv, userKey, Final(id, ps), ws[1..]);
      UpPacketsAppend(userKey, ps, rest);
      var a, b := UpPackets(userKey, ps), UpPackets(userKey, rest);
      SentAppends(UpDecoder(sv), Talking(userKey, id), a, b);
      WireAppends(a, b);
      NoneHeldAppends(a, b);
    }
  }

  // ----- the first write

  /** The whole upward stream: a handshake that carries `data[..cut]`, the rest of the first write, and
      later writes. */
  function Session(sv: Server, userKey: Bytes, hello: Bytes, ws: seq<Write>): (ps: seq<Packet<State>>)
    requires ws != [] && SessionFits(ws)
  {
    [Packet(hello, ws[0].data[..FirstCut(ws[0].data, ws[0].extra)], Talking(userKey, 1), true)] + Behind(sv, userKey, ws)
  }

  ghost predicate SessionFits(ws: seq<Write>)
    requires ws != []
  {
    AllFit(Units(ws[0].data[FirstCut(ws[0].data, ws[0].extra)..], UNIT), ws[0].heads, 1) && WritesFit(ws[1..])
  }

  ghost predicate SessionDrawn(rule: Rule, ws: seq<Write>)
    requires ws != []
  {
    Drawn(rule, Units(ws[0].data[FirstCut(ws[0].data, ws[0].extra)..], UNIT), |ws[0].data|, ws[0].heads, 1) && WritesDrawn(rule, ws[1..])
  }

  lemma {:induction false} SessionDrawnFits(rule: Rule, ws: seq<Write>)
    requires Bounded(rule) && ws != [] && SessionDrawn(rule, ws)
    ensures SessionFits(ws)
  {
    hide Bounded, Drawn, AllFit, FirstCut, WritesDrawn, WritesFit;
    DrawnFit(rule, ws[0].data[FirstCut(ws[0].data, ws[0].extra)..], |ws[0].data|, ws[0].heads, 1);
    WritesDrawnFit(rule, ws[1..]);
  }

  /** The session whose headers the rule has chosen. */
  ghost function DrawnSession(sv: Server, rule: Rule, userKey: Bytes, hello: Bytes, ws: seq<Write>): seq<Packet<State>>
    requires Bounded(rule) && ws != [] && SessionDrawn(rule, ws)
  {
    SessionDrawnFits(rule, ws);
    Session(sv, userKey, hello, ws)
  }

  /** The server reads `hello`, whatever follows it, as a handshake by `userKey` that carries `data`. */
  ghost predicate Welcomes(sv: Server, hello: Bytes, data: Bytes, userKey: Bytes) {
    forall rest :: sv.greet(hello + rest) == Welcome(data, userKey, |hello|)
  }

  lemma {:induction false} GreetingIsRead(sv: Server, hello: Bytes, data: Bytes, userKey: Bytes)
    requires Welcomes(sv, hello, data, userKey)
    ensures Reads(UpDecoder(sv), Fresh, Packet(hello, data, Talking(userKey, 1), true))
  {
    hide Open;
    var d := UpDecoder(sv);
    forall rest: Bytes
      ensures d(Fresh, hello + rest) == Frame(data, Talking(userKey, 1), |hello|, true)
    {
      assert sv.greet(hello + rest) == Welcome(data, userKey, |hello|);
    }
    assert hello + [] == hello;
  }

  /** The frames behind the handshake. */
  function Behind(sv: Server, userKey: Bytes, ws: seq<Write>): seq<Packet<State>>
    requires ws != [] && SessionFits(ws)
  {
    var sl := sv.seals(userKey);
    var ps := PackUnits(sl, 1, Units(ws[0].data[FirstCut(ws[0].data, ws[0].extra)..], UNIT), ws[0], 1);
    UpPackets(userKey, ps + WritePackets(sl, Final(1, ps), ws[1..]))
  }

  lemma {:induction false} BehindArrives(sv: Server, userKey: Bytes, ws: seq<Write>)
    requires ws != [] && SessionFits(ws)
    ensures var us := Behind(sv, userKey, ws);
            && Sent(UpDecoder(sv), Talking(userKey, 1), us) && NoneHeld(us)
            && Payload(us) == ws[0].data[FirstCut(ws[0].data, ws[0].extra)..] + Text(ws[1..])
  {
    hide UpDecoder, PackUnits, WritePackets, Reads, AllFit, FirstCut, WritesFit, Units, UpPackets;
    var d, w, cut, sl := UpDecoder(sv), ws[0], FirstCut(ws[0].data, ws[0].extra), sv.seals(userKey);
    var ps := PackUnits(sl, 1, Units(w.data[cut..], UNIT), w, 1);
    var later := WritePackets(sl, Final(1, ps), ws[1..]);
    UpUnitsArrive(sv, userKey, 1, Units(w.data[cut..], UNIT), w, 1);
    LaterWritesArrive(sv, userKey, Final(1, ps), ws[1..]);
    UpPacketsAppend(userKey, ps, later);
    var a, b := UpPackets(userKey, ps), UpPackets(userKey, later);
    SentAppends(d, Talking(userKey, 1), a, b);
    WireAppends(a, b);
    NoneHeldAppends(a, b);
  }

  lemma {:induction false} SessionArrives(sv: Server, userKey: Bytes, hello: Bytes, ws: seq<Write>)
    requires ws != [] && SessionFits(ws) && |hello| > HELD
    requires Welcomes(sv, hello, ws[0].data[..FirstCut(ws[0].data, ws[0].extra)], userKey)
    ensures var ps := Session(sv, userKey, hello, ws);
            Sent(UpDecoder(sv), Fresh, ps) && Payload(ps) == Text(ws) && NoneHeld(ps)
  {
    hide UpDecoder, Reads, Welcomes, FirstCut, SessionFits, Behind;
    var w, cut := ws[0], FirstCut(ws[0].data, ws[0].extra);
    GreetingIsRead(sv, hello, w.data[..cut], userKey);
    BehindArrives(sv, userKey, ws);
    var all := Session(sv, userKey, hello, ws);
    assert all[1..] == Behind(sv, userKey, ws);
    assert w.data[..cut] + (w.data[cut..] + Text(ws[1..])) == Text(ws) by {
      assert w.data[..cut] + w.data[cut..] == w.data;
    }
  }

  /** If the server reads the handshake as sent, it outputs exactly what the client wrote: for every
      padding and every segmentation, with nothing left waiting and equal frame ids at both ends. */
  lemma {:induction false} ClientToServer(
    sv: Server, userKey: Bytes, hello: Bytes, ws: seq<Write>, pieces: seq<Bytes>)
    requires ws != [] && SessionFits(ws) && SteadyGreeting(sv.greet) && |hello| > HELD
    requires Welcomes(sv, hello, ws[0].data[..FirstCut(ws[0].data, ws[0].extra)], userKey)
    requires Join(pieces) == Wire(Session(sv, userKey, hello, ws))
    ensures Steady(UpDecoder(sv))
    ensures Feed(UpDecoder(sv), Fresh, [], pieces).Done?
    ensures var r := Feed(UpDecoder(sv), Fresh, [], pieces);
            r.out == Text(ws) && r.rest == [] && r.state == Final(Fresh, Session(sv, userKey, hello, ws))
  {
    hide UpDecoder, Session, SessionFits, SteadyGreeting, Welcomes, FirstCut, Text;
    UpIsSteady(sv);
    SessionArrives(sv, userKey, hello, ws);
    var all := Session(sv, userKey, hello, ws);
    Delivery(UpDecoder(sv), Fresh, all, pieces);
    if all != [] {
      LastIsNotHeld(all);
    }
  }

  /** A faulty frame behind the handshake breaks the call: with the decoy only where frame ids decide and the id
      is zero; a server that counts leaves the choice to the number of calls. */
  lemma {:induction false} FaultyFrameBreaks(sv: Server, userKey: Bytes, id: Word32, buf: Bytes)
    requires SteadyGreeting(sv.greet)
    requires var o := Open(sv.seals(userKey), id, buf); o.Forged? || o.Refused?
    ensures Steady(UpDecoder(sv))
    ensures Drain(UpDecoder(sv), Talking(userKey, id), buf) == Broken(if !sv.counts && id == 0 then Decoy else Raise)
  {
    hide Open;
    UpIsSteady(sv);
    assert UpDecoder(sv)(Talking(userKey, id), buf) == UpStep(sv, Talking(userKey, id), buf);
  }
}
