/** The auth_chain stream from the server to the client. */
module ChainDown {
  import opened Binary
  import opened Streaming
  import opened ChainPadding
  import opened ChainFrames
  import opened ChainSession

  /** The client's position in the server's stream, and the segment size the server announced. */
  datatype DownState = DownState(chain: Chain, mss: Word16)

  /** The client takes a two-byte segment size off the front of the frame numbered one. */
  function DownStep(link: Link, s: DownState, buf: Bytes): Step<DownState>
    requires link.Valid()
  {
    match Open(link, s.chain, buf)
    case Wait => More
    case Refused => Bad(Raise)
    case Opened(data, next, used) =>
      if s.chain.id != 1 then Frame(data, DownState(next, s.mss), used, false)
      else if |data| < 2 then Bad(Raise)
      else Frame(data[2..], DownState(next, U16le(data[..2])), used, false)
  }

  function DownDecoder(link: Link): Decoder<DownState>
    requires link.Valid()
  {
    (s, buf) => DownStep(link, s, buf)
  }

  lemma {:induction false} DownStepIsStable(link: Link, s: DownState, buf: Bytes, more: Bytes)
    requires link.Valid()
    ensures DownStep(link, s, buf).Frame? ==> 0 < DownStep(link, s, buf).used <= |buf|
    ensures !DownStep(link, s, buf).More? ==> DownStep(link, s, buf + more) == DownStep(link, s, buf)
  {
    hide Open;
    OpenIsStable(link, s.chain, buf, more);
  }

  /** The client's receiver never changes its mind, neither about a frame nor about a fault. */
  lemma {:induction false} DownIsDecisive(link: Link)
    requires link.Valid()
    ensures Decisive(DownDecoder(link))
    ensures forall s :: DownDecoder(link)(s, []).More?
  {
    hide Open;
    var d := DownDecoder(link);
    forall s, b: Bytes, more: Bytes
      ensures d(s, b).Frame? ==> d(s, b + more) == d(s, b)
      ensures d(s, b).Bad? ==> d(s, b + more) == d(s, b)
    {
      DownStepIsStable(link, s, b, more);
    }
    forall s, b: Bytes
      ensures d(s, b).Frame? ==> 0 < d(s, b).used <= |b|
    {
      DownStepIsStable(link, s, b, []);
    }
    forall s
      ensures d(s, []).More?
    {
      EmptyWaits(link, s.chain);
    }
  }

  lemma {:induction false} EmptyWaits(link: Link, s: Chain)
    requires link.Valid()
    ensures Open(link, s, []) == Wait
  {
  }

  /** A server frame, seen as a packet for the client in state `s`. */
  function DownPacket(s: DownState, p: Packet<Chain>): Packet<DownState>
    requires s.chain.id == 1 ==> |p.data| >= 2
  {
    if s.chain.id == 1 then Packet(p.wire, p.data[2..], DownState(p.next, U16le(p.data[..2])), false)
    else Packet(p.wire, p.data, DownState(p.next, s.mss), false)
  }

  lemma {:induction false} DownPacketIsRead(link: Link, s: DownState, data: Bytes, noise: nat -> Byte)
    requires link.Valid() && |data| < FRAME_LIMIT && (s.chain.id == 1 ==> |data| >= 2)
    ensures Reads(DownDecoder(link), s, DownPacket(s, Pack(link, s.chain, data, noise)))
  {
    hide PadLen, Ready, Open, Pack;
    var d := DownDecoder(link);
    var p := DownPacket(s, Pack(link, s.chain, data, noise));
    forall rest: Bytes | rest != [] || |p.wire| > 4
      ensures d(s, p.wire + rest) == Frame(p.data, p.next, |p.wire|, p.echo)
    {
      OpenPacked(link, s.chain, data, noise, rest);
    }
    assert p.wire + [] == p.wire;
    if |p.wire| <= 4 {
      forall k | 0 <= k <= |p.wire|
        ensures d(s, p.wire[..k]).More?
      {
        ShortWaits(link, s.chain, p.wire[..k]);
      }
      assert p.wire[..|p.wire|] == p.wire;
    }
  }

  /** The units of one server write; the first write starts with the segment size. */
  function DownUnits(first: bool, mss: Word16, unit: nat, data: Bytes): (us: seq<Bytes>)
    requires unit >= 1
    ensures us != [] && (first && unit >= 2 ==> |us[0]| >= 2)
    ensures forall i :: 0 <= i < |us| ==> |us[i]| <= unit
    ensures Join(us) == if first then Le16(mss) + data else data
  {
    Units(if first then Le16(mss) + data else data, unit)
  }

  /** The packets for a run of units, as the client in state `s` reads them. */
  function DownPackets(link: Link, s: DownState, units: seq<Bytes>, noise: (nat, nat) -> Byte, k: nat)
    : (ps: seq<Packet<DownState>>)
    requires link.Valid() && forall i :: 0 <= i < |units| ==> |units[i]| < FRAME_LIMIT
    requires Unwrapped(s, units)
    ensures |ps| == |units|
    decreases |units|
  {
    hide Pack, PadLen, Ready, DownPacket, Link.Valid, U16le, NextId;
    if units == [] then []
    else
      UnwrappedNext(link, s, units, Nth(noise, k));
      var p := DownPacket(s, Pack(link, s.chain, units[0], Nth(noise, k)));
      [p] + DownPackets(link, p.next, units[1..], noise, k + 1)
  }

  /** The frame ids of a run do not wrap around, and a frame numbered one holds the segment size. */
  ghost predicate Unwrapped(s: DownState, units: seq<Bytes>) {
    && 1 <= s.chain.id && s.chain.id + |units| < 0x1_0000_0000
    && (s.chain.id == 1 && units != [] ==> |units[0]| >= 2)
  }

  lemma {:induction false} UnwrappedNext(link: Link, s: DownState, units: seq<Bytes>, noise: nat -> Byte)
    requires link.Valid() && units != [] && |units[0]| < FRAME_LIMIT && Unwrapped(s, units)
    ensures Unwrapped(DownPacket(s, Pack(link, s.chain, units[0], noise)).next, units[1..])
  {
    hide Pack, PadLen, Ready, U16le;
  }

  lemma {:induction false} DownPacketsStep(
    link: Link, s: DownState, units: seq<Bytes>, noise: (nat, nat) -> Byte, k: nat)
    requires link.Valid() && units != [] && forall i :: 0 <= i < |units| ==> |units[i]| < FRAME_LIMIT
    requires Unwrapped(s, units)
    ensures var d := DownPacket(s, Pack(link, s.chain, units[0], Nth(noise, k)));
            && Unwrapped(d.next, units[1..])
            && DownPackets(link, s, units, noise, k) == [d] + DownPackets(link, d.next, units[1..], noise, k + 1)
  {
    hide Pack, PadLen, Ready, DownPacket;
    UnwrappedNext(link, s, units, Nth(noise, k));
  }

  /** Packets for the client, and the plain frames they are on the wire. */
  ghost predicate SameFrames(ps: seq<Packet<DownState>>, qs: seq<Packet<Chain>>) {
    |ps| == |qs| && forall i :: 0 <= i < |ps| ==> ps[i].wire == qs[i].wire && ps[i].next.chain == qs[i].next
  }

  lemma {:induction false} SameFramesAppend(
    ps: seq<Packet<DownState>>, qs: seq<Packet<Chain>>, more: seq<Packet<DownState>>, later: seq<Packet<Chain>>)
    requires SameFrames(ps, qs) && SameFrames(more, later)
    ensures SameFrames(ps + more, qs + later)
  {
  }

  lemma {:induction false} SameFramesWire(s: DownState, ps: seq<Packet<DownState>>, qs: seq<Packet<Chain>>)
    requires SameFrames(ps, qs)
    ensures Wire(ps) == Wire(qs) && Final(s, ps).chain == Final(s.chain, qs)
    decreases |ps|
  {
    if ps != [] {
      SameFramesWire(ps[0].next, ps[1..], qs[1..]);
    }
  }

  lemma {:induction false} DownPacketsSame(
    link: Link, s: DownState, units: seq<Bytes>, noise: (nat, nat) -> Byte, k: nat)
    requires link.Valid() && forall i :: 0 <= i < |units| ==> |units[i]| < FRAME_LIMIT
    requires Unwrapped(s, units)
    ensures SameFrames(DownPackets(link, s, units, noise, k), PackUnits(link, s.chain, units, noise, k))
    decreases |units|
  {
    hide Pack, PadLen, Ready, U16le, Link.Valid;
    if units != [] {
      var p := Pack(link, s.chain, units[0], Nth(noise, k));
      var d := DownPacket(s, p);
      DownPacketsStep(link, s, units, noise, k);
      DownPacketsSame(link, d.next, units[1..], noise, k + 1);
      assert PackUnits(link, s.chain, units, noise, k) == [p] + PackUnits(link, p.next, units[1..], noise, k + 1);
      hide DownPackets, PackUnits;
    }
  }

  /** After each of these packets the client holds the segment size `mss`. */
  ghost predicate Announces(ps: seq<Packet<DownState>>, mss: Word16) {
    ps == [] || (ps[0].next.mss == mss && Announces(ps[1..], mss))
  }

  lemma {:induction false} AnnouncesAppends(a: seq<Packet<DownState>>, b: seq<Packet<DownState>>, mss: Word16)
    ensures Announces(a + b, mss) <==> Announces(a, mss) && Announces(b, mss)
    decreases |a|
  {
    if a == [] {
      assert a + b == b;
    } else {
      assert (a + b)[1..] == a[1..] + b;
      AnnouncesAppends(a[1..], b, mss);
    }
  }

  lemma {:induction false} AnnouncedFinally(s: DownState, ps: seq<Packet<DownState>>, mss: Word16)
    requires Announces(ps, mss) && ps != []
    ensures Final(s, ps).mss == mss
    decreases |ps|
  {
    if |ps| > 1 {
      AnnouncedFinally(s, ps[1..], mss);
    }
  }

  lemma {:induction false} DownUnitsAreSent(
    link: Link, s: DownState, units: seq<Bytes>, noise: (nat, nat) -> Byte, k: nat)
    requires link.Valid() && forall i :: 0 <= i < |units| ==> |units[i]| < FRAME_LIMIT
    requires Unwrapped(s, units)
    ensures Sent(DownDecoder(link), s, DownPackets(link, s, units, noise, k))
    decreases |units|
  {
    hide DownDecoder, Reads, Pack, PadLen, Ready;
    if units != [] {
      var p := DownPacket(s, Pack(link, s.chain, units[0], Nth(noise, k)));
      DownPacketIsRead(link, s, units[0], Nth(noise, k));
      DownUnitsAreSent(link, p.next, units[1..], noise, k + 1);
      var ps := DownPackets(link, s, units, noise, k);
      assert ps[0] == p && ps[1..] == DownPackets(link, p.next, units[1..], noise, k + 1);
    }
  }

  lemma {:induction false} LaterUnitsCarry(
    link: Link, s: DownState, units: seq<Bytes>, noise: (nat, nat) -> Byte, k: nat)
    requires link.Valid() && forall i :: 0 <= i < |units| ==> |units[i]| < FRAME_LIMIT
    requires Unwrapped(s, units) && s.chain.id != 1
    ensures var ps := DownPackets(link, s, units, noise, k);
            && Final(s, ps).chain.id == s.chain.id + |units|
            && Payload(ps) == Join(units) && Announces(ps, s.mss)
    decreases |units|
  {
    hide Pack, PadLen, Ready;
    if units != [] {
      var p := DownPacket(s, Pack(link, s.chain, units[0], Nth(noise, k)));
      LaterUnitsCarry(link, p.next, units[1..], noise, k + 1);
      var ps := DownPackets(link, s, units, noise, k);
      assert ps[1..] == DownPackets(link, p.next, units[1..], noise, k + 1);
    }
  }

  lemma {:induction false} FirstUnitsCarry(
    link: Link, s: DownState, mss: Word16, units: seq<Bytes>, data: Bytes, noise: (nat, nat) -> Byte)
    requires link.Valid() && forall i :: 0 <= i < |units| ==> |units[i]| < FRAME_LIMIT
    requires Unwrapped(s, units) && s.chain.id == 1 && units != []
    requires Join(units) == Le16(mss) + data
    ensures var ps := DownPackets(link, s, units, noise, 0);
            && Final(s, ps).chain.id == s.chain.id + |units|
            && Payload(ps) == data && Announces(ps, mss) && |ps[0].wire| > HELD
  {
    hide Pack, PadLen, Ready, Link.Valid, DownPackets, Announces;
    var p := DownPacket(s, Pack(link, s.chain, units[0], Nth(noise, 0)));
    AnnouncedPart(mss, units, data);
    DownPacketsStep(link, s, units, noise, 0);
    LaterUnitsCarry(link, p.next, units[1..], noise, 1);
    var later := DownPackets(link, p.next, units[1..], noise, 1);
    FirstAnnounces(p, later, mss);
    assert ([p] + later)[1..] == later;
  }

  lemma {:induction false} FirstAnnounces(p: Packet<DownState>, later: seq<Packet<DownState>>, mss: Word16)
    requires p.next.mss == mss && Announces(later, mss)
    ensures Announces([p] + later, mss)
  {
    assert ([p] + later)[1..] == later;
  }

  /** The first unit starts with the announcement, and the text follows it. */
  lemma {:induction false} AnnouncedPart(mss: Word16, units: seq<Bytes>, data: Bytes)
    requires units != [] && |units[0]| >= 2 && Join(units) == Le16(mss) + data
    ensures U16le(units[0][..2]) == mss
    ensures units[0][2..] + Join(units[1..]) == data
  {
    var rest := Join(units[1..]);
    assert Join(units) == units[0] + rest;
    assert units[0][..2] == (units[0] + rest)[..2] == (Le16(mss) + data)[..2] == Le16(mss);
    assert units[0][2..] + rest == (units[0] + rest)[2..] == (Le16(mss) + data)[2..] == data;
  }

  /** What the frames of one server write carry. */
  lemma {:induction false} DownWriteCarries(link: Link, s: DownState, mss: Word16, unit: nat, w: Write)
    requires link.Valid() && 2 <= unit < FRAME_LIMIT
    requires Unwrapped(s, DownUnits(s.chain.id == 1, mss, unit, w.data))
    ensures var units := DownUnits(s.chain.id == 1, mss, unit, w.data);
            var ps := DownPackets(link, s, units, w.noise, 0);
            && Sent(DownDecoder(link), s, ps) && Final(s, ps).chain.id == s.chain.id + |units|
            && Payload(ps) == w.data && Announces(ps, if s.chain.id == 1 then mss else s.mss)
            && (s.chain.id == 1 ==> |ps[0].wire| > HELD)
  {
    hide DownPackets, DownDecoder, Sent, DownUnits;
    var units := DownUnits(s.chain.id == 1, mss, unit, w.data);
    DownUnitsAreSent(link, s, units, w.noise, 0);
    if s.chain.id == 1 {
      FirstUnitsCarry(link, s, mss, units, w.data, w.noise);
    } else {
      LaterUnitsCarry(link, s, units, w.noise, 0);
    }
  }

  /** Everything the server sends for a series of writes. */
  function ServerPackets(link: Link, s: DownState, ws: seq<Write>, mss: Word16, unit: nat)
    : seq<Packet<DownState>>
    requires link.Valid() && 2 <= unit < FRAME_LIMIT
    requires 1 <= s.chain.id && s.chain.id + FrameCount(s.chain.id == 1, ws, mss, unit) < 0x1_0000_0000
    decreases |ws|
  {
    if ws == [] then []
    else
      var units := DownUnits(s.chain.id == 1, mss, unit, ws[0].data);
      var ps := DownPackets(link, s, units, ws[0].noise, 0);
      DownWriteCarries(link, s, mss, unit, ws[0]);
      ps + ServerPackets(link, Final(s, ps), ws[1..], mss, unit)
  }

  /** The number of frames the server sends for a series of writes. */
  function FrameCount(first: bool, ws: seq<Write>, mss: Word16, unit: nat): nat
    requires unit >= 1
  {
    if ws == [] then 0
    else |DownUnits(first, mss, unit, ws[0].data)| + FrameCount(false, ws[1..], mss, unit)
  }

  lemma {:induction false} ServerPacketsAreSent(link: Link, s: DownState, ws: seq<Write>, mss: Word16, unit: nat)
    requires link.Valid() && 2 <= unit < FRAME_LIMIT
    requires 1 <= s.chain.id && s.chain.id + FrameCount(s.chain.id == 1, ws, mss, unit) < 0x1_0000_0000
    ensures var ps := ServerPackets(link, s, ws, mss, unit);
            && Sent(DownDecoder(link), s, ps) && Payload(ps) == Text(ws)
            && Announces(ps, if s.chain.id == 1 then mss else s.mss)
            && (s.chain.id == 1 && ws != [] ==> |ps| > 0 && |ps[0].wire| > HELD)
    decreases |ws|
  {
    hide DownDecoder, DownPackets, DownUnits, Reads;
    if ws != [] {
      var units := DownUnits(s.chain.id == 1, mss, unit, ws[0].data);
      DownWriteCarries(link, s, mss, unit, ws[0]);
      var ps := DownPackets(link, s, units, ws[0].noise, 0);
      var s' := Final(s, ps);
      ServerPacketsAreSent(link, s', ws[1..], mss, unit);
      var rest := ServerPackets(link, s', ws[1..], mss, unit);
      SentAppends(DownDecoder(link), s, ps, rest);
      WireAppends(ps, rest);
      AnnouncesAppends(ps, rest, if s.chain.id == 1 then mss else s.mss);
      if ws[1..] != [] {
        AnnouncedFinally(s, ps, if s.chain.id == 1 then mss else s.mss);
      }
    }
  }

  /** The server's frames for a series of writes, as its object packs them. */
  function ServerFrames(link: Link, s: Chain, ws: seq<Write>, mss: Word16, unit: nat): seq<Packet<Chain>>
    requires link.Valid() && 1 <= unit < FRAME_LIMIT
    decreases |ws|
  {
    if ws == [] then []
    else
      var ps := PackUnits(link, s, DownUnits(s.id == 1, mss, unit, ws[0].data), ws[0].noise, 0);
      ps + ServerFrames(link, Final(s, ps), ws[1..], mss, unit)
  }

  /** Frame for frame, these are the packets that the client reads. */
  lemma {:induction false} ServerFramesAre(link: Link, s: DownState, ws: seq<Write>, mss: Word16, unit: nat)
    requires link.Valid() && 2 <= unit < FRAME_LIMIT
    requires 1 <= s.chain.id && s.chain.id + FrameCount(s.chain.id == 1, ws, mss, unit) < 0x1_0000_0000
    ensures SameFrames(ServerPackets(link, s, ws, mss, unit), ServerFrames(link, s.chain, ws, mss, unit))
    decreases |ws|
  {
    hide DownDecoder, DownPackets, DownUnits, PackUnits, Sent, Announces, Link.Valid;
    if ws != [] {
      var units := DownUnits(s.chain.id == 1, mss, unit, ws[0].data);
      DownWriteCarries(link, s, mss, unit, ws[0]);
      DownPacketsSame(link, s, units, ws[0].noise, 0);
      var ps, qs := DownPackets(link, s, units, ws[0].noise, 0), PackUnits(link, s.chain, units, ws[0].noise, 0);
      SameFramesWire(s, ps, qs);
      ServerFramesAre(link, Final(s, ps), ws[1..], mss, unit);
      var more := ServerPackets(link, Final(s, ps), ws[1..], mss, unit);
      var later := ServerFrames(link, Final(s.chain, qs), ws[1..], mss, unit);
      assert ServerPackets(link, s, ws, mss, unit) == ps + more;
      assert ServerFrames(link, s.chain, ws, mss, unit) == qs + later;
      hide ServerPackets, ServerFrames, FrameCount, SameFrames, Final;
      SameFramesAppend(ps, qs, more, later);
    }
  }

  /** Frame number i leaves the client waiting for the id i further on. */
  ghost predicate Rising(s: DownState, ps: seq<Packet<DownState>>) {
    && 1 <= s.chain.id && s.chain.id + |ps| < 0x1_0000_0000
    && forall i :: 0 <= i < |ps| ==> ps[i].next.chain.id == s.chain.id + i + 1
  }

  lemma {:induction false} PackedIdRises(
    link: Link, s: Chain, units: seq<Bytes>, noise: (nat, nat) -> Byte, k: nat, i: nat)
    requires link.Valid() && forall j :: 0 <= j < |units| ==> |units[j]| < 0x1_0000
    requires s.id + |units| < 0x1_0000_0000 && i < |units|
    ensures PackUnits(link, s, units, noise, k)[i].next.id == s.id + i + 1
    decreases |units|
  {
    hide Pack, PadLen, Ready, Link.Valid;
    var p := Pack(link, s, units[0], Nth(noise, k));
    assert p.next.id == s.id + 1;
    if i > 0 {
      PackedIdRises(link, p.next, units[1..], noise, k + 1, i - 1);
      assert PackUnits(link, s, units, noise, k)[i] == PackUnits(link, p.next, units[1..], noise, k + 1)[i - 1];
    }
  }

  lemma {:induction false} ServerIdsRise(link: Link, s: DownState, ws: seq<Write>, mss: Word16, unit: nat)
    requires link.Valid() && 2 <= unit < FRAME_LIMIT
    requires 1 <= s.chain.id && s.chain.id + FrameCount(s.chain.id == 1, ws, mss, unit) < 0x1_0000_0000
    ensures var ps := ServerPackets(link, s, ws, mss, unit);
            Rising(s, ps) && |ps| == FrameCount(s.chain.id == 1, ws, mss, unit)
    decreases |ws|
  {
    hide DownDecoder, DownPackets, DownUnits, PackUnits, Sent, Announces, Link.Valid;
    if ws != [] {
      var units := DownUnits(s.chain.id == 1, mss, unit, ws[0].data);
      DownWriteCarries(link, s, mss, unit, ws[0]);
      DownPacketsSame(link, s, units, ws[0].noise, 0);
      var ps := DownPackets(link, s, units, ws[0].noise, 0);
      forall i | 0 <= i < |ps|
        ensures ps[i].next.chain.id == s.chain.id + i + 1
      {
        PackedIdRises(link, s.chain, units, ws[0].noise, 0, i);
      }
      ServerIdsRise(link, Final(s, ps), ws[1..], mss, unit);
    }
  }

  /** Under every segmentation the client strips the segment size once and outputs exactly what the
      server wrote, as long as the frame counter has not wrapped around. */
  lemma {:induction false} ServerToClient(
    link: Link, s: DownState, ws: seq<Write>, mss: Word16, unit: nat, pieces: seq<Bytes>)
    requires link.Valid() && 2 <= unit < FRAME_LIMIT
    requires s.chain.id == 1 && FrameCount(true, ws, mss, unit) < 0xFFFF_FFFF
    requires Join(pieces) == Wire(ServerFrames(link, s.chain, ws, mss, unit))
    ensures Steady(DownDecoder(link))
    ensures var r := Feed(DownDecoder(link), s, [], pieces);
            && Settled(s, ServerPackets(link, s, ws, mss, unit), r)
            && r.out == Text(ws) && (ws != [] ==> r.state.mss == mss)
  {
    hide DownDecoder, FrameCount, ServerFrames, ServerPackets, Link.Valid, Sent, Steady, Wire, Announces, Feed;
    var ps := ServerPackets(link, s, ws, mss, unit);
    DownIsDecisive(link);
    ServerPacketsAreSent(link, s, ws, mss, unit);
    ServerFramesAre(link, s, ws, mss, unit);
    SameFramesWire(s, ps, ServerFrames(link, s.chain, ws, mss, unit));
    Delivery(DownDecoder(link), s, ps, pieces);
    if ws != [] {
      AnnouncedThroughout(s, ps, mss);
    }
  }

  /** The announced size is held after every packet, the last but one included. */
  lemma {:induction false} AnnouncedThroughout(s: DownState, ps: seq<Packet<DownState>>, mss: Word16)
    requires Announces(ps, mss) && ps != []
    ensures Final(s, ps).mss == mss
    ensures |ps| > 1 ==> Final(s, ps[..|ps| - 1]).mss == mss
  {
    AnnouncedFinally(s, ps, mss);
    var but := ps[..|ps| - 1];
    assert ps == but + ps[|ps| - 1..];
    AnnouncesAppends(but, ps[|ps| - 1..], mss);
    if but != [] {
      AnnouncedFinally(s, but, mss);
    }
  }

  /** At every moment the client's chain is the one the server had after a number of whole frames. */
  lemma {:induction false} EndsAgree(
    link: Link, s: DownState, ws: seq<Write>, mss: Word16, unit: nat, pieces: seq<Bytes>) returns (k: nat)
    requires link.Valid() && 2 <= unit < FRAME_LIMIT
    requires s.chain.id == 1 && FrameCount(true, ws, mss, unit) < 0xFFFF_FFFF
    requires Join(pieces) <= Wire(ServerFrames(link, s.chain, ws, mss, unit))
    ensures Steady(DownDecoder(link))
    ensures k <= |ServerFrames(link, s.chain, ws, mss, unit)|
    ensures var r := Feed(DownDecoder(link), s, [], pieces);
            && AtBoundary(s, ServerPackets(link, s, ws, mss, unit), Join(pieces), r, k)
            && r.state.chain == Final(s.chain, ServerFrames(link, s.chain, ws, mss, unit)[..k])
  {
    hide DownDecoder, FrameCount, ServerFrames, ServerPackets, Link.Valid, Sent, Steady, Wire, Announces, Feed, Final;
    var ps, qs := ServerPackets(link, s, ws, mss, unit), ServerFrames(link, s.chain, ws, mss, unit);
    DownIsDecisive(link);
    ServerPacketsAreSent(link, s, ws, mss, unit);
    ServerFramesAre(link, s, ws, mss, unit);
    SameFramesWire(s, ps, qs);
    k := PartialDelivery(DownDecoder(link), s, ps, pieces);
    SameFramesWire(s, ps[..k], qs[..k]);
  }

  /** With units of one byte the announcement is split, and the client's first frame raises an exception,
      whatever is written and however it arrives. */
  lemma {:induction false} OneByteUnitsFail(
    link: Link, s: DownState, w: Write, mss: Word16, more: Bytes, pieces: seq<Bytes>)
    requires link.Valid() && s.chain.id == 1
    requires Join(pieces) == Wire(ServerFrames(link, s.chain, [w], mss, 1)) + more
    ensures Steady(DownDecoder(link))
    ensures Feed(DownDecoder(link), s, [], pieces) == Broken(Raise)
  {
    hide Pack, PadLen, Ready, Open, Link.Valid;
    var units := DownUnits(true, mss, 1, w.data);
    assert |units[0]| == 1 by { FirstUnit(Le16(mss) + w.data); }
    var p := Pack(link, s.chain, units[0], Nth(w.noise, 0));
    PackUnitsStep(link, s.chain, units, w.noise, 0);
    var ps := PackUnits(link, s.chain, units, w.noise, 0);
    assert ServerFrames(link, s.chain, [w], mss, 1) == ps + [] == ps;
    var rest := Wire(PackUnits(link, p.next, units[1..], w.noise, 1)) + more;
    assert Join(pieces) == p.wire + rest;
    OpenPacked(link, s.chain, units[0], Nth(w.noise, 0), rest);
    DownIsDecisive(link);
    assert DownDecoder(link)(s, Join(pieces)) == Bad(Raise);
    FeedExact(DownDecoder(link), s, [], pieces);
    assert [] + Join(pieces) == Join(pieces);
  }

  /** The client outputs the text if and only if the unit holds the announcement. */
  lemma {:induction false} UnitsExactly(
    link: Link, s: DownState, ws: seq<Write>, mss: Word16, unit: nat, pieces: seq<Bytes>)
    requires link.Valid() && 1 <= unit < FRAME_LIMIT && ws != []
    requires s.chain.id == 1 && FrameCount(true, ws, mss, unit) < 0xFFFF_FFFF
    requires Join(pieces) == Wire(ServerFrames(link, s.chain, ws, mss, unit))
    ensures Steady(DownDecoder(link))
    ensures var r := Feed(DownDecoder(link), s, [], pieces); r.Done? && r.out == Text(ws) <==> unit >= 2
  {
    hide DownDecoder, FrameCount, PackUnits, DownUnits, Link.Valid;
    if unit >= 2 {
      ServerToClient(link, s, ws, mss, unit, pieces);
    } else {
      var ps := PackUnits(link, s.chain, DownUnits(true, mss, 1, ws[0].data), ws[0].noise, 0);
      var later := ServerFrames(link, Final(s.chain, ps), ws[1..], mss, 1);
      WireAppends(ps, later);
      var first := [ws[0]];
      assert first[0] == ws[0] && first[1..] == [];
      assert ServerFrames(link, s.chain, first, mss, 1) == ps + [] == ps;
      OneByteUnitsFail(link, s, ws[0], mss, Wire(later), pieces);
    }
  }

  lemma {:induction false} FirstUnit(buf: Bytes)
    requires |buf| >= 2
    ensures |Units(buf, 1)[0]| == 1
  {
  }

  // ----- one call of the client

  /** The client's loop. It cuts the segment size off the output gathered in this call. */
  function DownCall(link: Link, s: DownState, out: Bytes, buf: Bytes): Result<DownState>
    requires link.Valid()
    decreases |buf|
  {
    OpenIsStable(link, s.chain, buf, []);
    match Open(link, s.chain, buf)
    case Wait => Done(out, s, buf, false)
    case Refused => Broken(Raise)
    case Opened(data, next, used) =>
      var all := out + data;
      if s.chain.id != 1 then DownCall(link, DownState(next, s.mss), all, buf[used..])
      else if |all| < 2 then Broken(Raise)
      else DownCall(link, DownState(next, U16le(all[..2])), all[2..], buf[used..])
  }

  /** No frame in the buffer but the first is numbered one. */
  ghost predicate Climbs(link: Link, s: Chain, buf: Bytes)
    requires link.Valid()
    decreases |buf|
  {
    OpenIsStable(link, s, buf, []);
    match Open(link, s, buf)
    case Opened(_, next, used) => next.id != 1 && Climbs(link, next, buf[used..])
    case _ => true
  }

  /** Then the loop is the receiver's: what it cuts off is the frame's own payload. */
  lemma {:induction false} DownCallDrains(link: Link, s: DownState, out: Bytes, buf: Bytes)
    requires link.Valid() && Steady(DownDecoder(link))
    requires Climbs(link, s.chain, buf) && (s.chain.id == 1 ==> out == [])
    ensures DownCall(link, s, out, buf) == After(out, false, Drain(DownDecoder(link), s, buf))
    decreases |buf|
  {
    hide Open, Link.Valid, U16le, Steady;
    OpenIsStable(link, s.chain, buf, []);
    var o, d := Open(link, s.chain, buf), DownDecoder(link);
    assert out + [] == out;
    assert d(s, buf) == DownStep(link, s, buf);
    if o.Opened? && !(s.chain.id == 1 && |o.data| < 2) {
      assert s.chain.id == 1 ==> out + o.data == o.data;
      var mine := if s.chain.id == 1 then o.data[2..] else o.data;
      var mss := if s.chain.id == 1 then U16le(o.data[..2]) else s.mss;
      assert s.chain.id == 1 ==> out + mine == mine;
      var later := Drain(d, DownState(o.next, mss), buf[o.used..]);
      DownCallDrains(link, DownState(o.next, mss), out + mine, buf[o.used..]);
      AfterAfter(out, false, mine, false, later);
      assert Drain(d, s, buf) == After(mine, false, later);
    }
  }

  /** While the server's ids rise, whatever part of its stream is buffered climbs. */
  lemma {:induction false} SentClimbs(link: Link, s: DownState, ps: seq<Packet<DownState>>, got: Bytes)
    requires link.Valid() && Steady(DownDecoder(link)) && Sent(DownDecoder(link), s, ps) && Rising(s, ps)
    requires got <= Wire(ps)
    ensures Climbs(link, s.chain, got)
    decreases |ps|
  {
    hide Open, Link.Valid, U16le, Steady, Reads;
    OpenIsStable(link, s.chain, got, []);
    if ps == [] {
      EmptyWaits(link, s.chain);
    } else {
      FirstOfSent(DownDecoder(link), s, ps, got);
      var o := Open(link, s.chain, got);
      if o.Opened? {
        var p := ps[0];
        assert DownDecoder(link)(s, got) == DownStep(link, s, got);
        if DownStep(link, s, got).Frame? {
          assert Rising(p.next, ps[1..]);
          SentClimbs(link, p.next, ps[1..], got[|p.wire|..]);
        }
      }
    }
  }

  // ----- what is not accepted

  /** A faulty frame makes the client's call raise an exception, whatever the call has gathered. */
  lemma {:induction false} FaultyFrameBreaks(link: Link, s: DownState, out: Bytes, buf: Bytes)
    requires link.Valid() && Faulty(link, s.chain, buf)
    ensures DownCall(link, s, out, buf) == Broken(Raise)
    ensures Steady(DownDecoder(link)) && Drain(DownDecoder(link), s, buf) == Broken(Raise)
  {
    hide Open, Faulty, Steady, Decisive;
    DownIsDecisive(link);
    RefusedExactly(link, s.chain, buf);
    assert DownDecoder(link)(s, buf) == DownStep(link, s, buf);
    hide DownDecoder;
    assert Steady(DownDecoder(link)) by { DecisiveSteady(link); }
  }

  lemma {:induction false} DecisiveSteady(link: Link)
    requires link.Valid() && Decisive(DownDecoder(link))
    ensures Steady(DownDecoder(link))
  {
  }

  /** If somebody puts a faulty frame behind any number of the server's frames, the client fails, however the
      stream is cut. */
  lemma {:induction false} TamperingIsNoticed(
    link: Link, s: DownState, ws: seq<Write>, mss: Word16, unit: nat, k: nat, bad: Bytes, pieces: seq<Bytes>)
    requires link.Valid() && 2 <= unit < FRAME_LIMIT
    requires s.chain.id == 1 && FrameCount(true, ws, mss, unit) < 0xFFFF_FFFF
    requires k <= |ServerFrames(link, s.chain, ws, mss, unit)|
    requires Faulty(link, Final(s.chain, ServerFrames(link, s.chain, ws, mss, unit)[..k]), bad)
    requires Join(pieces) == Wire(ServerFrames(link, s.chain, ws, mss, unit)[..k]) + bad
    ensures Steady(DownDecoder(link)) && Feed(DownDecoder(link), s, [], pieces).Broken?
  {
    hide DownDecoder, FrameCount, ServerFrames, ServerPackets, Link.Valid, Sent, Wire, Announces, Feed, Final, Faulty;
    var ps, qs := ServerPackets(link, s, ws, mss, unit), ServerFrames(link, s.chain, ws, mss, unit);
    DownIsDecisive(link);
    ServerPacketsAreSent(link, s, ws, mss, unit);
    ServerFramesAre(link, s, ws, mss, unit);
    SameFramesWire(s, ps[..k], qs[..k]);
    SentTakes(DownDecoder(link), s, ps, k);
    FaultyFrameBreaks(link, Final(s, ps[..k]), [], bad);
    FaultyIsSome(link, Final(s.chain, qs[..k]), bad);
    FeedBreaks(DownDecoder(link), s, ps[..k], bad, pieces);
  }
}
