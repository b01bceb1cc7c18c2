/**
  The protocol object of auth_aes128_* and auth_sha1_v4: its send and receive loops, tied to the
  packets and decoders of PaddedFrames and PaddedSession.
*/
module PaddedProtocol {
  import opened Binary
  import opened Streaming
  import opened PaddedFrames
  import opened PaddedSession

  class PaddedAuth {
    const server: Server

    var recvBuf: Bytes
    var rawTrans: bool
    var hasRecvHeader: bool
    var packId: Word32
    var recvId: Word32
    var userKey: Bytes
    var decryptPacketNum: nat

    constructor (server: Server, userKey: Bytes)
      ensures this.server == server && this.userKey == userKey
      ensures recvBuf == [] && !rawTrans && !hasRecvHeader && packId == 1 && recvId == 1 && decryptPacketNum == 0
    {
      this.server, this.userKey, decryptPacketNum := server, userKey, 0;
      recvBuf, rawTrans, hasRecvHeader, packId, recvId := [], false, false, 1, 1;
    }

    function Seals(): Sealer
      reads this
    {
      server.seals(userKey)
    }

    // ----- sending

    method PackData(buf: Bytes, h: nat, noise: nat -> Byte) returns (data: Bytes)
      requires Fits(h, |buf|)
      modifies `packId
      ensures var p := Pack(Seals(), old(packId), buf, h, noise); data == p.wire && packId == p.next
    {
      var sl := Seals();
      data := PadHead(sl, h, noise) + buf;
      var size := sl.Code(|data| + 8);
      data := size + sl.head(packId, size) + data;
      data := data + sl.tail(packId, data);
      packId := NextId(packId);
    }

    /** The frames of `buf`; `k` numbers the frames of the write already sent. */
    method SendUnits(buf: Bytes, w: Write, k: nat) returns (ret: Bytes)
      requires AllFit(Units(buf, UNIT), w.heads, k)
      modifies `packId
      ensures var ps := PackUnits(Seals(), old(packId), Units(buf, UNIT), w, k);
              ret == Wire(ps) && packId == Final(old(packId), ps)
    {
      hide Pack, PackUnits, Units, Wire, Final, AllFit, Fits;
      ret := [];
      var left, i := buf, k;
      ghost var sl, id0 := Seals(), packId;
      ghost var all := PackUnits(sl, id0, Units(buf, UNIT), w, k);
      while |left| > UNIT
        invariant AllFit(Units(left, UNIT), w.heads, i) && Seals() == sl
        invariant var ps := PackUnits(sl, packId, Units(left, UNIT), w, i);
                  Wire(all) == ret + Wire(ps) && Final(id0, all) == Final(packId, ps)
        decreases |left|
      {
        PackUnit(sl, packId, left, w, i);
        var frame := PackData(left[..UNIT], w.heads(i), (j: nat) => w.noise(i, j));
        ret := ret + frame;
        left := left[UNIT..];
        i := i + 1;
      }
      PackUnit(sl, packId, left, w, i);
      var frame := PackData(left, w.heads(i), (j: nat) => w.noise(i, j));
      ret := ret + frame;
    }

    /** server_pre_encrypt, and client_pre_encrypt once the handshake has been sent. */
    method PreEncrypt(w: Write) returns (ret: Bytes)
      requires !rawTrans ==> AllFit(Units(w.data, UNIT), w.heads, 0)
      modifies `packId
      ensures rawTrans ==> ret == w.data && packId == old(packId)
      ensures !rawTrans ==>
                var ps := PackUnits(Seals(), old(packId), Units(w.data, 8100), w, 0);
                ret == Wire(ps) && packId == Final(old(packId), ps)
    {
      if rawTrans {
        return w.data;
      }
      ret := SendUnits(w.data, w, 0);
    }

    // ----- receiving

    /** A wrong seal over the length leaves the object as it is; any other fault makes it pass everything on. */
    method ClientPostDecrypt(buf: Bytes) returns (r: Reply)
      modifies `recvBuf, `recvId, `rawTrans
      ensures old(rawTrans) ==> r == Reply(buf, false) && rawTrans && recvBuf == old(recvBuf)
      ensures Steady(StreamDecoder(Seals()))
      ensures !old(rawTrans) ==>
                match Drain(StreamDecoder(Seals()), old(recvId), old(recvBuf) + buf)
                case Done(out, id, rest, _) => r == Reply(out, false) && recvId == id && recvBuf == rest && !rawTrans
                case Broken(_) => r == Raised
      ensures !old(rawTrans) ==>
                var (id, rest) := LoopEnd(Seals(), old(recvId), old(recvBuf) + buf);
                && recvId == id && rawTrans == Open(Seals(), id, rest).Refused?
                && recvBuf == if rawTrans then [] else rest
    {
      hide StreamDecoder, Drain, Steady, Decisive, Open, LoopEnd;
      StreamSteady(Seals());
      if rawTrans {
        return Reply(buf, false);
      }
      recvBuf := recvBuf + buf;
      var outBuf := [];
      ghost var sl, id0, b0, echo := Seals(), recvId, recvBuf, false;
      ghost var d := StreamDecoder(sl);
      AfterNothing(Drain(d, id0, b0));
      while |recvBuf| > 4
        invariant Seals() == sl && !rawTrans
        invariant Drain(d, id0, b0) == After(outBuf, echo, Drain(d, recvId, recvBuf))
        invariant LoopEnd(sl, id0, b0) == LoopEnd(sl, recvId, recvBuf)
        decreases |recvBuf|
      {
        StreamDrainStep(sl, recvId, recvBuf);
        LoopEndStep(sl, recvId, recvBuf);
        match Open(Seals(), recvId, recvBuf) {
          case Wait =>
            return Reply(outBuf, false);
          case Forged =>
            return Raised;
          case Refused =>
            rawTrans := true;
            recvBuf := [];
            return Raised;
          case Opened(data, used, e) =>
            AfterAfter(outBuf, echo, data, e, Drain(d, NextId(recvId), recvBuf[used..]));
            recvId := NextId(recvId);
            outBuf := outBuf + data;
            recvBuf := recvBuf[used..];
            echo := echo || e;
        }
      }
      StreamDrainStep(sl, recvId, recvBuf);
      LoopEndStep(sl, recvId, recvBuf);
      ShortWaits(sl, recvId, recvBuf);
      r := Reply(outBuf, false);
    }

    function Received(): State
      reads this
    {
      if hasRecvHeader then Talking(userKey, recvId) else Fresh
    }

    method ServerPostDecrypt(buf: Bytes) returns (r: Reply)
      requires SteadyGreeting(server.greet) && (!hasRecvHeader ==> recvId == 1)
      modifies `recvBuf, `recvId, `rawTrans, `userKey, `hasRecvHeader, `decryptPacketNum
      ensures old(rawTrans) ==>
                r == Reply(buf, false) && rawTrans && recvBuf == old(recvBuf) && decryptPacketNum == old(decryptPacketNum)
      ensures Steady(UpDecoder(server))
      ensures !old(rawTrans) ==>
                var result := Drain(UpDecoder(server), old(Received()), old(recvBuf) + buf);
                && r == Answer(server, old(decryptPacketNum), result) && (result.Broken? ==> rawTrans)
                && (result.Done? ==> !rawTrans && Received() == result.state && recvBuf == result.rest)
                && decryptPacketNum == old(decryptPacketNum) + if result.Done? && result.out != [] then 1 else 0
    {
      hide UpDecoder, Drain, Steady, SteadyGreeting, Open;
      UpSteady(server);
      if rawTrans {
        return Reply(buf, false);
      }
      recvBuf := recvBuf + buf;
      ghost var d, s0, b0 := UpDecoder(server), Received(), recvBuf;
      UpDrainStep(server, s0, b0);
      if hasRecvHeader {
        AfterNothing(Drain(d, s0, b0));
        r := ReceiveFrames([], false, s0, b0);
      } else {
        match server.greet(recvBuf) {
          case Undecided =>
            return Reply([], false);
          case Rejected =>
            rawTrans := true;
            return Reply(DecoyReply(), false);
          case Welcome(data, key, used) =>
            userKey := key;
            hasRecvHeader := true;
            recvBuf := recvBuf[used..];
            r := ReceiveFrames(data, true, s0, b0);
        }
      }
    }

    /** The frame loop; `s0` and `b0` are where the call started, `out` and `echo` what it did so far. */
    method ReceiveFrames(out: Bytes, echo: bool, ghost s0: State, ghost b0: Bytes) returns (r: Reply)
      requires hasRecvHeader && !rawTrans && SteadyGreeting(server.greet) && Steady(UpDecoder(server))
      requires var d := UpDecoder(server);
               Drain(d, s0, b0) == After(out, echo, Drain(d, Received(), recvBuf))
      modifies `recvBuf, `recvId, `rawTrans, `decryptPacketNum
      ensures var result := Drain(UpDecoder(server), s0, b0);
              && r == Answer(server, old(decryptPacketNum), result) && (result.Broken? ==> rawTrans)
              && (result.Done? ==> !rawTrans && Received() == result.state && recvBuf == result.rest)
              && decryptPacketNum == old(decryptPacketNum) + if result.Done? && result.out != [] then 1 else 0
    {
      hide UpDecoder, Drain, Steady, SteadyGreeting, Open;
      var outBuf, sendback := out, echo;
      ghost var d := UpDecoder(server);
      while |recvBuf| > 4
        invariant !rawTrans && decryptPacketNum == old(decryptPacketNum)
        invariant Drain(d, s0, b0) == After(outBuf, sendback, Drain(d, Received(), recvBuf))
        decreases |recvBuf|
      {
        UpDrainStep(server, Received(), recvBuf);
        match Open(Seals(), recvId, recvBuf) {
          case Wait =>
            if outBuf != [] {
              decryptPacketNum := decryptPacketNum + 1;
            }
            return Reply(outBuf, sendback);
          case Forged =>
            rawTrans := true;
            return if (if server.counts then decryptPacketNum == 0 else recvId == 0) then Reply(DecoyReply(), false) else Raised;
          case Refused =>
            rawTrans := true;
            recvBuf := [];
            return if (if server.counts then decryptPacketNum == 0 else recvId == 0) then Reply(DecoyReply(), false) else Raised;
          case Opened(data, used, e) =>
            AfterAfter(outBuf, sendback, data, e, Drain(d, Talking(userKey, NextId(recvId)), recvBuf[used..]));
            recvId := NextId(recvId);
            outBuf := outBuf + data;
            recvBuf := recvBuf[used..];
            sendback := sendback || e;
        }
      }
      UpDrainStep(server, Received(), recvBuf);
      ShortWaits(Seals(), recvId, recvBuf);
      if outBuf != [] {
        decryptPacketNum := decryptPacketNum + 1;
      }
      r := Reply(outBuf, sendback);
    }
  }

  /** The reply to a call; a server that counts answers a faulty frame with the decoy until it has had output. */
  function Answer(sv: Server, calls: nat, r: Result<State>): Reply {
    if sv.counts && calls == 0 && r == Broken(Raise) then Reply(DecoyReply(), false) else ReplyOf(r)
  }

  /** A refused handshake is always answered with the decoy. A faulty frame behind a handshake is answered with
      it if and only if the server counts and has not had any output, or does not count and the frame has number
      zero; otherwise the call raises. */
  lemma {:induction false} FaultIsAnswered(sv: Server, s: State, buf: Bytes, calls: nat)
    requires SteadyGreeting(sv.greet)
    requires match s
             case Fresh => sv.greet(buf).Rejected?
             case Talking(key, id) => var o := Open(sv.seals(key), id, buf); o.Forged? || o.Refused?
    ensures Steady(UpDecoder(sv))
    ensures Answer(sv, calls, Drain(UpDecoder(sv), s, buf)) ==
            if s.Fresh? || (if sv.counts then calls == 0 else s.id == 0) then Reply(DecoyReply(), false) else Raised
  {
    hide Open, SteadyGreeting;
    UpIsSteady(sv);
    assert UpDecoder(sv)(s, buf) == UpStep(sv, s, buf);
    if s.Talking? {
      PaddedSession.FaultyFrameBreaks(sv, s.userKey, s.id, buf);
    }
  }

  lemma {:induction false} LoopEndStep(sl: Sealer, id: Word32, buf: Bytes)
    ensures var o := Open(sl, id, buf);
            LoopEnd(sl, id, buf) ==
            if o.Opened? && o.used <= |buf| then LoopEnd(sl, NextId(id), buf[o.used..]) else (id, buf)
  {
    hide Open;
    OpenIsStable(sl, id, buf, []);
  }

  lemma {:induction false} StreamSteady(sl: Sealer)
    ensures Steady(StreamDecoder(sl))
  {
    StreamIsDecisive(sl);
  }

  lemma {:induction false} UpSteady(sv: Server)
    requires SteadyGreeting(sv.greet)
    ensures Steady(UpDecoder(sv))
  {
    UpIsSteady(sv);
  }

  /** One turn of the sending loop. */
  lemma {:induction false} PackUnit(sl: Sealer, id: Word32, left: Bytes, w: Write, k: nat)
    requires AllFit(Units(left, UNIT), w.heads, k)
    ensures Fits(w.heads(k), |if |left| > UNIT then left[..UNIT] else left|)
    ensures |left| > UNIT ==> AllFit(Units(left[UNIT..], UNIT), w.heads, k + 1)
    ensures var ps := PackUnits(sl, id, Units(left, UNIT), w, k);
            if |left| > UNIT then
              var p := Pack(sl, id, left[..UNIT], w.heads(k), (j: nat) => w.noise(k, j));
              var rest := PackUnits(sl, p.next, Units(left[UNIT..], UNIT), w, k + 1);
              Wire(ps) == p.wire + Wire(rest) && Final(id, ps) == Final(p.next, rest)
            else
              var p := Pack(sl, id, left, w.heads(k), (j: nat) => w.noise(k, j));
              Wire(ps) == p.wire && Final(id, ps) == p.next
  {
    hide Pack, AllFit;
    var units := Units(left, UNIT);
    AllFitTail(units, w.heads, k);
    assert |left| > UNIT ==> units[1..] == Units(left[UNIT..], UNIT);
    var p := Pack(sl, id, units[0], w.heads(k), (j: nat) => w.noise(k, j));
    var ps := PackUnits(sl, id, units, w, k);
    assert ps[0] == p && ps[1..] == PackUnits(sl, p.next, units[1..], w, k + 1);
  }

  lemma {:induction false} StreamDrainStep(sl: Sealer, id: Word32, buf: Bytes)
    requires Steady(StreamDecoder(sl))
    ensures var d, o := StreamDecoder(sl), Open(sl, id, buf);
            && (o.Opened? ==> 0 < o.used <= |buf|)
            && Drain(d, id, buf) ==
               match o
               case Wait => Done([], id, buf, false)
               case Forged => Broken(Raise)
               case Refused => Broken(Raise)
               case Opened(data, used, e) => After(data, e, Drain(d, NextId(id), buf[used..]))
  {
    hide Open;
    OpenIsStable(sl, id, buf, []);
    assert StreamDecoder(sl)(id, buf) == StreamStep(sl, id, buf);
  }

  lemma {:induction false} UpDrainStep(sv: Server, s: State, buf: Bytes)
    requires SteadyGreeting(sv.greet) && Steady(UpDecoder(sv))
    ensures var d, step := UpDecoder(sv), UpStep(sv, s, buf);
            && (step.Frame? ==> 0 < step.used <= |buf|)
            && Drain(d, s, buf) ==
               match step
               case More => Done([], s, buf, false)
               case Bad(f) => Broken(f)
               case Frame(data, next, used, e) => After(data, e, Drain(d, next, buf[used..]))
  {
    hide Open;
    assert UpDecoder(sv)(s, buf) == UpStep(sv, s, buf);
  }
}
