/**
  The record layer of the tls1.2_ticket_auth obfuscation once its handshake is over: application
  data records as in section 6.2.1 of RFC 5246, cut at random sizes and reassembled by the peer.
*/
module TlsRecords {
  import opened Binary
  import opened Streaming

  const APPLICATION_DATA: Byte := 0x17
  const HEADER_LEN := 5
  const CUT_ABOVE := 2048

  /** The record decoder keeps nothing between records. */
  datatype Idle = Idle

  /** The side that decodes: the server also checks the version bytes, the client only the type. */
  datatype Side = AtServer | AtClient

  predicate GoodHeader(side: Side, buf: Bytes)
    requires |buf| >= 3
  {
    buf[0] == APPLICATION_DATA && (side.AtServer? ==> buf[1] == 3 && buf[2] == 3)
  }

  function RecordStep(side: Side, buf: Bytes): Step<Idle> {
    if |buf| <= HEADER_LEN then More
    else if !GoodHeader(side, buf) then Bad(Raise)
    else
      var size := U16be(buf[3..5]);
      if |buf| < size + HEADER_LEN then More
      else Frame(buf[HEADER_LEN..size + HEADER_LEN], Idle, size + HEADER_LEN, false)
  }

  function RecordDecoder(side: Side): Decoder<Idle> {
    (s, buf) => RecordStep(side, buf)
  }

  lemma {:induction false} RecordStepIsStable(side: Side, buf: Bytes, more: Bytes)
    ensures RecordStep(side, buf).Frame? ==> 0 < RecordStep(side, buf).used <= |buf|
    ensures !RecordStep(side, buf).More? ==> RecordStep(side, buf + more) == RecordStep(side, buf)
  {
    if |buf| > HEADER_LEN {
      var all := buf + more;
      assert all[0] == buf[0] && all[1] == buf[1] && all[2] == buf[2] && all[3..5] == buf[3..5];
      var size := U16be(buf[3..5]);
      if size + HEADER_LEN <= |buf| {
        assert all[HEADER_LEN..size + HEADER_LEN] == buf[HEADER_LEN..size + HEADER_LEN];
      }
    }
  }

  /** Exactly what is made of the front of the buffer: six bytes are needed to look at a record, its type must
      be application data and, for the server, its version 3.3; then it is taken as soon as it is complete. */
  lemma {:induction false} RecordStepExactly(side: Side, buf: Bytes)
    ensures |buf| <= 5 ==> RecordStep(side, buf).More?
    ensures |buf| > 5 && (buf[0] != 0x17 || (side.AtServer? && (buf[1] != 3 || buf[2] != 3))) ==>
              RecordStep(side, buf) == Bad(Raise)
    ensures |buf| > 5 && buf[0] == 0x17 && (side.AtServer? ==> buf[1] == 3 && buf[2] == 3) ==>
              var end := 5 + 0x100 * buf[3] as int + buf[4] as int;
              RecordStep(side, buf) == if |buf| < end then More else Frame(buf[5..end], Idle, end, false)
  {
  }

  /** A record of another type or version, behind any good ones, makes the decoder fail however it arrives. */
  lemma {:induction false} ForeignRecordBreaks(side: Side, parts: seq<Bytes>, bad: Bytes, pieces: seq<Bytes>)
    requires forall i :: 0 <= i < |parts| ==> 0 < |parts[i]| < 0x1_0000
    requires |bad| > 5 && (bad[0] != 0x17 || (side.AtServer? && (bad[1] != 3 || bad[2] != 3)))
    requires Join(pieces) == Wire(RecordPackets(parts)) + bad
    ensures Steady(RecordDecoder(side)) && Feed(RecordDecoder(side), Idle, [], pieces).Broken?
  {
    RecordsAreDecisive(side);
    RecordsArrive(side, parts);
    RecordStepExactly(side, bad);
    assert RecordDecoder(side)(Idle, bad) == Bad(Raise);
    FeedBreaks(RecordDecoder(side), Idle, RecordPackets(parts), bad, pieces);
  }

  /** Both ends of the record layer decide, and complain, independently of segmentation. */
  lemma {:induction false} RecordsAreDecisive(side: Side)
    ensures Decisive(RecordDecoder(side))
    ensures forall s :: RecordDecoder(side)(s, []).More?
  {
    var d := RecordDecoder(side);
    forall s, b: Bytes, more: Bytes
      ensures d(s, b).Frame? ==> d(s, b + more) == d(s, b)
      ensures d(s, b).Bad? ==> d(s, b + more) == d(s, b)
    {
      RecordStepIsStable(side, b, more);
    }
    forall s, b: Bytes
      ensures d(s, b).Frame? ==> 0 < d(s, b).used <= |b|
    {
      RecordStepIsStable(side, b, []);
    }
  }

  // ----- encoding

  function Record(data: Bytes): (r: Bytes)
    requires |data| < 0x1_0000
    ensures |r| == HEADER_LEN + |data|
  {
    [APPLICATION_DATA, 3, 3] + Be16(|data|) + data
  }

  /** The record sizes for `buf`: at random above 2048 bytes, then one record for a non-empty rest. */
  function Cuts(buf: Bytes, draws: nat -> Word16, k: nat): (parts: seq<Bytes>)
    ensures Join(parts) == buf
    ensures forall i :: 0 <= i < |parts| ==> 0 < |parts[i]| < 0x1_0000
    ensures buf != [] ==> parts != [] && (|parts[0]| >= 100 || parts[0] == buf)
    decreases |buf|
  {
    if buf == [] then []
    else if |buf| > CUT_ABOVE then
      var want := draws(k) % 4096 + 100;
      var size := if want < |buf| then want else |buf|;
      [buf[..size]] + Cuts(buf[size..], draws, k + 1)
    else [buf]
  }

  function RecordPackets(parts: seq<Bytes>): (ps: seq<Packet<Idle>>)
    requires forall i :: 0 <= i < |parts| ==> 0 < |parts[i]| < 0x1_0000
    ensures |ps| == |parts|
  {
    if parts == [] then []
    else [Packet(Record(parts[0]), parts[0], Idle, false)] + RecordPackets(parts[1..])
  }

  lemma {:induction false} RecordIsRead(side: Side, data: Bytes)
    requires 0 < |data| < 0x1_0000
    ensures Reads(RecordDecoder(side), Idle, Packet(Record(data), data, Idle, false))
  {
    var d, w := RecordDecoder(side), Record(data);
    forall rest: Bytes
      ensures d(Idle, w + rest) == Frame(data, Idle, |w|, false)
    {
      var buf := w + rest;
      assert buf[0] == APPLICATION_DATA && buf[1] == 3 && buf[2] == 3 && buf[3..5] == Be16(|data|);
      assert U16be(Be16(|data|)) == |data|;
      assert buf[HEADER_LEN..HEADER_LEN + |data|] == data;
    }
    assert w + [] == w;
  }

  /** Encoded records are read back as the bytes they were cut from, for every choice of sizes. */
  lemma {:induction false} RecordsArrive(side: Side, parts: seq<Bytes>)
    requires forall i :: 0 <= i < |parts| ==> 0 < |parts[i]| < 0x1_0000
    ensures var ps := RecordPackets(parts);
            && Sent(RecordDecoder(side), Idle, ps) && Payload(ps) == Join(parts)
            && (forall i :: 0 <= i < |ps| ==> ps[i].data != [])
    decreases |parts|
  {
    hide Reads, RecordDecoder, Record;
    if parts != [] {
      RecordIsRead(side, parts[0]);
      RecordsArrive(side, parts[1..]);
      var ps := RecordPackets(parts);
      assert ps[1..] == RecordPackets(parts[1..]);
      forall i | 0 <= i < |ps|
        ensures ps[i].data != []
      {
        if i > 0 {
          assert ps[i] == ps[1..][i - 1];
        }
      }
    }
  }

  /** The bytes of a write as records on the wire. */
  function Encoded(buf: Bytes, draws: nat -> Word16): Bytes {
    Wire(RecordPackets(Cuts(buf, draws, 0)))
  }

  // ----- the object

  /** What decoding hands to the relay: the bytes, or an exception. */
  datatype Decoded = Plain(data: Bytes) | Failed

  const PASS_THROUGH := -1

  class TlsTicketAuth {
    var handshakeStatus: int
    var recvBuffer: Bytes

    /** An object whose handshake is over (8 on the client, 1 | 4 | 8 on the server) or was refused (-1). */
    constructor (status: int)
      ensures handshakeStatus == status && recvBuffer == []
    {
      handshakeStatus, recvBuffer := status, [];
    }

    /** The established branch of client_encode and server_encode. */
    method Encode(buf: Bytes, draws: nat -> Word16) returns (ret: Bytes)
      ensures ret == if handshakeStatus == -1 then buf else Encoded(buf, draws)
    {
      hide Record, Wire, RecordPackets, Cuts;
      if handshakeStatus == PASS_THROUGH {
        return buf;
      }
      ret := [];
      var left, k := buf, 0;
      assert [] + Encoded(buf, draws) == Encoded(buf, draws);
      while |left| > CUT_ABOVE
        invariant ret + Wire(RecordPackets(Cuts(left, draws, k))) == Encoded(buf, draws)
        decreases |left|
      {
        var want := draws(k) % 4096 + 100;
        var size := if want < |left| then want else |left|;
        CutStep(left, draws, k);
        ret := ret + Record(left[..size]);
        left := left[size..];
        k := k + 1;
      }
      CutStep(left, draws, k);
      if |left| > 0 {
        ret := ret + Record(left);
      }
    }

    /** The established branch of client_decode and server_decode. */
    method Decode(side: Side, buf: Bytes) returns (r: Decoded)
      modifies `recvBuffer
      ensures handshakeStatus == -1 ==> r == Plain(buf) && recvBuffer == old(recvBuffer)
      ensures Steady(RecordDecoder(side))
      ensures handshakeStatus != -1 ==>
                match Drain(RecordDecoder(side), Idle, old(recvBuffer) + buf)
                case Done(out, _, rest, _) => r == Plain(out) && recvBuffer == rest
                case Broken(_) => r == Failed
    {
      hide RecordDecoder, Drain;
      RecordsAreDecisive(side);
      if handshakeStatus == PASS_THROUGH {
        return Plain(buf);
      }
      var ret := [];
      recvBuffer := recvBuffer + buf;
      ghost var d, b0 := RecordDecoder(side), recvBuffer;
      AfterNothing(Drain(d, Idle, b0));
      while |recvBuffer| > HEADER_LEN
        invariant Drain(d, Idle, b0) == After(ret, false, Drain(d, Idle, recvBuffer))
        decreases |recvBuffer|
      {
        RecordDrainStep(side, recvBuffer);
        if !GoodHeader(side, recvBuffer) {
          return Failed;
        }
        var size := U16be(recvBuffer[3..5]);
        if |recvBuffer| < size + HEADER_LEN {
          break;
        }
        ghost var data := recvBuffer[HEADER_LEN..size + HEADER_LEN];
        AfterAfter(ret, false, data, false, Drain(d, Idle, recvBuffer[size + HEADER_LEN..]));
        ret := ret + recvBuffer[HEADER_LEN..size + HEADER_LEN];
        recvBuffer := recvBuffer[size + HEADER_LEN..];
      }
      RecordDrainStep(side, recvBuffer);
      r := Plain(ret);
    }
  }

  lemma {:induction false} CutStep(left: Bytes, draws: nat -> Word16, k: nat)
    ensures var ps := RecordPackets(Cuts(left, draws, k));
            if left == [] then Wire(ps) == []
            else if |left| > 2048 then
              var want := draws(k) % 4096 + 100;
              var size := if want < |left| then want else |left|;
              Wire(ps) == Record(left[..size]) + Wire(RecordPackets(Cuts(left[size..], draws, k + 1)))
            else Wire(ps) == Record(left)
  {
    hide Record;
    if left != [] {
      var parts := Cuts(left, draws, k);
      var ps := RecordPackets(parts);
      assert ps[1..] == RecordPackets(parts[1..]);
      if |left| > CUT_ABOVE {
        var want := draws(k) % 4096 + 100;
        var size := if want < |left| then want else |left|;
        assert parts[1..] == Cuts(left[size..], draws, k + 1);
      } else {
        assert parts[1..] == [];
        assert Record(left) + [] == Record(left);
      }
    }
  }

  lemma {:induction false} RecordDrainStep(side: Side, buf: Bytes)
    requires Steady(RecordDecoder(side))
    ensures var d := RecordDecoder(side);
            Drain(d, Idle, buf) ==
            match RecordStep(side, buf)
            case More => Done([], Idle, buf, false)
            case Bad(f) => Broken(f)
            case Frame(out, _, used, _) => After(out, false, Drain(d, Idle, buf[used..]))
  {
    RecordStepIsStable(side, buf, []);
    assert RecordDecoder(side)(Idle, buf) == RecordStep(side, buf);
  }
}
