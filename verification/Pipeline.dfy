/**
  The three layers stacked as the relay stacks them: protocol frames, then encryption, then TLS
  records on the way out; records, decryption and frames on the way in.
*/
module Pipeline {
  import opened Binary
  import opened Streaming
  import opened ChainFrames
  import opened ChainSession
  import opened TlsRecords
  import E = Encryption

  // ----- the client's side: what each write puts on the wire

  /** The protocol bytes of each write. */
  function WriteWires(c: Client, ws: seq<Write>): (r: seq<Bytes>)
    requires c.Valid() && (ws != [] ==> ws[0].extra <= 31)
    ensures |r| == |ws|
  {
    if ws == [] then []
    else
      var start := Chain(HelloSeed(c), 1, 0);
      var ps := PackUnits(LinkOf(c), start, WriteUnits(true, ws[0]), ws[0].noise, 0);
      [HelloWire(c) + Wire(ps)] + LaterWires(LinkOf(c), Final(start, ps), ws[1..])
  }

  function LaterWires(link: Link, s: Chain, ws: seq<Write>): (r: seq<Bytes>)
    requires link.Valid()
    ensures |r| == |ws|
    decreases |ws|
  {
    if ws == [] then []
    else
      var ps := PackUnits(link, s, WriteUnits(false, ws[0]), ws[0].noise, 0);
      [Wire(ps)] + LaterWires(link, Final(s, ps), ws[1..])
  }

  lemma {:induction false} LaterWiresJoin(link: Link, s: Chain, ws: seq<Write>)
    requires link.Valid()
    ensures Join(LaterWires(link, s, ws)) == Wire(LaterFrames(link, s, ws))
    decreases |ws|
  {
    hide PackUnits, WriteUnits, Link.Valid;
    if ws != [] {
      var ps := PackUnits(link, s, WriteUnits(false, ws[0]), ws[0].noise, 0);
      LaterWiresJoin(link, Final(s, ps), ws[1..]);
      WireAppends(ps, LaterFrames(link, Final(s, ps), ws[1..]));
      assert LaterWires(link, s, ws)[1..] == LaterWires(link, Final(s, ps), ws[1..]);
    }
  }

  lemma {:induction false} WriteWiresJoin(c: Client, ws: seq<Write>)
    requires c.Valid() && (ws != [] ==> ws[0].extra <= 31)
    ensures Join(WriteWires(c, ws)) == Wire(ClientPackets(c, ws))
  {
    hide PackUnits, WriteUnits, HelloWire, HelloSeed, HelloHash, LaterFrames, LaterWires, UpPackets, Final;
    if ws != [] {
      var start := Chain(HelloSeed(c), 1, 0);
      var ps := PackUnits(LinkOf(c), start, WriteUnits(true, ws[0]), ws[0].noise, 0);
      var later := LaterFrames(LinkOf(c), Final(start, ps), ws[1..]);
      LaterWiresJoin(LinkOf(c), Final(start, ps), ws[1..]);
      WireAppends(ps, later);
      UpPacketsCarry(PeerOf(c), start, ps + later);
      var all := ClientPackets(c, ws);
      assert all[0] == HelloPacket(c) && all[1..] == UpPackets(PeerOf(c), ps + later);
      var wires := WriteWires(c, ws);
      assert wires[1..] == LaterWires(LinkOf(c), Final(start, ps), ws[1..]);
    }
  }

  /** What the encryptor outputs for consecutive inputs, the IV in front of the first. */
  function SealPieces(c: E.Cipher, iv: Bytes, before: Bytes, first: bool, pieces: seq<Bytes>): (r: seq<Bytes>)
    requires E.StreamCipher(c)
    ensures |r| == |pieces|
    decreases |pieces|
  {
    if pieces == [] then []
    else
      var text := E.Update(c.encipher, iv, before, pieces[0]);
      [if first then iv + text else text] + SealPieces(c, iv, before + pieces[0], false, pieces[1..])
  }

  /** Pieces behind the IV. */
  lemma {:induction false} SealRest(c: E.Cipher, iv: Bytes, before: Bytes, pieces: seq<Bytes>)
    requires E.StreamCipher(c)
    ensures c.encipher(iv, before) + Join(SealPieces(c, iv, before, false, pieces)) == c.encipher(iv, before + Join(pieces))
    decreases |pieces|
  {
    hide E.StreamCipher;
    if pieces == [] {
      assert before + Join(pieces) == before;
      assert c.encipher(iv, before) + [] == c.encipher(iv, before);
    } else {
      hide E.Update, SealPieces, Join, E.Online;
      SealStep(c, iv, before, false, pieces);
      E.UpdateContinues(c.encipher, iv, before, pieces[0]);
      SealRest(c, iv, before + pieces[0], pieces[1..]);
      Reassociate(c.encipher(iv, before), E.Update(c.encipher, iv, before, pieces[0]),
                  Join(SealPieces(c, iv, before + pieces[0], false, pieces[1..])));
    }
  }

  lemma {:induction false} Reassociate(a: Bytes, b: Bytes, c: Bytes)
    ensures a + (b + c) == a + b + c
  {
  }

  lemma {:induction false} SealPiecesJoin(c: E.Cipher, iv: Bytes, pieces: seq<Bytes>)
    requires E.StreamCipher(c) && pieces != []
    ensures var tail := Join(SealPieces(c, iv, [], true, pieces));
            iv <= tail && c.encipher(iv, []) + tail[|iv|..] == c.encipher(iv, Join(pieces))
  {
    hide E.StreamCipher, E.Update, SealPieces, Join, E.Online;
    SealStep(c, iv, [], true, pieces);
    SealStep(c, iv, [], false, pieces);
    SealRest(c, iv, [], pieces);
    assert [] + Join(pieces) == Join(pieces);
    var text := E.Update(c.encipher, iv, [], pieces[0]);
    var rest := Join(SealPieces(c, iv, [] + pieces[0], false, pieces[1..]));
    Reassociate(iv, text, rest);
  }

  lemma {:induction false} SealStep(c: E.Cipher, iv: Bytes, before: Bytes, first: bool, pieces: seq<Bytes>)
    requires E.StreamCipher(c) && pieces != []
    ensures E.Online(c.encipher)
    ensures var text := E.Update(c.encipher, iv, before, pieces[0]);
            Join(SealPieces(c, iv, before, first, pieces)) ==
            (if first then iv + text else text) + Join(SealPieces(c, iv, before + pieces[0], false, pieces[1..]))
    ensures before + pieces[0] + Join(pieces[1..]) == before + Join(pieces)
  {
    hide E.StreamCipher, E.Update;
    E.CipherIsOnline(c);
    assert SealPieces(c, iv, before, first, pieces)[1..] == SealPieces(c, iv, before + pieces[0], false, pieces[1..]);
    assert Join(pieces) == pieces[0] + Join(pieces[1..]);
  }

  /** All record payloads for consecutive encoder inputs. */
  function AllCuts(es: seq<Bytes>, draws: (nat, nat) -> Word16, i: nat): (parts: seq<Bytes>)
    ensures Join(parts) == Join(es)
    ensures forall j :: 0 <= j < |parts| ==> 0 < |parts[j]| < 0x1_0000
    decreases |es|
  {
    if es == [] then []
    else
      var parts := Cuts(es[0], (k: nat) => draws(i, k), 0);
      JoinAppends(parts, AllCuts(es[1..], draws, i + 1));
      parts + AllCuts(es[1..], draws, i + 1)
  }

  /** The bytes the record layer sends for consecutive inputs. */
  function TlsWire(es: seq<Bytes>, draws: (nat, nat) -> Word16, i: nat): Bytes
    decreases |es|
  {
    if es == [] then [] else Encoded(es[0], (k: nat) => draws(i, k)) + TlsWire(es[1..], draws, i + 1)
  }

  lemma {:induction false} RecordPacketsAppend(a: seq<Bytes>, b: seq<Bytes>)
    requires forall j :: 0 <= j < |a| ==> 0 < |a[j]| < 0x1_0000
    requires forall j :: 0 <= j < |b| ==> 0 < |b[j]| < 0x1_0000
    ensures RecordPackets(a + b) == RecordPackets(a) + RecordPackets(b)
    decreases |a|
  {
    hide Record;
    if a == [] {
      assert a + b == b;
    } else {
      assert (a + b)[1..] == a[1..] + b;
      RecordPacketsAppend(a[1..], b);
    }
  }

  lemma {:induction false} TlsWireIsRecords(es: seq<Bytes>, draws: (nat, nat) -> Word16, i: nat)
    ensures TlsWire(es, draws, i) == Wire(RecordPackets(AllCuts(es, draws, i)))
    decreases |es|
  {
    hide Record, Cuts, RecordPackets;
    if es == [] {
      NoRecords();
    } else {
      var parts := Cuts(es[0], (k: nat) => draws(i, k), 0);
      var rest := AllCuts(es[1..], draws, i + 1);
      TlsWireIsRecords(es[1..], draws, i + 1);
      RecordPacketsAppend(parts, rest);
      WireAppends(RecordPackets(parts), RecordPackets(rest));
    }
  }

  lemma {:induction false} NoRecords()
    ensures RecordPackets([]) == []
  {
  }

  /** Everything the client's socket carries for a series of writes. */
  function ClientWire(c: Client, cipher: E.Cipher, ws: seq<Write>, draws: (nat, nat) -> Word16): Bytes
    requires c.Valid() && (ws != [] ==> ws[0].extra <= 31) && E.StreamCipher(cipher)
  {
    TlsWire(SealPieces(cipher, c.iv, [], true, WriteWires(c, ws)), draws, 0)
  }

  // ----- the server's side: layer by layer, call by call

  /** What the record layer hands up for each piece the socket delivers. */
  function Unwrapped(pieces: seq<Bytes>): seq<Bytes>
    requires Steady(RecordDecoder(AtServer))
  {
    Outputs(RecordDecoder(AtServer), Idle, [], pieces)
  }

  /** The IV the relay records for the protocol: the front of the first data it sees. */
  function RecvIv(ivLen: nat, datas: seq<Bytes>): Bytes {
    if datas == [] then []
    else if datas[0] == [] then RecvIv(ivLen, datas[1..])
    else datas[0][..if ivLen < |datas[0]| then ivLen else |datas[0]|]
  }

  lemma {:induction false} RecordsDelivered(es: seq<Bytes>, draws: (nat, nat) -> Word16, pieces: seq<Bytes>)
    requires Join(pieces) == TlsWire(es, draws, 0)
    ensures Steady(RecordDecoder(AtServer))
    ensures Feed(RecordDecoder(AtServer), Idle, [], pieces).Done?
    ensures Join(Unwrapped(pieces)) == Join(es)
  {
    var d, parts := RecordDecoder(AtServer), AllCuts(es, draws, 0);
    RecordsAreDecisive(AtServer);
    RecordsArrive(AtServer, parts);
    TlsWireIsRecords(es, draws, 0);
    Delivery(d, Idle, RecordPackets(parts), pieces);
    OutputsJoin(d, Idle, [], pieces);
  }

  /** Protocol, cipher and record layer together are transparent: whatever the writes, the padding, the
      record sizes and the segmentation, the server outputs what the client wrote. The server's IV is
      the one the relay records by itself. */
  lemma {:induction false} PipelineIdentity(
    c: Client, sv: Server, cipher: E.Cipher, ws: seq<Write>, draws: (nat, nat) -> Word16, pieces: seq<Bytes>)
    requires E.StreamCipher(cipher) && |c.iv| == cipher.ivLen <= 100
    requires Matched(c, sv.(recvIv := c.iv)) && (ws != [] ==> ws[0].extra <= 31)
    requires Join(pieces) == ClientWire(c, cipher, ws, draws)
    ensures Steady(RecordDecoder(AtServer)) && Steady(UpDecoder(sv.(recvIv := c.iv)))
    ensures ws != [] ==> RecvIv(cipher.ivLen, Unwrapped(pieces)) == c.iv
    ensures var plain := E.UnsealPieces(cipher, [], Unwrapped(pieces));
            var r := Feed(UpDecoder(sv.(recvIv := c.iv)), Greeting, [], plain);
            Settled(Greeting, ClientPackets(c, ws), r) && r.out == Text(ws)
  {
    hide E.StreamCipher, Matched, UpDecoder, RecordDecoder, Settled;
    var sv' := sv.(recvIv := c.iv);
    ClientIsValid(c, sv');
    var wires := WriteWires(c, ws);
    var es := SealPieces(cipher, c.iv, [], true, wires);
    RecordsDelivered(es, draws, pieces);
    var datas := Unwrapped(pieces);
    var plain := E.UnsealPieces(cipher, [], datas);
    WriteWiresJoin(c, ws);
    if ws == [] {
      E.UnsealPiecesJoin(cipher, [], datas);
    } else {
      SealedJoin(cipher, c.iv, wires);
      E.DecryptFragments(cipher, c.iv, Join(wires), datas);
      IvRecorded(c, cipher, ws, draws, pieces);
    }
    ClientToServer(c, sv', ws, plain);
  }

  lemma {:induction false} ClientIsValid(c: Client, sv: Server)
    requires Matched(c, sv)
    ensures c.Valid() && sv.Valid()
  {
  }

  lemma {:induction false} SealedJoin(cipher: E.Cipher, iv: Bytes, pieces: seq<Bytes>)
    requires E.StreamCipher(cipher) && pieces != []
    ensures Join(SealPieces(cipher, iv, [], true, pieces)) == E.Sealed(cipher, iv, Join(pieces))
  {
    hide E.StreamCipher;
    SealPiecesJoin(cipher, iv, pieces);
    E.NothingEnciphered(cipher, iv);
    assert [] + Join(pieces) == Join(pieces);
    var tail := Join(SealPieces(cipher, iv, [], true, pieces));
    assert tail == iv + tail[|iv|..];
  }

  /** The first data a receiver hands up begins with the first packet's payload. */
  lemma {:induction false} FirstOutput<S(!new)>(
    d: Decoder<S>, s: S, ps: seq<Packet<S>>, buf: Bytes, pieces: seq<Bytes>, n: nat)
    requires Steady(d) && Sent(d, s, ps) && ps != [] && n <= |ps[0].data| && ps[0].data != []
    requires forall t :: d(t, []).More?
    requires d(s, buf).More? && buf + Join(pieces) == Wire(ps)
    ensures RecvIv(n, Outputs(d, s, buf, pieces)) == ps[0].data[..n]
    decreases |pieces|
  {
    var p := ps[0];
    FirstIsFrame(d, s, ps);
    assert pieces == [] ==> buf + Join(pieces) == buf;
    if pieces == [] {
      assert false;
    } else {
      var a, b := buf + pieces[0], Join(pieces[1..]);
      assert a + b == Wire(ps);
      if d(s, a).More? {
        FirstOutput(d, s, ps, a, pieces[1..], n);
        assert Outputs(d, s, buf, pieces)[1..] == Outputs(d, s, a, pieces[1..]);
      } else {
        assert d(s, a) == d(s, a + b);
        DrainSentPrefix(d, s, ps, a, b);
        var out := Drain(d, s, a).out;
        assert Outputs(d, s, buf, pieces)[0] == out;
        assert out[..n] == p.data[..n];
      }
    }
  }

  lemma {:induction false} FirstIsFrame<S(!new)>(d: Decoder<S>, s: S, ps: seq<Packet<S>>)
    requires Sent(d, s, ps) && ps != [] && ps[0].data != []
    ensures d(s, Wire(ps)) == Frame(ps[0].data, ps[0].next, |ps[0].wire|, ps[0].echo)
  {
    var rest := Wire(ps[1..]);
    if rest == [] {
      assert Wire(ps) == ps[0].wire;
    }
  }

  lemma {:induction false} DrainSentPrefix<S(!new)>(d: Decoder<S>, s: S, ps: seq<Packet<S>>, a: Bytes, b: Bytes)
    requires Steady(d) && Sent(d, s, ps) && ps != [] && ps[0].data != []
    requires a + b == Wire(ps) && d(s, a).Frame?
    requires forall t :: d(t, []).More?
    ensures Drain(d, s, a).Done? && ps[0].data <= Drain(d, s, a).out
  {
    FirstIsFrame(d, s, ps);
    DrainSent(d, s, ps);
    CleanPrefix(d, s, a, b);
    assert d(s, a) == d(s, a + b);
  }

  lemma {:induction false} IvRecorded(
    c: Client, cipher: E.Cipher, ws: seq<Write>, draws: (nat, nat) -> Word16, pieces: seq<Bytes>)
    requires E.StreamCipher(cipher) && |c.iv| == cipher.ivLen <= 100
    requires c.Valid() && ws != [] && ws[0].extra <= 31
    requires Join(pieces) == ClientWire(c, cipher, ws, draws) && Steady(RecordDecoder(AtServer))
    ensures RecvIv(cipher.ivLen, Unwrapped(pieces)) == c.iv
  {
    hide E.StreamCipher, RecordDecoder, RecordPackets, Sent, Cuts, WriteWires, E.Update;
    var d := RecordDecoder(AtServer);
    var es := SealPieces(cipher, c.iv, [], true, WriteWires(c, ws));
    var draws0 := (k: nat) => draws(0, k);
    var parts, mine := AllCuts(es, draws, 0), Cuts(es[0], draws0, 0);
    assert parts == mine + AllCuts(es[1..], draws, 1);
    FirstSealed(c, cipher, ws);
    FirstCutKeepsIv(c.iv, es[0], draws0);
    RecordsAreDecisive(AtServer);
    RecordsArrive(AtServer, parts);
    FirstRecord(parts);
    TlsWireIsRecords(es, draws, 0);
    assert [] + Join(pieces) == Join(pieces);
    FirstOutput(d, Idle, RecordPackets(parts), [], pieces, cipher.ivLen);
  }

  lemma {:induction false} FirstSealed(c: Client, cipher: E.Cipher, ws: seq<Write>)
    requires E.StreamCipher(cipher) && c.Valid() && ws != [] && ws[0].extra <= 31
    ensures var es := SealPieces(cipher, c.iv, [], true, WriteWires(c, ws));
            c.iv <= es[0] && es[0] != []
  {
    hide HelloWire, PackUnits, WriteUnits;
    var wire := WriteWires(c, ws)[0];
    assert |wire| >= HELLO_LEN;
    assert |cipher.encipher(c.iv, [] + wire)| == |wire|;
  }

  lemma {:induction false} FirstRecord(parts: seq<Bytes>)
    requires forall j :: 0 <= j < |parts| ==> 0 < |parts[j]| < 0x1_0000
    requires parts != []
    ensures RecordPackets(parts)[0].data == parts[0]
  {
  }

  lemma {:induction false} FirstCutKeepsIv(iv: Bytes, e: Bytes, draws: nat -> Word16)
    requires iv <= e && e != [] && |iv| <= 100
    ensures var parts := Cuts(e, draws, 0);
            parts != [] && |iv| <= |parts[0]| && parts[0][..|iv|] == iv
  {
    var parts := Cuts(e, draws, 0);
    assert Join(parts) == parts[0] + Join(parts[1..]);
    assert e[..|iv|] == iv;
  }

  /** With the plain obfuscation the recorded IV is right exactly when the first non-empty read holds
      all of it; a shorter first read fixes a wrong IV for good. */
  lemma {:induction false} PlainIvExact(cipher: E.Cipher, iv: Bytes, p: Bytes, pieces: seq<Bytes>)
    requires |iv| == cipher.ivLen > 0
    requires Join(pieces) == E.Sealed(cipher, iv, p)
    ensures RecvIv(cipher.ivLen, pieces) == iv <==> |FirstRead(pieces)| >= cipher.ivLen
  {
    FirstReadLeads(cipher.ivLen, pieces);
    var first := FirstRead(pieces);
    if |first| >= |iv| {
      assert first[..|iv|] == Join(pieces)[..|iv|] == iv;
    }
  }

  function FirstRead(pieces: seq<Bytes>): Bytes {
    if pieces == [] then [] else if pieces[0] == [] then FirstRead(pieces[1..]) else pieces[0]
  }

  lemma {:induction false} FirstReadLeads(n: nat, pieces: seq<Bytes>)
    ensures var f := FirstRead(pieces);
            f <= Join(pieces) && RecvIv(n, pieces) == f[..if n < |f| then n else |f|]
    decreases |pieces|
  {
    if pieces != [] && pieces[0] == [] {
      FirstReadLeads(n, pieces[1..]);
    }
  }

  /** A two-byte first read under an IV of four bytes leaves the server with the wrong IV. */
  lemma {:induction false} PlainIvCounterexample()
    ensures RecvIv(4, [[1, 2], [3, 4, 5]]) == [1, 2] != [1, 2, 3, 4]
  {
  }
}
