/** Two protocol objects and a wire between them: what one is given to send, the other hands out. */
module ChainTransfer {
  import opened Binary
  import opened Streaming
  import opened ChainPadding
  import opened ChainFrames
  import opened ChainSession
  import opened ChainDown
  import A = AuthChain

  // ----- client to server

  /** A client that has not sent anything. */
  ghost predicate NewClient(client: A.AuthChain, randomUid: Bytes, checkHead: Bytes, authData: Bytes)
    reads client, client.padding
  {
    && client.Valid() && client.padding.overhead < 0x1_0000 && client.unitLen == CLIENT_UNIT
    && !client.hasSentHeader && client.packId == 1
    && client.ClientNow(randomUid, checkHead, authData).Valid()
  }

  /** A server that has not received anything. */
  ghost predicate NewServer(server: A.AuthChain)
    reads server, server.padding
  {
    server.Valid() && !server.rawTrans && !server.hasRecvHeader && server.recvId == 1 && server.recvBuf == []
  }

  /** The client has sent these writes, and waits for the server's stream from its beginning. */
  ghost predicate HasSent(client: A.AuthChain, c: Client, ws: seq<Write>)
    requires c.Valid() && ws != [] && ws[0].extra <= 31
    reads client, client.padding
  {
    && client.LinkNow() == LinkOf(c) && client.UpSent() == Final(Chain(HelloSeed(c), 1, 0), ClientFrames(c, ws))
    && client.lastServerHash == HelloHash(c) && client.decOff == 0
  }

  /** The client writes one piece after another. */
  method SendAll(client: A.AuthChain, ws: seq<Write>, randomUid: Bytes, checkHead: Bytes, authData: Bytes)
    returns (wire: Bytes)
    requires NewClient(client, randomUid, checkHead, authData)
    requires forall i :: 0 <= i < |ws| ==> ws[i].extra <= 31
    modifies client`hasSentHeader, client`userKey, client`seed, client`lastClientHash, client`lastServerHash,
             client`packId, client`encOff, client`decOff, client.randomClient
    ensures var c := old(client.ClientNow(randomUid, checkHead, authData));
            && wire == Wire(ClientPackets(c, ws))
            && (ws != [] ==> HasSent(client, c, ws))
  {
    hide PackUnits, WriteUnits, HelloWire, HelloSeed, HelloHash, Final, Wire, Ready, LinkOf, LaterFrames, ClientFrames,
         ClientPackets;
    ghost var c := client.ClientNow(randomUid, checkHead, authData);
    SessionWire(c, ws);
    wire := [];
    if ws == [] {
      return;
    }
    FirstFrames(c, ws);
    var head := client.ClientPreEncrypt(ws[0], randomUid, checkHead, authData);
    var tail := SendLater(client, ws[1..], randomUid, checkHead, authData);
    wire := head + tail;
  }

  /** The writes behind the handshake. */
  method SendLater(client: A.AuthChain, ws: seq<Write>, randomUid: Bytes, checkHead: Bytes, authData: Bytes)
    returns (wire: Bytes)
    requires client.Valid() && client.padding.overhead < 0x1_0000 && client.unitLen == CLIENT_UNIT && client.hasSentHeader
    requires client.ClientNow(randomUid, checkHead, authData).Valid()
    requires forall i :: 0 <= i < |ws| ==> ws[i].extra <= 31
    modifies client`hasSentHeader, client`userKey, client`seed, client`lastClientHash, client`lastServerHash,
             client`packId, client`encOff, client`decOff, client.randomClient
    ensures client.LinkNow() == old(client.LinkNow())
    ensures client.lastServerHash == old(client.lastServerHash) && client.decOff == old(client.decOff)
    ensures var all := LaterFrames(client.LinkNow(), old(client.UpSent()), ws);
            wire == Wire(all) && client.UpSent() == Final(old(client.UpSent()), all)
  {
    hide PackUnits, WriteUnits, Final, Wire, Ready, LaterFrames, HelloSeed, HelloHash, HelloWire;
    wire := [];
    ghost var link, s, c := client.LinkNow(), client.UpSent(), client.ClientNow(randomUid, checkHead, authData);
    ghost var all := LaterFrames(link, s, ws);
    assert ws[0..] == ws;
    for i := 0 to |ws|
      invariant client.Valid() && client.LinkNow() == link && client.unitLen == CLIENT_UNIT && client.hasSentHeader
      invariant client.padding.overhead < 0x1_0000 && client.ClientNow(randomUid, checkHead, authData) == c
      invariant client.lastServerHash == old(client.lastServerHash) && client.decOff == old(client.decOff)
      invariant var later := LaterFrames(link, client.UpSent(), ws[i..]);
                Wire(all) == wire + Wire(later) && Final(s, all) == Final(client.UpSent(), later)
    {
      LaterStep(link, client.UpSent(), ws[i..]);
      assert ws[i..][0] == ws[i] && ws[i..][1..] == ws[i + 1..];
      var more := client.ClientPreEncrypt(ws[i], randomUid, checkHead, authData);
      wire := wire + more;
    }
    NothingLater(link, client.UpSent());
    assert ws[|ws|..] == [];
  }

  lemma {:induction false} SessionWire(c: Client, ws: seq<Write>)
    requires c.Valid() && (ws != [] ==> ws[0].extra <= 31)
    ensures Wire(ClientPackets(c, ws)) == if ws == [] then [] else HelloWire(c) + Wire(ClientFrames(c, ws))
  {
    hide ClientFrames, HelloWire;
    if ws != [] {
      var frames := ClientFrames(c, ws);
      UpPacketsCarry(PeerOf(c), Chain(HelloSeed(c), 1, 0), frames);
      var ps := ClientPackets(c, ws);
      assert ps[0] == HelloPacket(c) && ps[1..] == UpPackets(PeerOf(c), frames);
    }
  }

  lemma {:induction false} FirstFrames(c: Client, ws: seq<Write>)
    requires c.Valid() && ws != [] && ws[0].extra <= 31
    ensures var start, all := Chain(HelloSeed(c), 1, 0), ClientFrames(c, ws);
            var ps := PackUnits(LinkOf(c), start, WriteUnits(true, ws[0]), ws[0].noise, 0);
            var later := LaterFrames(LinkOf(c), Final(start, ps), ws[1..]);
            Wire(all) == Wire(ps) + Wire(later) && Final(start, all) == Final(Final(start, ps), later)
  {
    hide PackUnits, WriteUnits, LaterFrames, HelloSeed;
    var start := Chain(HelloSeed(c), 1, 0);
    var ps := PackUnits(LinkOf(c), start, WriteUnits(true, ws[0]), ws[0].noise, 0);
    var later := LaterFrames(LinkOf(c), Final(start, ps), ws[1..]);
    WireAppends(ps, later);
    FinalAppends(start, ps, later);
  }

  lemma {:induction false} LaterStep(link: Link, s: Chain, ws: seq<Write>)
    requires link.Valid() && ws != []
    ensures var ps := PackUnits(link, s, WriteUnits(false, ws[0]), ws[0].noise, 0);
            var all, later := LaterFrames(link, s, ws), LaterFrames(link, Final(s, ps), ws[1..]);
            Wire(all) == Wire(ps) + Wire(later) && Final(s, all) == Final(Final(s, ps), later)
  {
    hide PackUnits, WriteUnits, Link.Valid;
    var ps := PackUnits(link, s, WriteUnits(false, ws[0]), ws[0].noise, 0);
    var later := LaterFrames(link, Final(s, ps), ws[1..]);
    WireAppends(ps, later);
    FinalAppends(s, ps, later);
  }

  lemma {:induction false} NothingLater(link: Link, s: Chain)
    requires link.Valid()
    ensures LaterFrames(link, s, []) == [] && Wire(LaterFrames(link, s, [])) == [] && Final(s, LaterFrames(link, s, [])) == s
  {
  }

  /** The server is handed one piece after another. */
  method ReceiveAll(server: A.AuthChain, pieces: seq<Bytes>) returns (out: Bytes)
    requires server.Valid() && !server.rawTrans && !server.hasRecvHeader && server.recvId == 1
    requires Steady(UpDecoder(server.ServerNow()))
    requires Feed(UpDecoder(server.ServerNow()), server.UpReceived(), server.recvBuf, pieces).Done?
    modifies server`rawTrans, server`userKey, server`seed, server`helloHash, server`clientOverHead,
             server`lastClientHash, server`lastServerHash, server`decOff, server`encOff, server`recvBuf,
             server`recvId, server`hasRecvHeader, server.randomClient
    ensures var r := old(Feed(UpDecoder(server.ServerNow()), server.UpReceived(), server.recvBuf, pieces));
            out == r.out && server.ServerAt(r)
    ensures server.Valid()
    ensures server.hasRecvHeader ==> server.lastServerHash == server.helloHash && server.encOff == 0
  {
    hide UpDecoder, Drain, Steady, Ready;
    out := [];
    ghost var sv, d := server.ServerNow(), UpDecoder(server.ServerNow());
    ghost var all := Feed(d, server.UpReceived(), server.recvBuf, pieces);
    ghost var echo := false;
    AfterNothing(all);
    assert pieces[0..] == pieces;
    for i := 0 to |pieces|
      invariant server.Valid() && !server.rawTrans && (!server.hasRecvHeader ==> server.recvId == 1)
      invariant server.ServerNow() == sv
      invariant all == After(out, echo, Feed(d, server.UpReceived(), server.recvBuf, pieces[i..]))
      invariant server.hasRecvHeader ==> server.lastServerHash == server.helloHash && server.encOff == 0
    {
      assert pieces[i..][0] == pieces[i] && pieces[i..][1..] == pieces[i + 1..];
      ghost var step := Drain(d, server.UpReceived(), server.recvBuf + pieces[i]);
      var reply := server.ServerPostDecrypt(pieces[i]);
      AfterAfter(out, echo, step.out, step.echo, Feed(d, step.state, step.rest, pieces[i + 1..]));
      out := out + reply.data;
      echo := echo || step.echo;
    }
    assert out + [] == out;
  }

  /** Both ends hold the same keys, and stand at the beginning of the server's stream. */
  ghost predicate ReadyForDown(server: A.AuthChain, client: A.AuthChain)
    reads server, server.padding, client, client.padding
  {
    && server.Valid() && client.Valid() && server.LinkNow() == client.LinkNow()
    && server.DownSent() == client.DownReceived().chain && server.packId == 1
    && !server.rawTrans && !client.rawTrans && client.recvBuf == []
  }

  /** From fresh objects on matching terms, any writes cut anywhere come out as they went in. The server then
      stands where the client stands, unless an empty last frame is still buffered, and both are ready for the
      other direction. */
  method Upload(
      client: A.AuthChain, server: A.AuthChain, ws: seq<Write>, randomUid: Bytes, checkHead: Bytes, authData: Bytes,
      split: Bytes -> seq<Bytes>)
    returns (out: Bytes)
    requires client != server && client.padding != server.padding && client.randomClient != server.randomClient
    requires NewClient(client, randomUid, checkHead, authData) && NewServer(server)
    requires forall i :: 0 <= i < |ws| ==> ws[i].extra <= 31
    requires Matched(client.ClientNow(randomUid, checkHead, authData), server.ServerNow())
    requires forall wire :: Join(split(wire)) == wire
    modifies client`hasSentHeader, client`userKey, client`seed, client`lastClientHash, client`lastServerHash,
             client`packId, client`encOff, client`decOff, client.randomClient,
             server`rawTrans, server`userKey, server`seed, server`helloHash, server`clientOverHead,
             server`lastClientHash, server`lastServerHash, server`decOff, server`encOff, server`recvBuf,
             server`recvId, server`hasRecvHeader, server.randomClient
    ensures out == Text(ws)
    ensures !server.rawTrans && |server.recvBuf| <= HELD
    ensures ws != [] && server.recvBuf == [] ==> server.UpReceived().Talking? && server.UpReceived().chain == client.UpSent()
    ensures ws != [] ==> server.clientOverHead == client.padding.overhead
    ensures ws != [] && client.recvId == 1 && server.packId == 1 && client.recvBuf == [] && !client.rawTrans ==>
              ReadyForDown(server, client)
  {
    hide ClientPackets, UpDecoder, Feed, Steady, Ready, Text, HelloSeed, HelloHash, ClientFrames;
    ghost var c, sv := client.ClientNow(randomUid, checkHead, authData), server.ServerNow();
    var wire := SendAll(client, ws, randomUid, checkHead, authData);
    var pieces := split(wire);
    ClientToServer(c, sv, ws, pieces);
    ghost var r := Feed(UpDecoder(sv), Greeting, [], pieces);
    out := ReceiveAll(server, pieces);
    if ws != [] {
      SettledAgrees(c, ws, r);
    }
  }

  /** Where the server stands once all bytes have arrived. */
  lemma {:induction false} SettledAgrees(c: Client, ws: seq<Write>, r: Result<ServerState>)
    requires c.Valid() && ws != [] && ws[0].extra <= 31 && Settled(Greeting, ClientPackets(c, ws), r)
    ensures r.state.Talking? && r.state.peer == PeerOf(c)
    ensures r.rest == [] ==> r.state.chain == Final(Chain(HelloSeed(c), 1, 0), ClientFrames(c, ws))
  {
    hide ClientFrames, HelloSeed, PeerOf, HelloWire;
    var ps, frames := ClientPackets(c, ws), ClientFrames(c, ws);
    BoundaryState(c, ws, |ps|);
    assert ps[..|ps|] == ps && frames[..|frames|] == frames;
    if r.rest != [] {
      BoundaryState(c, ws, |ps| - 1);
    }
  }

  // ----- server to client

  /** The segment size that the server announces, and the unit that follows from it. */
  ghost predicate Sends(server: A.AuthChain, mss: Word16, unit: nat)
    reads server, server.padding
  {
    mss == server.AnnouncedMss() && unit == mss - server.clientOverHead && 1 <= unit < FRAME_LIMIT
  }

  /** The server writes one piece after another. */
  method SendDown(server: A.AuthChain, ws: seq<Write>, ghost mss: Word16, ghost unit: nat) returns (wire: Bytes)
    requires server.Valid() && !server.rawTrans && server.packId == 1 && Sends(server, mss, unit)
    modifies server`tcpMss, server`unitLen, server`lastServerHash, server`packId, server`encOff, server.randomServer
    ensures server.LinkNow() == old(server.LinkNow())
    ensures var all := ServerFrames(server.LinkNow(), old(server.DownSent()), ws, mss, unit);
            wire == Wire(all) && server.DownSent() == Final(old(server.DownSent()), all)
  {
    hide PackUnits, DownUnits, Final, Wire, Ready, ServerFrames;
    ghost var link, s := server.LinkNow(), server.DownSent();
    ghost var all := ServerFrames(link, s, ws, mss, unit);
    wire := [];
    assert ws[0..] == ws;
    for i := 0 to |ws|
      invariant server.Valid() && !server.rawTrans && server.LinkNow() == link && Sends(server, mss, unit)
      invariant server.packId == 1 || (server.unitLen == unit && server.tcpMss == mss)
      invariant var later := ServerFrames(link, server.DownSent(), ws[i..], mss, unit);
                Wire(all) == wire + Wire(later) && Final(s, all) == Final(server.DownSent(), later)
    {
      DownStepOf(link, server.DownSent(), ws[i..], mss, unit);
      assert ws[i..][1..] == ws[i + 1..] && ws[i..][0] == ws[i];
      var more := server.ServerPreEncrypt(ws[i]);
      wire := wire + more;
    }
    NothingSent(link, server.DownSent(), mss, unit);
    assert ws[|ws|..] == [];
  }

  lemma {:induction false} DownStepOf(link: Link, s: Chain, ws: seq<Write>, mss: Word16, unit: nat)
    requires link.Valid() && ws != [] && 1 <= unit < FRAME_LIMIT
    ensures var ps := PackUnits(link, s, DownUnits(s.id == 1, mss, unit, ws[0].data), ws[0].noise, 0);
            var all, later := ServerFrames(link, s, ws, mss, unit), ServerFrames(link, Final(s, ps), ws[1..], mss, unit);
            Wire(all) == Wire(ps) + Wire(later) && Final(s, all) == Final(Final(s, ps), later)
  {
    hide PackUnits, DownUnits, Link.Valid;
    var ps := PackUnits(link, s, DownUnits(s.id == 1, mss, unit, ws[0].data), ws[0].noise, 0);
    var later := ServerFrames(link, Final(s, ps), ws[1..], mss, unit);
    WireAppends(ps, later);
    FinalAppends(s, ps, later);
  }

  lemma {:induction false} NothingSent(link: Link, s: Chain, mss: Word16, unit: nat)
    requires link.Valid() && 1 <= unit < FRAME_LIMIT
    ensures var all := ServerFrames(link, s, [], mss, unit); all == [] && Wire(all) == [] && Final(s, all) == s
  {
  }

  /** The client is handed one piece after another of a stream whose ids rise. */
  method ReceiveDown(client: A.AuthChain, pieces: seq<Bytes>, ghost ps: seq<Packet<DownState>>) returns (out: Bytes)
    requires client.Valid() && !client.rawTrans && client.recvBuf == []
    requires Steady(DownDecoder(client.LinkNow())) && (forall t :: DownDecoder(client.LinkNow())(t, []).More?)
    requires Sent(DownDecoder(client.LinkNow()), client.DownReceived(), ps) && Rising(client.DownReceived(), ps)
    requires Join(pieces) == Wire(ps)
    modifies client`rawTrans, client`lastServerHash, client`decOff, client`recvBuf, client`recvId, client`tcpMss,
             client.randomServer
    ensures var r := old(Feed(DownDecoder(client.LinkNow()), client.DownReceived(), client.recvBuf, pieces));
            r.Done? && out == r.out && client.DownReceived() == r.state && client.recvBuf == r.rest && !client.rawTrans
  {
    hide DownDecoder, Drain, Steady, Ready, Sent, Rising, Wire, Payload, DownCall;
    out := [];
    ghost var link, d := client.LinkNow(), DownDecoder(client.LinkNow());
    ghost var all := Feed(d, client.DownReceived(), client.recvBuf, pieces);
    ghost var left := ps;
    AfterNothing(all);
    assert pieces[0..] == pieces && [] + Join(pieces) == Join(pieces);
    for i := 0 to |pieces|
      invariant client.Valid() && !client.rawTrans && client.LinkNow() == link
      invariant Sent(d, client.DownReceived(), left) && Rising(client.DownReceived(), left)
      invariant client.recvBuf + Join(pieces[i..]) == Wire(left)
      invariant all == After(out, false, Feed(d, client.DownReceived(), client.recvBuf, pieces[i..]))
    {
      ghost var s, buf, later := client.DownReceived(), client.recvBuf, pieces[i + 1..];
      assert pieces[i..][0] == pieces[i] && pieces[i..][1..] == later;
      assert Wire(left) == (buf + pieces[i]) + Join(later);
      ghost var k := OneCall(link, s, left, buf + pieces[i], Join(later));
      ghost var step := Drain(d, s, buf + pieces[i]);
      var reply := client.ClientPostDecrypt(pieces[i]);
      AfterAfter(out, false, step.out, false, Feed(d, step.state, step.rest, later));
      out := out + reply.data;
      left := left[k..];
    }
    assert out + [] == out;
  }

  /** One call of the client on part of such a stream: it reads some packets, and the rest of the stream is
      still to come. */
  lemma {:induction false} OneCall(link: Link, s: DownState, ps: seq<Packet<DownState>>, got: Bytes, more: Bytes)
    returns (k: nat)
    requires link.Valid() && Steady(DownDecoder(link)) && (forall t :: DownDecoder(link)(t, []).More?)
    requires Sent(DownDecoder(link), s, ps) && Rising(s, ps) && got + more == Wire(ps)
    ensures var r := Drain(DownDecoder(link), s, got);
            && DownCall(link, s, [], got) == r && r.Done? && !r.echo && k <= |ps|
            && Sent(DownDecoder(link), r.state, ps[k..]) && Rising(r.state, ps[k..])
            && r.rest + more == Wire(ps[k..])
  {
    hide DownDecoder, Drain, Steady, Sent, Wire, Payload, DownCall;
    var d := DownDecoder(link);
    k := BoundaryOf(d, s, ps, got);
    var r := Drain(d, s, got);
    SentClimbs(link, s, ps, got);
    DownCallDrains(link, s, [], got);
    NoEcho(link, s, got);
    AfterNothing(r);
    SentDrops(d, s, ps, k);
    var done := Wire(ps[..k]);
    assert done + (r.rest + more) == (done + r.rest) + more == done + Wire(ps[k..]);
    Cancel(done, r.rest + more, Wire(ps[k..]));
  }

  lemma {:induction false} Cancel(a: Bytes, b: Bytes, c: Bytes)
    requires a + b == a + c
    ensures b == c
  {
    assert (a + b)[|a|..] == b && (a + c)[|a|..] == c;
  }

  /** The client's receiver never asks to send anything back. */
  lemma {:induction false} NoEcho(link: Link, s: DownState, buf: Bytes)
    requires link.Valid() && Steady(DownDecoder(link)) && Drain(DownDecoder(link), s, buf).Done?
    ensures !Drain(DownDecoder(link), s, buf).echo
    decreases |buf|
  {
    hide Open, Link.Valid, U16le;
    var step := DownDecoder(link)(s, buf);
    assert step == DownStep(link, s, buf);
    if step.Frame? {
      NoEcho(link, step.next, buf[step.used..]);
    }
  }

  /** With matching keys and a unit that holds the announcement, whatever the server writes, cut anywhere,
      comes out at the client as it went in; the client then uses the announced segment size, and stands
      where the server stands unless an empty last frame is still buffered. */
  method Download(server: A.AuthChain, client: A.AuthChain, ws: seq<Write>, split: Bytes -> seq<Bytes>) returns (out: Bytes)
    requires client != server && client.padding != server.padding && client.randomServer != server.randomServer
    requires ReadyForDown(server, client)
    requires 2 <= server.AnnouncedMss() - server.clientOverHead < FRAME_LIMIT
    requires FrameCount(true, ws, server.AnnouncedMss(), server.AnnouncedMss() - server.clientOverHead) < 0xFFFF_FFFF
    requires forall wire :: Join(split(wire)) == wire
    modifies server`tcpMss, server`unitLen, server`lastServerHash, server`packId, server`encOff, server.randomServer,
             client`rawTrans, client`lastServerHash, client`decOff, client`recvBuf, client`recvId, client`tcpMss,
             client.randomServer
    ensures out == Text(ws)
    ensures !client.rawTrans && |client.recvBuf| <= HELD
    ensures ws != [] ==> client.tcpMss == old(server.AnnouncedMss())
    ensures client.recvBuf == [] ==> client.DownReceived().chain == server.DownSent()
  {
    hide DownDecoder, Feed, Steady, Ready, Text, ServerFrames, ServerPackets, FrameCount, Sent, Rising, Wire, Decisive;
    ghost var mss := server.AnnouncedMss();
    ghost var unit := mss - server.clientOverHead;
    ghost var link, s := client.LinkNow(), client.DownReceived();
    var wire := SendDown(server, ws, mss, unit);
    var pieces := split(wire);
    ghost var ps, qs := ServerPackets(link, s, ws, mss, unit), ServerFrames(link, s.chain, ws, mss, unit);
    ServerToClient(link, s, ws, mss, unit, pieces);
    ServerPacketsAreSent(link, s, ws, mss, unit);
    ServerIdsRise(link, s, ws, mss, unit);
    ServerFramesAre(link, s, ws, mss, unit);
    SameFramesWire(s, ps, qs);
    DownIsDecisive(link);
    out := ReceiveDown(client, pieces, ps);
  }

  /** A whole conversation: what the client writes reaches the server, and then what the server writes reaches
      the client. */
  method Converse(
      client: A.AuthChain, server: A.AuthChain, up: seq<Write>, down: seq<Write>,
      randomUid: Bytes, checkHead: Bytes, authData: Bytes, split: Bytes -> seq<Bytes>)
    returns (atServer: Bytes, atClient: Bytes)
    requires client != server && client.padding != server.padding
    requires client.randomClient != server.randomClient && client.randomServer != server.randomServer
    requires client.randomServer != server.randomClient && client.randomClient != server.randomServer
    requires NewClient(client, randomUid, checkHead, authData) && NewServer(server) && up != []
    requires client.recvId == 1 && client.recvBuf == [] && !client.rawTrans && server.packId == 1
    requires forall i :: 0 <= i < |up| ==> up[i].extra <= 31
    requires Matched(client.ClientNow(randomUid, checkHead, authData), server.ServerNow())
    requires 2 <= server.AnnouncedMss() - client.padding.overhead < FRAME_LIMIT
    requires FrameCount(true, down, server.AnnouncedMss(), server.AnnouncedMss() - client.padding.overhead) < 0xFFFF_FFFF
    requires forall wire :: Join(split(wire)) == wire
    modifies client, client.randomClient, client.randomServer, server, server.randomClient, server.randomServer
    ensures atServer == Text(up) && atClient == Text(down)
    ensures down != [] ==> client.tcpMss == old(server.AnnouncedMss())
  {
    hide Text, FrameCount, Matched, Ready;
    atServer := Upload(client, server, up, randomUid, checkHead, authData, split);
    atClient := Download(server, client, down, split);
  }
}
