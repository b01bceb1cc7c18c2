/**
  A whole auth_chain connection as a stream of packets: the 36-byte handshake, the client's frames
  to the server, and the server's frames with their two-byte MSS prefix back to the client.
*/
module ChainSession {
  import opened Binary
  import opened Streaming
  import opened ChainPadding
  import opened ChainFrames

  const CLIENT_UNIT := 2800
  const HELLO_LEN := 36

  // ----- the two ends

  /** What the client knows, with the random and clock-dependent parts of its handshake. */
  datatype Client = Client(
    suite: Suite, kind: Kind, tables: Tables, overhead: Word16,
    key: Bytes, iv: Bytes, userKey: Bytes,
    uid: Bytes, checkHead: Bytes, authData: Bytes)
  {
    ghost predicate Valid() {
      Ready(kind, tables) && |uid| == 4 && |checkHead| == 4 && |authData| == 12
    }
  }

  /** What the server knows; `admit` is its time-stamp test and connection-id table. */
  datatype Server = Server(
    suite: Suite, kind: Kind, tables: Tables, overhead: nat,
    key: Bytes, recvIv: Bytes, users: map<Bytes, Bytes>, admit: (Bytes, Bytes16) -> bool)
  {
    ghost predicate Valid() {
      Ready(kind, tables)
    }

    function UserKey(uid: Bytes): Bytes {
      if uid in users then users[uid]
      else if users == map[] then key
      else recvIv
    }

    function LinkTo(peer: Peer): Link {
      Link(suite, kind, tables, overhead, peer.userKey, peer.seed)
    }
  }

  /** What a server has learnt from a handshake. */
  datatype Peer = Peer(userKey: Bytes, seed: Bytes16, downHash: Bytes16, overhead: Word16)

  datatype ServerState = Greeting | Talking(peer: Peer, chain: Chain)

  // ----- the handshake as sent

  function HelloSeed(c: Client): Bytes16 {
    c.suite.hmac(c.iv + c.key, c.checkHead)
  }

  function HelloHead(c: Client): Bytes16
    requires c.Valid()
  {
    c.authData + (Le16(c.overhead) + Le16(0))
  }

  function HelloBody(c: Client): (b: Bytes)
    requires c.Valid()
    ensures |b| == 20
  {
    Le32(Xor32(U32le(c.uid), U32le(HelloSeed(c)[8..12]))) + c.suite.aesEncrypt(c.userKey, HelloHead(c))
  }

  function HelloHash(c: Client): Bytes16
    requires c.Valid()
  {
    c.suite.hmac(c.userKey, HelloBody(c))
  }

  function HelloWire(c: Client): (b: Bytes)
    requires c.Valid()
    ensures |b| == HELLO_LEN
  {
    c.checkHead + HelloSeed(c)[..8] + HelloBody(c) + HelloHash(c)[..4]
  }

  function PeerOf(c: Client): Peer
    requires c.Valid()
  {
    Peer(c.userKey, HelloSeed(c), HelloHash(c), c.overhead)
  }

  function LinkOf(c: Client): Link {
    Link(c.suite, c.kind, c.tables, c.overhead, c.userKey, HelloSeed(c))
  }

  // ----- the handshake as received

  /** The early test on the first bytes; at 4 to 6 and 9 to 11 bytes the server looks at nothing. */
  function HelloMismatch(sv: Server, buf: Bytes): bool {
    (|buf| >= 12 || |buf| == 7 || |buf| == 8) &&
    var recvLen := if |buf| < 12 then |buf| else 12;
    sv.suite.hmac(sv.recvIv + sv.key, buf[..4])[..recvLen - 4] != buf[4..recvLen]
  }

  function HelloPeer(sv: Server, hello: Bytes): Peer
    requires |hello| == HELLO_LEN
  {
    var seed := sv.suite.hmac(sv.recvIv + sv.key, hello[..4]);
    var userKey := sv.UserKey(HelloUid(sv, hello));
    var head := sv.suite.aesDecrypt(userKey, hello[16..32]);
    Peer(userKey, seed, sv.suite.hmac(userKey, hello[12..32]), U16le(head[12..14]))
  }

  function HelloUid(sv: Server, hello: Bytes): Bytes
    requires |hello| == HELLO_LEN
  {
    var seed := sv.suite.hmac(sv.recvIv + sv.key, hello[..4]);
    Le32(Xor32(U32le(hello[12..16]), U32le(seed[8..12])))
  }

  /** The decision on a complete handshake. */
  predicate HelloAccepted(sv: Server, hello: Bytes)
    requires |hello| == HELLO_LEN
  {
    var uid, peer := HelloUid(sv, hello), HelloPeer(sv, hello);
    && peer.downHash[..4] == hello[32..36]
    && sv.admit(if uid in sv.users then uid else [], sv.suite.aesDecrypt(peer.userKey, hello[16..32]))
  }

  function HelloStep(sv: Server, buf: Bytes): Step<ServerState> {
    if HelloMismatch(sv, buf) then Bad(Decoy)
    else if |buf| < HELLO_LEN then More
    else if !HelloAccepted(sv, buf[..HELLO_LEN]) then Bad(Decoy)
    else
      var peer := HelloPeer(sv, buf[..HELLO_LEN]);
      Frame([], Talking(peer, Chain(peer.seed, 1, 0)), HELLO_LEN, true)
  }

  // ----- client to server

  function UpStep(sv: Server, s: ServerState, buf: Bytes): Step<ServerState>
    requires sv.Valid()
  {
    match s
    case Greeting => HelloStep(sv, buf)
    case Talking(peer, chain) =>
      match Open(sv.LinkTo(peer), chain, buf)
      case Wait => More
      case Refused => Bad(if chain.id == 1 then Decoy else Raise)
      case Opened(data, next, used) => Frame(data, Talking(peer, next), used, data == [])
  }

  function UpDecoder(sv: Server): Decoder<ServerState>
    requires sv.Valid()
  {
    (s, buf) => UpStep(sv, s, buf)
  }

  lemma {:induction false} HelloIsSteady(sv: Server, buf: Bytes, more: Bytes)
    ensures HelloStep(sv, buf).Frame? ==> |buf| >= HELLO_LEN && HelloStep(sv, buf + more) == HelloStep(sv, buf)
    ensures HelloStep(sv, buf).Bad? ==> !HelloStep(sv, buf + more).Frame?
  {
    var all := buf + more;
    if |buf| >= 12 {
      assert all[..4] == buf[..4] && all[4..12] == buf[4..12];
      if |buf| >= HELLO_LEN {
        assert all[..HELLO_LEN] == buf[..HELLO_LEN];
      }
    } else if HelloMismatch(sv, buf) && |all| >= HELLO_LEN {
      var mac := sv.suite.hmac(sv.recvIv + sv.key, buf[..4]);
      assert all[..4] == buf[..4] && all[4..|buf|] == buf[4..];
      SliceOfSlice(all, 4, 12, |buf| - 4);
      SliceOfSlice(mac, 0, 8, |buf| - 4);
    }
  }

  /** The server's receiver decides each frame from that frame's bytes alone. */
  lemma {:induction false} UpIsSteady(sv: Server)
    requires sv.Valid()
    ensures Steady(UpDecoder(sv))
    ensures forall s :: UpDecoder(sv)(s, []).More?
  {
    var d := UpDecoder(sv);
    forall s, b: Bytes, more: Bytes
      ensures d(s, b).Frame? ==> 0 < d(s, b).used <= |b| && d(s, b + more) == d(s, b)
      ensures d(s, b).Bad? ==> !d(s, b + more).Frame?
    {
      match s
      case Greeting => HelloIsSteady(sv, b, more);
      case Talking(peer, chain) => OpenIsStable(sv.LinkTo(peer), chain, b, more);
    }
    forall s, b: Bytes
      ensures d(s, b).Frame? ==> 0 < d(s, b).used <= |b|
    {
      assert d(s, b).Frame? ==> 0 < d(s, b).used <= |b| && d(s, b + []) == d(s, b);
    }
  }

  /** Both ends hold the same secrets, and the server is willing to take this client. */
  ghost predicate Matched(c: Client, sv: Server) {
    && c.Valid() && sv.Valid()
    && sv.suite == c.suite && sv.kind == c.kind && sv.tables == c.tables && sv.overhead == c.overhead
    && sv.key == c.key && sv.recvIv == c.iv
    && sv.UserKey(c.uid) == c.userKey
    && (forall k: Bytes, b: Bytes16 :: c.suite.aesDecrypt(k, c.suite.aesEncrypt(k, b)) == b)
    && sv.admit(if c.uid in sv.users then c.uid else [], HelloHead(c))
  }

  /** Sharing the server's key, or being listed with one's own, is enough. */
  lemma {:induction false} TermsMatch(c: Client, users: map<Bytes, Bytes>, admit: (Bytes, Bytes16) -> bool)
    requires c.Valid() && admit(if c.uid in users then c.uid else [], HelloHead(c))
    requires forall k: Bytes, b: Bytes16 :: c.suite.aesDecrypt(k, c.suite.aesEncrypt(k, b)) == b
    requires if c.uid in users then users[c.uid] == c.userKey else users == map[] && c.userKey == c.key
    ensures Matched(c, Server(c.suite, c.kind, c.tables, c.overhead, c.key, c.iv, users, admit))
  {
  }

  lemma {:induction false} HelloFields(c: Client)
    requires c.Valid()
    ensures var w := HelloWire(c);
            && w[..4] == c.checkHead && w[4..12] == HelloSeed(c)[..8]
            && w[12..16] == HelloBody(c)[..4] && w[16..32] == HelloBody(c)[4..]
            && w[12..32] == HelloBody(c) && w[32..36] == HelloHash(c)[..4]
  {
  }

  /** The server reads the client's handshake as the client meant it. */
  lemma {:induction false} HelloAgrees(c: Client, sv: Server)
    requires Matched(c, sv)
    ensures HelloPeer(sv, HelloWire(c)) == PeerOf(c) && HelloAccepted(sv, HelloWire(c))
  {
    var w := HelloWire(c);
    HelloFields(c);
    var mask := U32le(HelloSeed(c)[8..12]);
    var masked := Xor32(U32le(c.uid), mask);
    assert HelloBody(c)[..4] == Le32(masked);
    U32leOfLe32(masked);
    XorCancels(U32le(c.uid), mask);
    Le32OfU32le(c.uid);
    assert HelloUid(sv, w) == c.uid;
    assert HelloBody(c)[4..] == c.suite.aesEncrypt(c.userKey, HelloHead(c));
    assert HelloHead(c)[12..14] == Le16(c.overhead);
  }

  function HelloPacket(c: Client): Packet<ServerState>
    requires c.Valid()
  {
    Packet(HelloWire(c), [], Talking(PeerOf(c), Chain(HelloSeed(c), 1, 0)), true)
  }

  lemma {:induction false} HelloIsRead(c: Client, sv: Server)
    requires Matched(c, sv)
    ensures Reads(UpDecoder(sv), Greeting, HelloPacket(c))
  {
    var p := HelloPacket(c);
    HelloAgrees(c, sv);
    HelloFields(c);
    forall rest: Bytes
      ensures UpDecoder(sv)(Greeting, p.wire + rest) == Frame(p.data, p.next, |p.wire|, p.echo)
    {
      var buf := p.wire + rest;
      assert buf[..HELLO_LEN] == p.wire;
      assert buf[..4] == p.wire[..4] && buf[4..12] == p.wire[4..12];
    }
    assert p.wire + [] == p.wire;
  }

  /** A client frame, seen as a packet for the server. */
  function UpPacket(peer: Peer, p: Packet<Chain>): Packet<ServerState> {
    Packet(p.wire, p.data, Talking(peer, p.next), p.echo)
  }

  lemma {:induction false} UpPacketIsRead(sv: Server, peer: Peer, chain: Chain, data: Bytes, noise: nat -> Byte)
    requires sv.Valid() && |data| < FRAME_LIMIT
    ensures Reads(UpDecoder(sv), Talking(peer, chain),
                  UpPacket(peer, Pack(sv.LinkTo(peer), chain, data, noise)))
  {
    hide PadLen, Ready;
    var d, s := UpDecoder(sv), Talking(peer, chain);
    var p := UpPacket(peer, Pack(sv.LinkTo(peer), chain, data, noise));
    forall rest: Bytes | rest != [] || |p.wire| > 4
      ensures d(s, p.wire + rest) == Frame(p.data, p.next, |p.wire|, p.echo)
    {
      OpenPacked(sv.LinkTo(peer), chain, data, noise, rest);
    }
    assert p.wire + [] == p.wire;
  }

  // ----- what a client sends

  /** One application write, with the random choices made while sending it. */
  datatype Write = Write(data: Bytes, extra: nat, noise: (nat, nat) -> Byte)

  /** The random source of the `k`th frame of a write. */
  function Nth(noise: (nat, nat) -> Byte, k: nat): nat -> Byte {
    (i: nat) => noise(k, i)
  }

  /** Frames for consecutive units, the random source indexed by frame. */
  function PackUnits(link: Link, s: Chain, units: seq<Bytes>, noise: (nat, nat) -> Byte, k: nat)
    : (ps: seq<Packet<Chain>>)
    requires link.Valid() && forall i :: 0 <= i < |units| ==> |units[i]| < 0x1_0000
    ensures |ps| == |units|
    decreases |units|
  {
    if units == [] then []
    else
      var p := Pack(link, s, units[0], Nth(noise, k));
      [p] + PackUnits(link, p.next, units[1..], noise, k + 1)
  }

  function UpPackets(peer: Peer, ps: seq<Packet<Chain>>): (r: seq<Packet<ServerState>>)
    ensures |r| == |ps|
  {
    if ps == [] then [] else [UpPacket(peer, ps[0])] + UpPackets(peer, ps[1..])
  }

  lemma {:induction false} PackUnitsStep(
    link: Link, s: Chain, units: seq<Bytes>, noise: (nat, nat) -> Byte, k: nat)
    requires link.Valid() && units != [] && forall i :: 0 <= i < |units| ==> |units[i]| < 0x1_0000
    ensures var p := Pack(link, s, units[0], Nth(noise, k));
            var ps := PackUnits(link, s, units, noise, k);
            var rest := PackUnits(link, p.next, units[1..], noise, k + 1);
            Wire(ps) == p.wire + Wire(rest) && Final(s, ps) == Final(p.next, rest)
  {
    hide Pack, PadLen, Ready;
    var p := Pack(link, s, units[0], Nth(noise, k));
    var ps := PackUnits(link, s, units, noise, k);
    assert ps[0] == p && ps[1..] == PackUnits(link, p.next, units[1..], noise, k + 1);
  }

  lemma {:induction false} UpPacketsCarry(peer: Peer, s: Chain, ps: seq<Packet<Chain>>)
    ensures var us := UpPackets(peer, ps);
            && Wire(us) == Wire(ps) && Payload(us) == Payload(ps)
            && Final(Talking(peer, s), us) == Talking(peer, Final(s, ps))
    decreases |ps|
  {
    if ps != [] {
      var us := UpPackets(peer, ps);
      assert us[1..] == UpPackets(peer, ps[1..]);
      UpPacketsCarry(peer, ps[0].next, ps[1..]);
    }
  }

  lemma {:induction false} PackedPayload(
    link: Link, s: Chain, units: seq<Bytes>, noise: (nat, nat) -> Byte, k: nat)
    requires link.Valid() && forall i :: 0 <= i < |units| ==> |units[i]| < 0x1_0000
    ensures Payload(PackUnits(link, s, units, noise, k)) == Join(units)
    decreases |units|
  {
    hide Pack, PadLen, Ready;
    if units != [] {
      var p := Pack(link, s, units[0], Nth(noise, k));
      PackedPayload(link, p.next, units[1..], noise, k + 1);
      assert PackUnits(link, s, units, noise, k)[1..] == PackUnits(link, p.next, units[1..], noise, k + 1);
    }
  }

  lemma {:induction false} UnitsAreSent(
    sv: Server, peer: Peer, chain: Chain, units: seq<Bytes>, noise: (nat, nat) -> Byte, k: nat)
    requires sv.Valid() && forall i :: 0 <= i < |units| ==> |units[i]| < FRAME_LIMIT
    ensures var ps := PackUnits(sv.LinkTo(peer), chain, units, noise, k);
            Sent(UpDecoder(sv), Talking(peer, chain), UpPackets(peer, ps))
    decreases |units|
  {
    hide Pack, PadLen, Ready, UpDecoder, Reads;
    if units != [] {
      var link := sv.LinkTo(peer);
      var p := Pack(link, chain, units[0], Nth(noise, k));
      UpPacketIsRead(sv, peer, chain, units[0], Nth(noise, k));
      UnitsAreSent(sv, peer, p.next, units[1..], noise, k + 1);
      var ps := PackUnits(link, chain, units, noise, k);
      assert ps[0] == p && ps[1..] == PackUnits(link, p.next, units[1..], noise, k + 1);
      var us := UpPackets(peer, ps);
      assert us[0] == UpPacket(peer, p) && us[1..] == UpPackets(peer, ps[1..]);
    }
  }

  /** A run of units reaches the server's receiver as a run of packets that carry them. */
  lemma {:induction false} UnitsArrive(
    sv: Server, peer: Peer, chain: Chain, units: seq<Bytes>, noise: (nat, nat) -> Byte)
    requires sv.Valid() && forall i :: 0 <= i < |units| ==> |units[i]| < FRAME_LIMIT
    ensures var ps := PackUnits(sv.LinkTo(peer), chain, units, noise, 0);
            var us := UpPackets(peer, ps);
            && Sent(UpDecoder(sv), Talking(peer, chain), us) && Payload(us) == Join(units)
            && Wire(us) == Wire(ps) && Final(Talking(peer, chain), us) == Talking(peer, Final(chain, ps))
  {
    hide PadLen, Ready;
    UnitsAreSent(sv, peer, chain, units, noise, 0);
    PackedPayload(sv.LinkTo(peer), chain, units, noise, 0);
    UpPacketsCarry(peer, chain, PackUnits(sv.LinkTo(peer), chain, units, noise, 0));
  }

  function WriteUnits(first: bool, w: Write): (us: seq<Bytes>)
    ensures Join(us) == w.data
    ensures !first || w.extra <= 31 ==> forall i :: 0 <= i < |us| ==> |us[i]| < FRAME_LIMIT
    ensures us != [] && (first ==> us[0] == w.data[..FirstCut(w.data, w.extra)])
    ensures forall i :: (if first then 1 else 0) <= i < |us| - 1 ==> |us[i]| == 2800
  {
    if first then
      var cut := FirstCut(w.data, w.extra);
      assert w.data[..cut] + w.data[cut..] == w.data;
      [w.data[..cut]] + Units(w.data[cut..], CLIENT_UNIT)
    else Units(w.data, CLIENT_UNIT)
  }

  /** The frames of writes after the handshake. */
  function LaterFrames(link: Link, s: Chain, ws: seq<Write>): seq<Packet<Chain>>
    requires link.Valid()
    decreases |ws|
  {
    if ws == [] then []
    else
      var ps := PackUnits(link, s, WriteUnits(false, ws[0]), ws[0].noise, 0);
      ps + LaterFrames(link, Final(s, ps), ws[1..])
  }

  /** The client's frames for a series of writes, behind the handshake. */
  function ClientFrames(c: Client, ws: seq<Write>): seq<Packet<Chain>>
    requires c.Valid() && ws != [] && ws[0].extra <= 31
  {
    var start := Chain(HelloSeed(c), 1, 0);
    var ps := PackUnits(LinkOf(c), start, WriteUnits(true, ws[0]), ws[0].noise, 0);
    ps + LaterFrames(LinkOf(c), Final(start, ps), ws[1..])
  }

  /** The client's chain after its first `n` frames. */
  function ClientChain(c: Client, ws: seq<Write>, n: nat): Chain
    requires c.Valid() && ws != [] && ws[0].extra <= 31 && n <= |ClientFrames(c, ws)|
  {
    Final(Chain(HelloSeed(c), 1, 0), ClientFrames(c, ws)[..n])
  }

  /** Everything the client sends for a series of writes. */
  function ClientPackets(c: Client, ws: seq<Write>): seq<Packet<ServerState>>
    requires c.Valid() && (ws != [] ==> ws[0].extra <= 31)
  {
    if ws == [] then [] else [HelloPacket(c)] + UpPackets(PeerOf(c), ClientFrames(c, ws))
  }

  function Text(ws: seq<Write>): Bytes {
    if ws == [] then [] else ws[0].data + Text(ws[1..])
  }

  lemma {:induction false} UpPacketsAppend(peer: Peer, a: seq<Packet<Chain>>, b: seq<Packet<Chain>>)
    ensures UpPackets(peer, a + b) == UpPackets(peer, a) + UpPackets(peer, b)
    decreases |a|
  {
    if a == [] {
      assert a + b == b;
    } else {
      assert (a + b)[1..] == a[1..] + b;
      UpPacketsAppend(peer, a[1..], b);
    }
  }

  lemma {:induction false} LaterFramesAreSent(sv: Server, peer: Peer, chain: Chain, ws: seq<Write>)
    requires sv.Valid()
    ensures var us := UpPackets(peer, LaterFrames(sv.LinkTo(peer), chain, ws));
            Sent(UpDecoder(sv), Talking(peer, chain), us) && Payload(us) == Text(ws)
    decreases |ws|
  {
    hide PadLen, Ready;
    if ws != [] {
      var link := sv.LinkTo(peer);
      var units := WriteUnits(false, ws[0]);
      var ps := PackUnits(link, chain, units, ws[0].noise, 0);
      var later := LaterFrames(link, Final(chain, ps), ws[1..]);
      UnitsArrive(sv, peer, chain, units, ws[0].noise);
      LaterFramesAreSent(sv, peer, Final(chain, ps), ws[1..]);
      UpPacketsAppend(peer, ps, later);
      SentAppends(UpDecoder(sv), Talking(peer, chain), UpPackets(peer, ps), UpPackets(peer, later));
      WireAppends(UpPackets(peer, ps), UpPackets(peer, later));
    }
  }

  lemma {:induction false} ClientPacketsAreSent(c: Client, sv: Server, ws: seq<Write>)
    requires Matched(c, sv) && (ws != [] ==> ws[0].extra <= 31)
    ensures var ps := ClientPackets(c, ws);
            Sent(UpDecoder(sv), Greeting, ps) && Payload(ps) == Text(ws)
  {
    hide PadLen, Ready;
    if ws != [] {
      var d, peer, start := UpDecoder(sv), PeerOf(c), Chain(HelloSeed(c), 1, 0);
      assert sv.LinkTo(peer) == LinkOf(c);
      var units := WriteUnits(true, ws[0]);
      var ps := PackUnits(LinkOf(c), start, units, ws[0].noise, 0);
      var later := LaterFrames(LinkOf(c), Final(start, ps), ws[1..]);
      HelloIsRead(c, sv);
      UnitsArrive(sv, peer, start, units, ws[0].noise);
      LaterFramesAreSent(sv, peer, Final(start, ps), ws[1..]);
      UpPacketsAppend(peer, ps, later);
      SentAppends(d, Talking(peer, start), UpPackets(peer, ps), UpPackets(peer, later));
      WireAppends(UpPackets(peer, ps), UpPackets(peer, later));
      var all := ClientPackets(c, ws);
      assert all[0] == HelloPacket(c) && all[1..] == UpPackets(peer, ps) + UpPackets(peer, later);
    }
  }

  /** From a fresh connection, for all writes, all random choices and all segmentations, the server
      outputs exactly what the client wrote and the two ends' chains agree; at most one empty frame of
      four bytes is still waiting. */
  lemma {:induction false} ClientToServer(c: Client, sv: Server, ws: seq<Write>, pieces: seq<Bytes>)
    requires Matched(c, sv) && (ws != [] ==> ws[0].extra <= 31)
    requires Join(pieces) == Wire(ClientPackets(c, ws))
    ensures Steady(UpDecoder(sv))
    ensures var r := Feed(UpDecoder(sv), Greeting, [], pieces);
            Settled(Greeting, ClientPackets(c, ws), r) && r.out == Text(ws)
  {
    hide PadLen, Ready;
    var d, ps := UpDecoder(sv), ClientPackets(c, ws);
    UpIsSteady(sv);
    ClientPacketsAreSent(c, sv, ws);
    Delivery(d, Greeting, ps, pieces);
  }

  lemma {:induction false} UpPacketsTake(peer: Peer, ps: seq<Packet<Chain>>, n: nat)
    requires n <= |ps|
    ensures UpPackets(peer, ps)[..n] == UpPackets(peer, ps[..n])
  {
    UpPacketsAppend(peer, ps[..n], ps[n..]);
    assert ps == ps[..n] + ps[n..];
  }

  /** The state that the first `k` packets leave is the sender's own chain behind them. */
  lemma {:induction false} BoundaryState(c: Client, ws: seq<Write>, k: nat)
    requires c.Valid() && (ws != [] ==> ws[0].extra <= 31) && k <= |ClientPackets(c, ws)|
    ensures Final(Greeting, ClientPackets(c, ws)[..k]) ==
            if k == 0 then Greeting else Talking(PeerOf(c), ClientChain(c, ws, k - 1))
  {
    hide ClientFrames, HelloSeed, UpPackets, PeerOf, HelloWire;
    if k > 0 {
      var frames, start := ClientFrames(c, ws), Chain(HelloSeed(c), 1, 0);
      var us := UpPackets(PeerOf(c), frames);
      UpPacketsTake(PeerOf(c), frames, k - 1);
      UpPacketsCarry(PeerOf(c), start, frames[..k - 1]);
      assert ([HelloPacket(c)] + us)[..k] == [HelloPacket(c)] + us[..k - 1];
    }
  }

  /** At every moment, whatever has arrived and in whatever pieces, the two ends agree: the server has read
      the handshake and a number of whole frames, and its chain hash, frame id and cipher offset are those
      the client had after just these frames. */
  lemma {:induction false} EndsAgree(c: Client, sv: Server, ws: seq<Write>, pieces: seq<Bytes>) returns (k: nat)
    requires Matched(c, sv) && (ws != [] ==> ws[0].extra <= 31)
    requires Join(pieces) <= Wire(ClientPackets(c, ws))
    ensures Steady(UpDecoder(sv))
    ensures var r := Feed(UpDecoder(sv), Greeting, [], pieces);
            && AtBoundary(Greeting, ClientPackets(c, ws), Join(pieces), r, k)
            && r.state == (if k == 0 then Greeting else Talking(PeerOf(c), ClientChain(c, ws, k - 1)))
  {
    hide UpDecoder, ClientPackets, ClientChain;
    UpIsSteady(sv);
    ClientPacketsAreSent(c, sv, ws);
    k := PartialDelivery(UpDecoder(sv), Greeting, ClientPackets(c, ws), pieces);
    BoundaryState(c, ws, k);
  }

  // ----- what is not accepted

  /** Exactly what the server makes of the first bytes of a connection: rejected as soon as the early test
      looks at a wrong seed tag, or with the 36th byte if the second tag is wrong or the client is not admitted;
      accepted with the keys that the handshake names; and otherwise undecided. */
  lemma {:induction false} HelloExactly(sv: Server, buf: Bytes)
    ensures var early := |buf| == 7 || |buf| == 8 || |buf| >= 12;
            var m := if |buf| < 12 then |buf| else 12;
            early && sv.suite.hmac(sv.recvIv + sv.key, buf[..4])[..m - 4] != buf[4..m] ==> HelloStep(sv, buf) == Bad(Decoy)
    ensures |buf| >= 36 && sv.suite.hmac(sv.recvIv + sv.key, buf[..4])[..8] == buf[4..12] ==>
              var seed := sv.suite.hmac(sv.recvIv + sv.key, buf[..4]);
              var uid := Le32(Xor32(U32le(buf[12..16]), U32le(seed[8..12])));
              var known := uid in sv.users;
              var userKey := if known then sv.users[uid] else if sv.users == map[] then sv.key else sv.recvIv;
              var head, mac := sv.suite.aesDecrypt(userKey, buf[16..32]), sv.suite.hmac(userKey, buf[12..32]);
              HelloStep(sv, buf) ==
              if mac[..4] == buf[32..36] && sv.admit(if known then uid else [], head)
              then Frame([], Talking(Peer(userKey, seed, mac, U16le(head[12..14])), Chain(seed, 1, 0)), 36, true)
              else Bad(Decoy)
    ensures |buf| < 36 ==> HelloStep(sv, buf).More? || HelloStep(sv, buf) == Bad(Decoy)
    ensures |buf| < 7 || 9 <= |buf| <= 11 ==> HelloStep(sv, buf).More?
    ensures |buf| < 36 && (|buf| >= 12 ==> sv.suite.hmac(sv.recvIv + sv.key, buf[..4])[..8] == buf[4..12]) &&
            (7 <= |buf| <= 8 ==> sv.suite.hmac(sv.recvIv + sv.key, buf[..4])[..|buf| - 4] == buf[4..]) ==>
              HelloStep(sv, buf).More?
  {
    hide U32le, Le32, Xor32, U16le;
    if |buf| >= 36 {
      var hello := buf[..36];
      assert hello[..4] == buf[..4] && hello[12..16] == buf[12..16] && hello[16..32] == buf[16..32];
      assert hello[12..32] == buf[12..32] && hello[32..36] == buf[32..36];
    } else if 7 <= |buf| <= 8 {
      assert buf[4..|buf|] == buf[4..];
    }
  }

  /** A faulty frame puts nothing out: the call answers with the decoy if it is the first, and raises an
      exception otherwise. */
  lemma {:induction false} FaultyFrameBreaks(sv: Server, peer: Peer, chain: Chain, buf: Bytes)
    requires sv.Valid() && Faulty(sv.LinkTo(peer), chain, buf)
    ensures Steady(UpDecoder(sv))
    ensures Drain(UpDecoder(sv), Talking(peer, chain), buf) == Broken(if chain.id == 1 then Decoy else Raise)
  {
    hide Open, Faulty;
    UpIsSteady(sv);
    RefusedExactly(sv.LinkTo(peer), chain, buf);
    assert UpDecoder(sv)(Talking(peer, chain), buf) == UpStep(sv, Talking(peer, chain), buf);
  }

  /** If somebody puts a faulty frame behind any number of the client's frames, the server fails, however the
      stream is cut. */
  lemma {:induction false} TamperingIsNoticed(c: Client, sv: Server, ws: seq<Write>, k: nat, bad: Bytes, pieces: seq<Bytes>)
    requires Matched(c, sv) && ws != [] && ws[0].extra <= 31 && 0 < k <= |ClientPackets(c, ws)|
    requires Faulty(LinkOf(c), ClientChain(c, ws, k - 1), bad)
    requires Join(pieces) == Wire(ClientPackets(c, ws)[..k]) + bad
    ensures Steady(UpDecoder(sv)) && Feed(UpDecoder(sv), Greeting, [], pieces).Broken?
  {
    MatchedLinks(c, sv);
    hide UpDecoder, ClientPackets, ClientChain, Faulty, Matched, Sent, Final, Wire, Payload, Feed, Drain, PeerOf, LinkOf;
    var d, ps, chain := UpDecoder(sv), ClientPackets(c, ws), ClientChain(c, ws, k - 1);
    UpIsSteady(sv);
    ClientPacketsAreSent(c, sv, ws);
    SentTakes(d, Greeting, ps, k);
    BoundaryState(c, ws, k);
    FaultyFrameBreaks(sv, PeerOf(c), chain, bad);
    FaultyIsSome(LinkOf(c), chain, bad);
    FeedBreaks(d, Greeting, ps[..k], bad, pieces);
  }

  lemma {:induction false} MatchedLinks(c: Client, sv: Server)
    requires Matched(c, sv)
    ensures c.Valid() && sv.Valid() && LinkOf(c).Valid() && sv.LinkTo(PeerOf(c)) == LinkOf(c)
  {
  }

  lemma {:induction false} FaultyIsSome(link: Link, s: Chain, buf: Bytes)
    requires link.Valid() && Faulty(link, s, buf)
    ensures buf != []
  {
  }
}
