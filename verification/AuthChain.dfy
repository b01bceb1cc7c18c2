/**
  The auth_chain protocol object: its fields change call by call and loop by loop, and every method
  is tied to the packets and decoders of ChainSession.
*/
module AuthChain {
  import opened Binary
  import opened Streaming
  import opened ChainPadding
  import opened ChainFrames
  import opened ChainSession
  import opened ChainDown

  /** The user named in the client's configuration, if any. */
  datatype Account = Anonymous | Named(uid: Bytes, userKey: Bytes)

  class AuthChain {
    const suite: Suite
    const key: Bytes
    const iv: Bytes
    const account: Account
    const users: map<Bytes, Bytes>
    const admit: (Bytes, Bytes16) -> bool
    const padding: Padding
    const randomClient: XorShift128Plus
    const randomServer: XorShift128Plus

    var recvIv: Bytes
    var recvBuf: Bytes
    var unitLen: int
    var rawTrans: bool
    var hasSentHeader: bool
    var hasRecvHeader: bool
    var packId: Word32
    var recvId: Word32
    var userKey: Bytes
    var seed: Bytes16
    var encOff: nat
    var decOff: nat
    var lastClientHash: Bytes16
    var lastServerHash: Bytes16
    var clientOverHead: Word16
    var tcpMss: Word16
    ghost var helloHash: Bytes16

    constructor (suite: Suite, kind: Kind, overhead: Word16, key: Bytes, iv: Bytes, recvIv: Bytes,
                 account: Account, users: map<Bytes, Bytes>, admit: (Bytes, Bytes16) -> bool, tcpMss: Word16)
      ensures Valid() && fresh(randomClient) && fresh(randomServer) && fresh(padding)
      ensures this.suite == suite && this.key == key && this.iv == iv && this.recvIv == recvIv
      ensures this.account == account && this.users == users && this.admit == admit
      ensures padding.kind == kind && padding.overhead == overhead && padding.Lists() == InitTables(kind, key)
      ensures recvBuf == [] && !rawTrans && !hasSentHeader && !hasRecvHeader
      ensures packId == 1 && recvId == 1 && encOff == 0 && decOff == 0
      ensures unitLen == CLIENT_UNIT && this.tcpMss == tcpMss && clientOverHead == 4
    {
      hide Ready, InitTables;
      var zero: Bytes16 := [0, 0, 0, 0, 0, 0, 0, 0, 0, 0, 0, 0, 0, 0, 0, 0];
      this.suite, this.key, this.iv, this.recvIv := suite, key, iv, recvIv;
      this.account, this.users, this.admit, this.tcpMss := account, users, admit, tcpMss;
      padding := new Padding(kind, overhead, key);
      randomClient := new XorShift128Plus();
      randomServer := new XorShift128Plus();
      recvBuf, unitLen, rawTrans := [], CLIENT_UNIT, false;
      hasSentHeader, hasRecvHeader := false, false;
      packId, recvId, encOff, decOff := 1, 1, 0, 0;
      userKey, seed, lastClientHash, lastServerHash := [], zero, zero, zero;
      clientOverHead, helloHash := 4, zero;
    }

    ghost predicate Valid()
      reads this, padding
    {
      randomClient != randomServer && Ready(padding.kind, padding.Lists())
    }

    function LinkNow(): Link
      reads this, padding
    {
      Link(suite, padding.kind, padding.Lists(), padding.overhead, userKey, seed)
    }

    function ServerNow(): Server
      reads this, padding
    {
      Server(suite, padding.kind, padding.Lists(), padding.overhead, key, recvIv, users, admit)
    }

    /** The client's position as a sender, and the server's as a receiver, of the upward stream. */
    function UpSent(): Chain
      reads this
    {
      Chain(lastClientHash, packId, encOff)
    }

    ghost function UpReceived(): ServerState
      reads this
    {
      if hasRecvHeader
      then Talking(Peer(userKey, seed, helloHash, clientOverHead), Chain(lastClientHash, recvId, decOff))
      else Greeting
    }

    /** The server's position as a sender, and the client's as a receiver, of the downward stream. */
    function DownSent(): Chain
      reads this
    {
      Chain(lastServerHash, packId, encOff)
    }

    function DownReceived(): DownState
      reads this
    {
      DownState(Chain(lastServerHash, recvId, decOff), tcpMss)
    }

    // ----- sending

    method RndData(text: Bytes, hash: Bytes16, random: XorShift128Plus, noise: nat -> Byte) returns (data: Bytes)
      requires Valid() && |text| < 0x1_0000
      modifies random
      ensures data == Padded(LinkNow(), hash, text, noise)
    {
      hide RndDataLen, RndStartPos;
      ghost var g := random.State();
      var randLen := padding.DrawLength(|text|, hash, random);
      DrawIgnoresHistory(padding.kind, padding.Lists(), padding.overhead, |text|, hash, g);
      var rndDataBuf := Take(noise, randLen);
      if |text| == 0 {
        data := rndDataBuf;
      } else if randLen > 0 {
        var startPos := Padding.DrawStart(randLen, random);
        data := rndDataBuf[..startPos] + text + rndDataBuf[startPos..];
      } else {
        data := text;
      }
    }

    method PackClientData(buf: Bytes, noise: nat -> Byte) returns (data: Bytes)
      requires Valid() && |buf| < 0x1_0000
      modifies `lastClientHash, `packId, `encOff, randomClient
      ensures var p := Pack(LinkNow(), old(UpSent()), buf, noise);
              data == p.wire && UpSent() == p.next
    {
      hide Ready, PadLen, PadStart, Padded;
      var text := StreamXor(LinkNow().Keystream(), encOff, buf);
      encOff := encOff + |buf|;
      data := RndData(text, lastClientHash, randomClient, noise);
      var length := Xor16(|text|, U16le(lastClientHash[14..]));
      data := Le16(length) + data;
      lastClientHash := suite.hmac(userKey + Le32(packId), data);
      data := data + lastClientHash[..2];
      packId := NextId(packId);
    }

    method PackServerData(buf: Bytes, noise: nat -> Byte) returns (data: Bytes)
      requires Valid() && |buf| < 0x1_0000
      modifies `lastServerHash, `packId, `encOff, randomServer
      ensures var p := Pack(LinkNow(), old(DownSent()), buf, noise);
              data == p.wire && DownSent() == p.next
    {
      hide Ready, PadLen, PadStart, Padded;
      var text := StreamXor(LinkNow().Keystream(), encOff, buf);
      encOff := encOff + |buf|;
      data := RndData(text, lastServerHash, randomServer, noise);
      var length := Xor16(|text|, U16le(lastServerHash[14..]));
      data := Le16(length) + data;
      lastServerHash := suite.hmac(userKey + Le32(packId), data);
      data := data + lastServerHash[..2];
      packId := NextId(packId);
    }

    /** The client as it introduces itself with these random and clock-dependent values. */
    function ClientNow(randomUid: Bytes, checkHead: Bytes, authData: Bytes): Client
      requires padding.overhead < 0x1_0000
      reads this, padding
    {
      var uid := if account.Named? then account.uid else randomUid;
      var ukey := if account.Named? then account.userKey else key;
      Client(suite, padding.kind, padding.Lists(), padding.overhead, key, iv, ukey, uid, checkHead, authData)
    }

    method PackAuthData(randomUid: Bytes, checkHead: Bytes, authData: Bytes, buf: Bytes, noise: nat -> Byte)
      returns (data: Bytes)
      requires Valid() && padding.overhead < 0x1_0000 && |buf| < 0x1_0000
      requires ClientNow(randomUid, checkHead, authData).Valid()
      modifies `userKey, `seed, `lastClientHash, `lastServerHash, `packId, `encOff, `decOff, randomClient
      ensures var c := ClientNow(randomUid, checkHead, authData);
              var p := Pack(LinkOf(c), Chain(HelloSeed(c), old(packId), 0), buf, noise);
              && data == HelloWire(c) + p.wire && UpSent() == p.next
              && LinkNow() == LinkOf(c) && lastServerHash == HelloHash(c) && decOff == 0
    {
      hide Ready, PadLen, Pack, U32le, Le32, Xor32, Le16;
      var head := authData + (Le16(padding.overhead) + Le16(0));
      var hash := suite.hmac(iv + key, checkHead);
      var uid := if account.Named? then account.uid else randomUid;
      userKey := if account.Named? then account.userKey else key;
      var masked := Le32(Xor32(U32le(uid), U32le(hash[8..12])));
      var body := masked + suite.aesEncrypt(userKey, head);
      lastClientHash := hash;
      lastServerHash := suite.hmac(userKey, body);
      seed, encOff, decOff := hash, 0, 0;
      var hello := checkHead + hash[..8] + body + lastServerHash[..4];
      ghost var c := ClientNow(randomUid, checkHead, authData);
      assert hello == HelloWire(c) && LinkNow() == LinkOf(c);
      var frame := PackClientData(buf, noise);
      data := hello + frame;
    }

    /** Send `buf` in units; `k` numbers the frames of the write already sent. */
    method SendUnits(buf: Bytes, noise: (nat, nat) -> Byte, k: nat) returns (ret: Bytes)
      requires Valid() && unitLen == CLIENT_UNIT
      modifies `lastClientHash, `packId, `encOff, randomClient
      ensures var ps := PackUnits(LinkNow(), old(UpSent()), Units(buf, CLIENT_UNIT), noise, k);
              ret == Wire(ps) && UpSent() == Final(old(UpSent()), ps)
    {
      hide Ready, PadLen, Pack, PackUnits, Units, Wire, Final, Nth;
      ret := [];
      var left, i := buf, k;
      ghost var link, s0 := LinkNow(), UpSent();
      ghost var all := PackUnits(link, s0, Units(buf, CLIENT_UNIT), noise, k);
      while |left| > unitLen
        invariant Valid() && LinkNow() == link
        invariant var ps := PackUnits(link, UpSent(), Units(left, CLIENT_UNIT), noise, i);
                  Wire(all) == ret + Wire(ps) && Final(s0, all) == Final(UpSent(), ps)
      {
        PackUnit(link, UpSent(), left, CLIENT_UNIT, noise, i);
        var frame := PackClientData(left[..unitLen], Nth(noise, i));
        ret := ret + frame;
        left := left[unitLen..];
        i := i + 1;
      }
      PackUnit(link, UpSent(), left, CLIENT_UNIT, noise, i);
      var frame := PackClientData(left, Nth(noise, i));
      ret := ret + frame;
    }

    method ClientPreEncrypt(w: Write, randomUid: Bytes, checkHead: Bytes, authData: Bytes) returns (ret: Bytes)
      requires Valid() && padding.overhead < 0x1_0000 && w.extra <= 31 && unitLen == CLIENT_UNIT
      requires ClientNow(randomUid, checkHead, authData).Valid()
      modifies `hasSentHeader, `userKey, `seed, `lastClientHash, `lastServerHash, `packId, `encOff, `decOff, randomClient
      ensures hasSentHeader
      ensures old(hasSentHeader) ==>
                var ps := PackUnits(LinkNow(), old(UpSent()), WriteUnits(false, w), w.noise, 0);
                && ret == Wire(ps) && UpSent() == Final(old(UpSent()), ps) && LinkNow() == old(LinkNow())
                && lastServerHash == old(lastServerHash) && decOff == old(decOff)
      ensures !old(hasSentHeader) ==>
                var c := ClientNow(randomUid, checkHead, authData);
                var s := Chain(HelloSeed(c), old(packId), 0);
                var ps := PackUnits(LinkOf(c), s, WriteUnits(true, w), w.noise, 0);
                && ret == HelloWire(c) + Wire(ps) && UpSent() == Final(s, ps)
                && LinkNow() == LinkOf(c) && lastServerHash == HelloHash(c) && decOff == 0
    {
      hide Ready, PadLen, Pack, PackUnits;
      if hasSentHeader {
        ret := SendUnits(w.data, w.noise, 0);
      } else {
        ret := SendFirst(w, randomUid, checkHead, authData);
      }
    }

    /** The first write: the handshake, a short frame, and the rest in units. */
    method SendFirst(w: Write, randomUid: Bytes, checkHead: Bytes, authData: Bytes) returns (ret: Bytes)
      requires Valid() && padding.overhead < 0x1_0000 && w.extra <= 31 && unitLen == CLIENT_UNIT
      requires ClientNow(randomUid, checkHead, authData).Valid()
      modifies `hasSentHeader, `userKey, `seed, `lastClientHash, `lastServerHash, `packId, `encOff, `decOff, randomClient
      ensures var c := ClientNow(randomUid, checkHead, authData);
              var s := Chain(HelloSeed(c), old(packId), 0);
              var ps := PackUnits(LinkOf(c), s, WriteUnits(true, w), w.noise, 0);
              && ret == HelloWire(c) + Wire(ps) && UpSent() == Final(s, ps) && hasSentHeader
              && LinkNow() == LinkOf(c) && lastServerHash == HelloHash(c) && decOff == 0
    {
      hide Ready, PadLen, Pack, PackUnits, HelloWire, HelloHash, HelloSeed, Units, Wire, Final, Nth, FirstCut;
      ghost var c := ClientNow(randomUid, checkHead, authData);
      ghost var s := Chain(HelloSeed(c), packId, 0);
      ghost var units := WriteUnits(true, w);
      PackUnitsStep(LinkOf(c), s, units, w.noise, 0);
      var cut := FirstCut(w.data, w.extra);
      assert units[0] == w.data[..cut] && units[1..] == Units(w.data[cut..], CLIENT_UNIT);
      var head := PackAuthData(randomUid, checkHead, authData, w.data[..cut], Nth(w.noise, 0));
      hasSentHeader := true;
      var tail := SendUnits(w.data[cut..], w.noise, 1);
      ret := head + tail;
    }

    /** The announced segment size. */
    function AnnouncedMss(): Word16
      reads this
    {
      if tcpMss < 1500 then tcpMss else 1500
    }

    method ServerPreEncrypt(w: Write) returns (ret: Bytes)
      requires Valid()
      requires !rawTrans ==>
                 if packId == 1 then AnnouncedMss() - clientOverHead >= 1 else 1 <= unitLen < 0x1_0000
      modifies `tcpMss, `unitLen, `lastServerHash, `packId, `encOff, randomServer
      ensures old(rawTrans) ==> ret == w.data && DownSent() == old(DownSent())
      ensures !old(rawTrans) ==>
                && unitLen >= 1
                && (old(packId) == 1 ==>
                      tcpMss == old(AnnouncedMss()) && unitLen == tcpMss - clientOverHead < FRAME_LIMIT)
                && (old(packId) != 1 ==> tcpMss == old(tcpMss) && unitLen == old(unitLen))
                && var ps := PackUnits(LinkNow(), old(DownSent()),
                                       DownUnits(old(packId) == 1, tcpMss, unitLen, w.data), w.noise, 0);
                ret == Wire(ps) && DownSent() == Final(old(DownSent()), ps)
    {
      hide Ready, PadLen, Pack, PackUnits;
      if rawTrans {
        return w.data;
      }
      var buf := w.data;
      if packId == 1 {
        tcpMss := AnnouncedMss();
        buf := Le16(tcpMss) + buf;
        unitLen := tcpMss - clientOverHead;
      }
      ret := SendServerUnits(buf, w.noise);
    }

    method SendServerUnits(buf: Bytes, noise: (nat, nat) -> Byte) returns (ret: Bytes)
      requires Valid() && 0 < unitLen < 0x1_0000
      modifies `lastServerHash, `packId, `encOff, randomServer
      ensures var ps := PackUnits(LinkNow(), old(DownSent()), Units(buf, unitLen), noise, 0);
              ret == Wire(ps) && DownSent() == Final(old(DownSent()), ps)
    {
      hide Ready, PadLen, Pack, PackUnits, Units, Wire, Final, Nth;
      ret := [];
      var left, i := buf, 0;
      ghost var link, s0 := LinkNow(), DownSent();
      ghost var all := PackUnits(link, s0, Units(buf, unitLen), noise, 0);
      while |left| > unitLen
        invariant Valid() && LinkNow() == link
        invariant var ps := PackUnits(link, DownSent(), Units(left, unitLen), noise, i);
                  Wire(all) == ret + Wire(ps) && Final(s0, all) == Final(DownSent(), ps)
      {
        PackUnit(link, DownSent(), left, unitLen, noise, i);
        var frame := PackServerData(left[..unitLen], Nth(noise, i));
        ret := ret + frame;
        left := left[unitLen..];
        i := i + 1;
      }
      PackUnit(link, DownSent(), left, unitLen, noise, i);
      var frame := PackServerData(left, Nth(noise, i));
      ret := ret + frame;
    }

    // ----- receiving

    /** Look at the front of the buffer, recomputing the padding from `hash` each time. */
    method OpenNext(hash: Bytes16, random: XorShift128Plus) returns (o: Opening)
      requires Valid()
      modifies random
      ensures o == Open(LinkNow(), Chain(hash, recvId, decOff), recvBuf)
    {
      hide RndDataLen, RndStartPos, Ready, U16le, Xor16, Le32, StreamXor, NextId;
      if |recvBuf| <= 4 {
        return Wait;
      }
      var dataLen := Xor16(U16le(recvBuf[..2]), U16le(hash[14..16]));
      ghost var g := random.State();
      var randLen := padding.DrawLength(dataLen, hash, random);
      DrawIgnoresHistory(padding.kind, padding.Lists(), padding.overhead, dataLen, hash, g);
      var length := dataLen + randLen;
      if length >= FRAME_LIMIT {
        return Refused;
      }
      if length + 4 > |recvBuf| {
        return Wait;
      }
      o := OpenBody(hash, random, dataLen, randLen);
    }

    /** Check and decrypt the complete frame at the front; the padding has just been drawn. */
    method OpenBody(hash: Bytes16, random: XorShift128Plus, dataLen: Word16, randLen: nat) returns (o: Opening)
      requires Valid() && dataLen + randLen + 4 <= |recvBuf| && randLen == LinkNow().Pad(dataLen, hash)
      requires randLen > 0 ==> RndStartPos(randLen, random.State()) == LinkNow().Start(dataLen, hash)
      modifies random
      ensures o == OpenWhole(LinkNow(), Chain(hash, recvId, decOff), recvBuf[..dataLen + randLen + 4], dataLen)
    {
      hide RndDataLen, RndStartPos, Ready, U16le, Xor16, Le32, StreamXor, NextId, Link.Pad, Link.Start;
      var length := dataLen + randLen;
      ghost var frame := recvBuf[..length + 4];
      assert frame[..length + 2] == recvBuf[..length + 2];
      assert frame[length + 2..] == recvBuf[length + 2..length + 4];
      var mac := suite.hmac(userKey + Le32(recvId), recvBuf[..length + 2]);
      if mac[..2] != recvBuf[length + 2..length + 4] {
        return Refused;
      }
      var pos := 2;
      if dataLen > 0 && randLen > 0 {
        var start := Padding.DrawStart(randLen, random);
        pos := 2 + start;
      }
      assert frame[pos..pos + dataLen] == recvBuf[pos..pos + dataLen];
      o := Opened(StreamXor(LinkNow().Keystream(), decOff, recvBuf[pos..pos + dataLen]),
                  Chain(mac, NextId(recvId), decOff + dataLen), length + 4);
    }

    /** Judge the first bytes of a connection. */
    method CheckHello(buf: Bytes) returns (step: Step<ServerState>)
      ensures step == HelloStep(ServerNow(), buf)
    {
      hide HelloAccepted, HelloPeer;
      if |buf| >= 12 || |buf| == 7 || |buf| == 8 {
        var recvLen := if |buf| < 12 then |buf| else 12;
        var mac := suite.hmac(recvIv + key, buf[..4]);
        if mac[..recvLen - 4] != buf[4..recvLen] {
          return Bad(Decoy);
        }
      }
      if |buf| < HELLO_LEN {
        return More;
      }
      var accepted, peer := ReadHello(buf);
      if !accepted {
        return Bad(Decoy);
      }
      step := Frame([], Talking(peer, Chain(peer.seed, 1, 0)), HELLO_LEN, true);
    }

    /** Take over what an accepted handshake says. */
    method Adopt(peer: Peer)
      modifies `userKey, `seed, `helloHash, `clientOverHead, `lastClientHash, `lastServerHash, `decOff, `encOff,
               `recvBuf, `hasRecvHeader
      requires |recvBuf| >= HELLO_LEN
      ensures userKey == peer.userKey && seed == peer.seed && helloHash == peer.downHash
      ensures clientOverHead == peer.overhead && lastClientHash == peer.seed && lastServerHash == peer.downHash
      ensures decOff == 0 && encOff == 0 && hasRecvHeader && recvBuf == old(recvBuf)[HELLO_LEN..]
    {
      userKey, seed, lastClientHash := peer.userKey, peer.seed, peer.seed;
      lastServerHash, helloHash, clientOverHead := peer.downHash, peer.downHash, peer.overhead;
      encOff, decOff, hasRecvHeader := 0, 0, true;
      recvBuf := recvBuf[HELLO_LEN..];
    }

    /** Read and verify a complete handshake. */
    method ReadHello(buf: Bytes) returns (accepted: bool, peer: Peer)
      requires |buf| >= HELLO_LEN
      ensures accepted == HelloAccepted(ServerNow(), buf[..HELLO_LEN])
      ensures peer == HelloPeer(ServerNow(), buf[..HELLO_LEN])
    {
      hide U32le, Le32, Xor32, U16le, HelloPeer, HelloUid, HelloAccepted;
      HelloReading(ServerNow(), buf);
      var hash := suite.hmac(recvIv + key, buf[..4]);
      var uid := Le32(Xor32(U32le(buf[12..16]), U32le(hash[8..12])));
      var ukey := if uid in users then users[uid] else if users == map[] then key else recvIv;
      var mac := suite.hmac(ukey, buf[12..32]);
      var head := suite.aesDecrypt(ukey, buf[16..32]);
      accepted := mac[..4] == buf[32..36] && admit(if uid in users then uid else [], head);
      peer := Peer(ukey, hash, mac, U16le(head[12..14]));
    }

    /** The state of a server that a decoding result prescribes. */
    ghost predicate ServerAt(r: Result<ServerState>)
      reads this
    {
      match r
      case Done(_, state, rest, _) => !rawTrans && UpReceived() == state && recvBuf == rest
      case Broken(_) => rawTrans
    }

    method ServerPostDecrypt(buf: Bytes) returns (r: Reply)
      requires Valid() && (!hasRecvHeader ==> recvId == 1)
      modifies `rawTrans, `userKey, `seed, `helloHash, `clientOverHead, `lastClientHash, `lastServerHash, `decOff,
               `encOff, `recvBuf, `recvId, `hasRecvHeader, randomClient
      ensures old(rawTrans) ==> r == Reply(buf, false) && rawTrans && recvBuf == old(recvBuf)
      ensures Steady(UpDecoder(ServerNow()))
      ensures !old(rawTrans) ==>
                var result := Drain(UpDecoder(ServerNow()), old(UpReceived()), old(recvBuf) + buf);
                r == ReplyOf(result) && ServerAt(result)
      ensures Valid() && (!rawTrans && !hasRecvHeader ==> recvId == 1)
      ensures old(hasRecvHeader) ==>
                lastServerHash == old(lastServerHash) && encOff == old(encOff) && helloHash == old(helloHash) && hasRecvHeader
      ensures !old(hasRecvHeader) && hasRecvHeader ==> lastServerHash == helloHash && encOff == 0
    {
      hide UpStep, Open, Ready, HelloStep, Steady;
      UpIsSteady(ServerNow());
      if rawTrans {
        return Reply(buf, false);
      }
      recvBuf := recvBuf + buf;
      ghost var d, s0, b0 := UpDecoder(ServerNow()), UpReceived(), recvBuf;
      if hasRecvHeader {
        AfterNothing(Drain(d, s0, b0));
        r := ReceiveFrames([], false, s0, b0);
      } else {
        var step := CheckHello(recvBuf);
        UpStepGreeting(ServerNow(), b0);
        match step {
          case More =>
            return Reply([], false);
          case Bad(fault) =>
            rawTrans := true;
            return Reply(DecoyReply(), false);
          case Frame(_, next, _, _) =>
            Adopt(next.peer);
            r := ReceiveFrames([], true, s0, b0);
        }
      }
    }

    /** Give up on a faulty frame, with the decoy if it is the first. */
    method Refuse() returns (r: Reply)
      modifies `rawTrans, `recvBuf
      ensures rawTrans && r == if recvId == 1 then Reply(DecoyReply(), false) else Raised
    {
      rawTrans := true;
      recvBuf := [];
      r := if recvId == 1 then Reply(DecoyReply(), false) else Raised;
    }

    /** Move past one opened frame. */
    method TakeUp(next: Chain, used: nat)
      requires used <= |recvBuf| && hasRecvHeader
      modifies `recvId, `decOff, `lastClientHash, `recvBuf
      ensures UpReceived() == Talking(old(UpReceived()).peer, next) && recvBuf == old(recvBuf)[used..]
    {
      recvId := next.id;
      decOff := next.off;
      lastClientHash := next.hash;
      recvBuf := recvBuf[used..];
    }

    /** The frame loop; `s0` and `b0` are where the call started, `out` and `echo` what it did so far. */
    method ReceiveFrames(out: Bytes, echo: bool, ghost s0: ServerState, ghost b0: Bytes) returns (r: Reply)
      requires Valid() && hasRecvHeader && !rawTrans && Steady(UpDecoder(ServerNow()))
      requires var d := UpDecoder(ServerNow());
               Drain(d, s0, b0) == After(out, echo, Drain(d, UpReceived(), recvBuf))
      modifies `rawTrans, `lastClientHash, `decOff, `recvBuf, `recvId, randomClient
      ensures var result := Drain(UpDecoder(ServerNow()), s0, b0); r == ReplyOf(result) && ServerAt(result)
    {
      hide UpStep, UpDecoder, Open, Ready, Steady, Drain, Link.Keystream, After;
      var outBuf, sendback := out, echo;
      ghost var sv, d, peer := ServerNow(), UpDecoder(ServerNow()), UpReceived().peer;
      ghost var all := Drain(d, s0, b0);
      while |recvBuf| > 4
        invariant Valid() && hasRecvHeader && !rawTrans && ServerNow() == sv && UpReceived().peer == peer
        invariant all == After(outBuf, sendback, Drain(d, UpReceived(), recvBuf))
        decreases |recvBuf|
      {
        UpCallStep(sv, peer, UpReceived().chain, outBuf, sendback, recvBuf);
        var o := OpenNext(lastClientHash, randomClient);
        match o {
          case Wait =>
            return Reply(outBuf, sendback);
          case Refused =>
            r := Refuse();
            return;
          case Opened(data, next, used) =>
            TakeUp(next, used);
            outBuf := outBuf + data;
            if data == [] {
              sendback := true;
            }
        }
      }
      UpCallStep(sv, peer, UpReceived().chain, outBuf, sendback, recvBuf);
      ShortWaits(LinkNow(), UpReceived().chain, recvBuf);
      r := Reply(outBuf, sendback);
    }

    /** Move past one opened frame; fails if the segment size is cut short. */
    method TakeDown(out: Bytes, data: Bytes, next: Chain, used: nat) returns (taken: bool, outBuf: Bytes)
      requires used <= |recvBuf|
      modifies `lastServerHash, `decOff, `tcpMss, `recvId, `recvBuf
      ensures taken == (old(recvId) != 1 || |out + data| >= 2)
      ensures taken ==>
                && recvBuf == old(recvBuf)[used..]
                && (old(recvId) != 1 ==> outBuf == out + data && DownReceived() == DownState(next, old(tcpMss)))
                && (old(recvId) == 1 ==>
                      outBuf == (out + data)[2..] && DownReceived() == DownState(next, U16le((out + data)[..2])))
    {
      hide U16le;
      outBuf := out + data;
      lastServerHash := next.hash;
      decOff := next.off;
      if recvId == 1 {
        if |outBuf| < 2 {
          return false, outBuf;
        }
        tcpMss := U16le(outBuf[..2]);
        outBuf := outBuf[2..];
      }
      recvId := next.id;
      recvBuf := recvBuf[used..];
      taken := true;
    }

    /** The client's frame loop. */
    method ClientPostDecrypt(buf: Bytes) returns (r: Reply)
      requires Valid()
      modifies `rawTrans, `lastServerHash, `decOff, `recvBuf, `recvId, `tcpMss, randomServer
      ensures old(rawTrans) ==> r == Reply(buf, false) && rawTrans && DownReceived() == old(DownReceived())
      ensures !old(rawTrans) ==>
                var result := DownCall(LinkNow(), old(DownReceived()), [], old(recvBuf) + buf);
                && r == ReplyOf(result)
                && (result.Done? ==> !rawTrans && DownReceived() == result.state && recvBuf == result.rest)
    {
      hide DownCall, Open, Ready, Link.Keystream;
      if rawTrans {
        return Reply(buf, false);
      }
      recvBuf := recvBuf + buf;
      var outBuf := [];
      ghost var link := LinkNow();
      ghost var all := DownCall(link, DownReceived(), [], recvBuf);
      while |recvBuf| > 4
        invariant Valid() && !rawTrans && LinkNow() == link
        invariant all == DownCall(link, DownReceived(), outBuf, recvBuf)
        decreases |recvBuf|
      {
        DownCallStep(link, DownReceived(), outBuf, recvBuf);
        var o := OpenNext(lastServerHash, randomServer);
        match o {
          case Wait =>
            return Reply(outBuf, false);
          case Refused =>
            rawTrans := true;
            recvBuf := [];
            return Raised;
          case Opened(data, next, used) =>
            var taken;
            taken, outBuf := TakeDown(outBuf, data, next, used);
            if !taken {
              return Raised;
            }
        }
      }
      DownCallStep(link, DownReceived(), outBuf, recvBuf);
      ShortWaits(link, DownReceived().chain, recvBuf);
      r := Reply(outBuf, false);
    }
  }

  /** One turn of a sending loop. */
  lemma {:induction false} PackUnit(
    link: Link, s: Chain, left: Bytes, unit: nat, noise: (nat, nat) -> Byte, k: nat)
    requires link.Valid() && 0 < unit < 0x1_0000
    ensures var ps := PackUnits(link, s, Units(left, unit), noise, k);
            if |left| > unit then
              var p := Pack(link, s, left[..unit], Nth(noise, k));
              var rest := PackUnits(link, p.next, Units(left[unit..], unit), noise, k + 1);
              Wire(ps) == p.wire + Wire(rest) && Final(s, ps) == Final(p.next, rest)
            else
              var p := Pack(link, s, left, Nth(noise, k));
              Wire(ps) == p.wire && Final(s, ps) == p.next
  {
    hide Ready, PadLen, Pack, Nth;
    PackUnitsStep(link, s, Units(left, unit), noise, k);
    assert |left| > unit ==> Units(left, unit)[1..] == Units(left[unit..], unit);
  }

  /** A handshake read from the front of a longer buffer. */
  lemma {:induction false} HelloReading(sv: Server, buf: Bytes)
    requires |buf| >= HELLO_LEN
    ensures var hello := buf[..HELLO_LEN];
            var seed := sv.suite.hmac(sv.recvIv + sv.key, buf[..4]);
            var uid := Le32(Xor32(U32le(buf[12..16]), U32le(seed[8..12])));
            var userKey := sv.UserKey(uid);
            var head := sv.suite.aesDecrypt(userKey, buf[16..32]);
            var mac := sv.suite.hmac(userKey, buf[12..32]);
            && HelloPeer(sv, hello) == Peer(userKey, seed, mac, U16le(head[12..14]))
            && (HelloAccepted(sv, hello) <==>
                mac[..4] == buf[32..36] && sv.admit(if uid in sv.users then uid else [], head))
  {
    hide U32le, Le32, Xor32, U16le;
    var hello := buf[..HELLO_LEN];
    assert hello[..4] == buf[..4] && hello[12..16] == buf[12..16] && hello[16..32] == buf[16..32];
    assert hello[12..32] == buf[12..32] && hello[32..36] == buf[32..36];
  }

  lemma {:induction false} UpStepGreeting(sv: Server, buf: Bytes)
    requires sv.Valid() && Steady(UpDecoder(sv))
    ensures var step := HelloStep(sv, buf);
            && (step.Bad? ==> step.fault == Decoy)
            && (step.Frame? ==>
                  && step.out == [] && step.echo && step.used == HELLO_LEN <= |buf|
                  && step.next.Talking? && step.next.chain == Chain(step.next.peer.seed, 1, 0))
            && Drain(UpDecoder(sv), Greeting, buf) ==
               match step
               case More => Done([], Greeting, buf, false)
               case Bad(fault) => Broken(fault)
               case Frame(_, next, used, _) => After([], true, Drain(UpDecoder(sv), next, buf[used..]))
  {
    hide HelloMismatch, HelloAccepted, HelloPeer;
    assert UpDecoder(sv)(Greeting, buf) == HelloStep(sv, buf);
  }

  lemma {:induction false} UpDrainStep(sv: Server, peer: Peer, chain: Chain, buf: Bytes)
    requires sv.Valid() && Steady(UpDecoder(sv))
    ensures var d, s := UpDecoder(sv), Talking(peer, chain);
            var o := Open(sv.LinkTo(peer), chain, buf);
            && (o.Opened? ==> 0 < o.used <= |buf|)
            && Drain(d, s, buf) ==
               match o
               case Wait => Done([], s, buf, false)
               case Refused => Broken(if chain.id == 1 then Decoy else Raise)
               case Opened(data, next, used) =>
                 After(data, data == [], Drain(d, Talking(peer, next), buf[used..]))
  {
    hide Open;
    OpenIsStable(sv.LinkTo(peer), chain, buf, []);
    assert UpDecoder(sv)(Talking(peer, chain), buf) == UpStep(sv, Talking(peer, chain), buf);
  }

  /** One turn of the server's loop, behind what it has put out so far. */
  lemma {:induction false} UpCallStep(sv: Server, peer: Peer, chain: Chain, out: Bytes, echo: bool, buf: Bytes)
    requires sv.Valid() && Steady(UpDecoder(sv))
    ensures var d, s := UpDecoder(sv), Talking(peer, chain);
            var o, all := Open(sv.LinkTo(peer), chain, buf), After(out, echo, Drain(d, s, buf));
            && (o.Wait? ==> all == Done(out, s, buf, echo))
            && (o.Refused? ==> all == Broken(if chain.id == 1 then Decoy else Raise))
            && (o.Opened? ==>
                  && 0 < o.used <= |buf|
                  && all == After(out + o.data, echo || o.data == [], Drain(d, Talking(peer, o.next), buf[o.used..])))
  {
    hide Open, UpDecoder, Drain, Steady;
    UpDrainStep(sv, peer, chain, buf);
    var o := Open(sv.LinkTo(peer), chain, buf);
    assert out + [] == out;
    if o.Opened? {
      AfterAfter(out, echo, o.data, o.data == [], Drain(UpDecoder(sv), Talking(peer, o.next), buf[o.used..]));
    }
  }

  /** One turn of the client's loop. */
  lemma {:induction false} DownCallStep(link: Link, s: DownState, out: Bytes, buf: Bytes)
    requires link.Valid()
    ensures var o, all := Open(link, s.chain, buf), DownCall(link, s, out, buf);
            && (o.Wait? ==> all == Done(out, s, buf, false))
            && (o.Refused? ==> all == Broken(Raise))
            && (o.Opened? ==>
                  && 0 < o.used <= |buf|
                  && all ==
                     if s.chain.id != 1 then DownCall(link, DownState(o.next, s.mss), out + o.data, buf[o.used..])
                     else if |out + o.data| < 2 then Broken(Raise)
                     else DownCall(link, DownState(o.next, U16le((out + o.data)[..2])), (out + o.data)[2..], buf[o.used..]))
  {
    hide Open, Link.Valid, U16le;
    OpenIsStable(link, s.chain, buf, []);
  }
}
