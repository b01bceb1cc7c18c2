/** The auth_aes128_sha1 and auth_aes128_md5 handshake. */
module AesHandshake {
  import opened Binary
  import opened Streaming
  import opened PaddedFrames
  import opened PaddedSession

  /** HMAC, the key digest and AES, as arbitrary functions of fixed output length. */
  datatype Suite = Suite(
    hmac: (Bytes, Bytes) -> Digest,
    digest: Bytes -> Bytes,
    aesEncrypt: (Bytes, Bytes16) -> Bytes16,
    aesDecrypt: (Bytes, Bytes16) -> Bytes16)

  /** The client's secrets, with the random and clock-dependent parts of its handshake. */
  datatype Client = Client(
    suite: Suite, key: Bytes, iv: Bytes, userKey: Bytes,
    uid: Bytes, checkByte: Byte, authData: Bytes, filler: Bytes)
  {
    ghost predicate Valid() {
      |uid| == 4 && |authData| == 12 && |filler| < 1024
    }
  }

  /** The server's secrets; `admit` is its time-stamp test and connection-id table. */
  datatype Config = Config(
    suite: Suite, key: Bytes, recvIv: Bytes, users: map<Bytes, Bytes>,
    admit: (Bytes, Bytes16) -> bool, extraWait: nat)
  {
    function UserKey(uid: Bytes): Bytes {
      if uid in users then suite.digest(users[uid])
      else if users == map[] then key
      else recvIv
    }

    function AsServer(): PaddedSession.Server {
      PaddedSession.Server(buf => Greet(this, buf), userKey => AesSealer(suite.hmac, userKey), false)
    }
  }

  function HelloSize(c: Client, data: Bytes): nat {
    31 + |c.filler| + |data| + 4
  }

  function Head(c: Client, data: Bytes): Bytes16
    requires c.Valid() && HelloSize(c, data) < 0x1_0000
  {
    c.authData + (Le16(HelloSize(c, data)) + Le16(|c.filler|))
  }

  function Opener(c: Client): (b: Bytes)
    ensures |b| == 7
  {
    [c.checkByte] + c.suite.hmac(c.iv + c.key, [c.checkByte])[..6]
  }

  function Identity(c: Client, data: Bytes): (b: Bytes)
    requires c.Valid() && HelloSize(c, data) < 0x1_0000
    ensures |b| == 20
  {
    c.uid + c.suite.aesEncrypt(c.userKey, Head(c, data))
  }

  function Unsealed(c: Client, data: Bytes): (b: Bytes)
    requires c.Valid() && HelloSize(c, data) < 0x1_0000
    ensures |b| == HelloSize(c, data) - 4
  {
    Opener(c) + Identity(c, data) + c.suite.hmac(c.iv + c.key, Identity(c, data))[..4] + (c.filler + data)
  }

  /** A handshake that carries `data`; an empty first write sends none. */
  function Hello(c: Client, data: Bytes): (b: Bytes)
    requires c.Valid() && HelloSize(c, data) < 0x1_0000
    ensures |b| == if data == [] then 0 else HelloSize(c, data)
  {
    if data == [] then [] else Unsealed(c, data) + c.suite.hmac(c.userKey, Unsealed(c, data))[..4]
  }

  predicate Mismatch(cf: Config, buf: Bytes) {
    (|buf| >= 7 || |buf| == 2 || |buf| == 3) &&
    var recvLen := if |buf| < 7 then |buf| else 7;
    cf.suite.hmac(cf.recvIv + cf.key, buf[..1])[..recvLen - 1] != buf[1..recvLen]
  }

  function Greet(cf: Config, buf: Bytes): Greeting {
    if Mismatch(cf, buf) then Rejected
    else if |buf| < 31 then Undecided
    else if cf.suite.hmac(cf.recvIv + cf.key, buf[7..27])[..4] != buf[27..31] then
      if |buf| < 31 + cf.extraWait then Undecided else Rejected
    else GreetIdentified(cf, buf)
  }

  function GreetIdentified(cf: Config, buf: Bytes): Greeting
    requires |buf| >= 31
  {
    var uid := buf[7..11];
    var userKey := cf.UserKey(uid);
    var head := cf.suite.aesDecrypt(userKey, buf[11..27]);
    var length := U16le(head[12..14]);
    if |buf| < length then Undecided
    else if length < 4 then Rejected
    else if cf.suite.hmac(userKey, buf[..length - 4])[..4] != buf[length - 4..length] then Rejected
    else if !cf.admit(if uid in cf.users then uid else [], head) then Rejected
    else Welcome(Slice(buf, 31 + U16le(head[14..16]), length - 4), userKey, length)
  }

  lemma {:induction false} GreetIdentifiedStable(cf: Config, buf: Bytes, more: Bytes)
    requires |buf| >= 31
    ensures GreetIdentified(cf, buf).Welcome? ==> 0 < GreetIdentified(cf, buf).used <= |buf|
    ensures !GreetIdentified(cf, buf).Undecided? ==> GreetIdentified(cf, buf + more) == GreetIdentified(cf, buf)
  {
    hide U16le;
    var all := buf + more;
    assert all[7..11] == buf[7..11] && all[11..27] == buf[11..27];
    var head := cf.suite.aesDecrypt(cf.UserKey(buf[7..11]), buf[11..27]);
    var length, from := U16le(head[12..14]), 31 + U16le(head[14..16]);
    if 4 <= length <= |buf| {
      assert all[..length - 4] == buf[..length - 4];
      assert all[length - 4..length] == buf[length - 4..length];
      assert Slice(all, from, length - 4) == Slice(buf, from, length - 4);
    }
  }

  lemma {:induction false} MismatchGrows(cf: Config, buf: Bytes, more: Bytes)
    requires Mismatch(cf, buf) && |buf + more| >= 7
    ensures Mismatch(cf, buf + more)
  {
    var all := buf + more;
    var mac := cf.suite.hmac(cf.recvIv + cf.key, buf[..1]);
    assert all[..1] == buf[..1];
    if |buf| < 7 {
      SliceOfSlice(all, 1, 7, |buf| - 1);
      SliceOfSlice(mac, 0, 6, |buf| - 1);
      assert all[1..|buf|] == buf[1..];
      assert mac[..|buf| - 1] != buf[1..];
    } else {
      assert all[1..7] == buf[1..7];
    }
  }

  /** A welcome depends only on the handshake's own bytes, and a rejection never hides one. */
  lemma {:induction false} GreetStable(cf: Config, buf: Bytes, more: Bytes)
    ensures Greet(cf, buf).Welcome? ==>
              0 < Greet(cf, buf).used <= |buf| && Greet(cf, buf + more) == Greet(cf, buf)
    ensures Greet(cf, buf).Rejected? ==> !Greet(cf, buf + more).Welcome?
  {
    hide GreetIdentified;
    var all := buf + more;
    if Mismatch(cf, buf) {
      if |all| >= 31 {
        MismatchGrows(cf, buf, more);
      }
    } else if |buf| >= 31 {
      assert all[..1] == buf[..1] && all[1..7] == buf[1..7];
      assert all[7..27] == buf[7..27] && all[27..31] == buf[27..31];
      GreetIdentifiedStable(cf, buf, more);
    }
  }

  lemma {:induction false} GreetIsSteady(cf: Config)
    ensures SteadyGreeting(cf.AsServer().greet)
  {
    hide Greet;
    var g := cf.AsServer().greet;
    forall b: Bytes, more: Bytes
      ensures g(b).Welcome? ==> g(b + more) == g(b)
      ensures g(b).Rejected? ==> !g(b + more).Welcome?
    {
      GreetStable(cf, b, more);
    }
    forall b: Bytes
      ensures g(b).Welcome? ==> 0 < g(b).used <= |b|
    {
      GreetStable(cf, b, []);
    }
    GreetNothing(cf);
  }

  lemma {:induction false} GreetNothing(cf: Config)
    ensures Greet(cf, []).Undecided?
  {
  }

  /** Exactly what the server makes of the first bytes: rejected as soon as the early test looks at a wrong first
      tag, undecided up to 31 bytes; a wrong second tag is rejected once as many more bytes have come as it waits
      for; then the head tells the length, and a complete handshake is welcome if and only if its last tag is
      right and the client is admitted. */
  lemma {:induction false} GreetExactly(cf: Config, buf: Bytes)
    ensures var early := |buf| == 2 || |buf| == 3 || |buf| >= 7;
            var m := if |buf| < 7 then |buf| else 7;
            early && cf.suite.hmac(cf.recvIv + cf.key, buf[..1])[..m - 1] != buf[1..m] ==> Greet(cf, buf).Rejected?
    ensures |buf| < 7 && |buf| != 2 && |buf| != 3 ==> Greet(cf, buf).Undecided?
    ensures |buf| >= 7 && cf.suite.hmac(cf.recvIv + cf.key, buf[..1])[..6] == buf[1..7] ==>
              if |buf| < 31 then Greet(cf, buf).Undecided?
              else if cf.suite.hmac(cf.recvIv + cf.key, buf[7..27])[..4] != buf[27..31] then
                Greet(cf, buf) == if |buf| < 31 + cf.extraWait then Undecided else Rejected
              else
                var uid := buf[7..11];
                var userKey := if uid in cf.users then cf.suite.digest(cf.users[uid]) else if cf.users == map[] then cf.key else cf.recvIv;
                var head := cf.suite.aesDecrypt(userKey, buf[11..27]);
                var length, filler := U16le(head[12..14]), U16le(head[14..16]);
                if |buf| < length then Greet(cf, buf).Undecided?
                else if length < 4 then Greet(cf, buf).Rejected?
                else if cf.suite.hmac(userKey, buf[..length - 4])[..4] == buf[length - 4..length]
                        && cf.admit(if uid in cf.users then uid else [], head)
                then Greet(cf, buf) == Welcome(if 31 + filler <= length - 4 then buf[31 + filler..length - 4] else [], userKey, length)
                else Greet(cf, buf).Rejected?
  {
    hide U16le;
  }

  ghost predicate Matched(c: Client, cf: Config, data: Bytes) {
    && c.Valid() && HelloSize(c, data) < 0x1_0000
    && cf.suite == c.suite && cf.key == c.key && cf.recvIv == c.iv && cf.UserKey(c.uid) == c.userKey
    && (forall k: Bytes, b: Bytes16 :: c.suite.aesDecrypt(k, c.suite.aesEncrypt(k, b)) == b)
    && cf.admit(if c.uid in cf.users then c.uid else [], Head(c, data))
  }

  lemma {:induction false} HelloFields(c: Client, data: Bytes, rest: Bytes)
    requires c.Valid() && HelloSize(c, data) < 0x1_0000 && data != []
    ensures var b, n := Hello(c, data) + rest, HelloSize(c, data);
            && b[..1] == [c.checkByte] && b[1..7] == c.suite.hmac(c.iv + c.key, [c.checkByte])[..6]
            && b[7..27] == Identity(c, data)
            && b[27..31] == c.suite.hmac(c.iv + c.key, Identity(c, data))[..4]
            && b[..n - 4] == Unsealed(c, data) && b[n - 4..n] == c.suite.hmac(c.userKey, Unsealed(c, data))[..4]
            && b[31 + |c.filler|..n - 4] == data
  {
    hide Head, Identity;
    var b, n := Hello(c, data) + rest, HelloSize(c, data);
    assert b[..n - 4] == Unsealed(c, data);
    var u := Unsealed(c, data);
    assert u[..7] == Opener(c) && u[7..27] == Identity(c, data);
    assert u[27..31] == c.suite.hmac(c.iv + c.key, Identity(c, data))[..4];
    assert u[31..] == c.filler + data;
    assert b[..7] == u[..7] && b[7..27] == u[7..27] && b[27..31] == u[27..31] && b[31..n - 4] == u[31..];
    assert b[31 + |c.filler|..n - 4] == b[31..n - 4][|c.filler|..];
  }

  /** The server reads the client's handshake as the client meant it, payload included. */
  lemma {:induction false} HelloIsWelcome(c: Client, cf: Config, data: Bytes, rest: Bytes)
    requires Matched(c, cf, data) && data != []
    ensures Greet(cf, Hello(c, data) + rest) == Welcome(data, c.userKey, HelloSize(c, data))
  {
    hide Hello, Unsealed;
    var b := Hello(c, data) + rest;
    HelloFields(c, data, rest);
    assert b[7..11] == b[7..27][..4] == c.uid;
    assert b[11..27] == b[7..27][4..] == c.suite.aesEncrypt(c.userKey, Head(c, data));
    var head := Head(c, data);
    assert head[12..14] == Le16(HelloSize(c, data)) && head[14..16] == Le16(|c.filler|);
  }

  /** auth_aes128, client to server, from the first byte, for the lengths it draws. */
  lemma {:induction false} AesClientToServer(
    c: Client, cf: Config, mss: nat, bufferSize: nat, ws: seq<Write>, pieces: seq<Bytes>)
    requires ws != [] && ws[0].data != [] && mss <= 1500 && SessionDrawn(AesRule(mss, bufferSize), ws)
    requires Matched(c, cf, ws[0].data[..FirstCut(ws[0].data, ws[0].extra)])
    requires var hello := Hello(c, ws[0].data[..FirstCut(ws[0].data, ws[0].extra)]);
             Join(pieces) == Wire(DrawnSession(cf.AsServer(), AesRule(mss, bufferSize), c.userKey, hello, ws))
    ensures Steady(UpDecoder(cf.AsServer()))
    ensures var r := Feed(UpDecoder(cf.AsServer()), Fresh, [], pieces);
            r.Done? && r.out == Text(ws) && r.rest == []
  {
    hide UpDecoder, Session, SessionFits, FirstCut, Greet, Hello, Text, SessionDrawn;
    var sv, data := cf.AsServer(), ws[0].data[..FirstCut(ws[0].data, ws[0].extra)];
    SessionDrawnFits(AesRule(mss, bufferSize), ws);
    GreetIsSteady(cf);
    forall rest
      ensures sv.greet(Hello(c, data) + rest) == Welcome(data, c.userKey, |Hello(c, data)|)
    {
      HelloIsWelcome(c, cf, data, rest);
    }
    ClientToServer(sv, c.userKey, Hello(c, data), ws, pieces);
  }
}

/** The auth_sha1_v4 handshake. */
module ShaHandshake {
  import opened Binary
  import opened Streaming
  import opened PaddedFrames
  import opened PaddedSession

  type Digest10 = b: Bytes | |b| >= 10 witness [0, 0, 0, 0, 0, 0, 0, 0, 0, 0]

  /** The checksums and HMAC-SHA1; `crcKeyed` is the CRC-32 of its argument, the salt and the key. */
  datatype Suite = Suite(
    crcKeyed: Bytes -> Word32,
    crc32: Bytes -> Word32,
    adler32: Bytes -> Word32,
    hmac: (Bytes, Bytes) -> Digest10)

  /** The client's secrets, with the random and clock-dependent parts of its handshake. */
  datatype Client = Client(suite: Suite, key: Bytes, iv: Bytes, authData: Bytes, h: nat, noise: nat -> Byte)
  {
    ghost predicate Valid() {
      |authData| == 12 && 1 <= h < 1000
    }
  }

  datatype Config = Config(suite: Suite, key: Bytes, recvIv: Bytes, admit: Bytes -> bool)
  {
    function AsServer(): PaddedSession.Server {
      PaddedSession.Server(buf => Greet(this, buf), userKey => Seals(suite), true)
    }
  }

  function Seals(suite: Suite): Sealer {
    ShaSealer(suite.crc32, suite.adler32)
  }

  function HelloSize(c: Client, data: Bytes): nat {
    16 + c.h + 12 + |data|
  }

  function Unsealed(c: Client, data: Bytes): (b: Bytes)
    requires c.Valid() && HelloSize(c, data) < 0x1_0000
    ensures |b| == HelloSize(c, data) - 10
  {
    var size := Be16(HelloSize(c, data));
    size + Le32(c.suite.crcKeyed(size)) + PadHead(Seals(c.suite), c.h, c.noise) + (c.authData + data)
  }

  function Hello(c: Client, data: Bytes): (b: Bytes)
    requires c.Valid() && HelloSize(c, data) < 0x1_0000
    ensures |b| == HelloSize(c, data)
  {
    Unsealed(c, data) + c.suite.hmac(c.iv + c.key, Unsealed(c, data))[..10]
  }

  function Greet(cf: Config, buf: Bytes): Greeting {
    if |buf| <= 6 then Undecided
    else if Le32(cf.suite.crcKeyed(buf[..2])) != buf[2..6] then Rejected
    else
      var length := U16be(buf[..2]);
      if length > |buf| then Undecided
      else if length < 10 then Rejected
      else GreetWhole(cf, buf[..length])
  }

  function GreetWhole(cf: Config, hello: Bytes): Greeting
    requires |hello| >= 10
  {
    var end := |hello| - 10;
    if cf.suite.hmac(cf.recvIv + cf.key, hello[..end])[..10] != hello[end..] then Rejected
    else
      var out := Slice(hello, PayloadStart(Seals(cf.suite), hello, 6), end);
      if |out| < 12 || !cf.admit(out[..12]) then Rejected
      else Welcome(out[12..], [], |hello|)
  }

  /** A welcome depends only on the handshake's own bytes, and so does a rejection. */
  lemma {:induction false} GreetStable(cf: Config, buf: Bytes, more: Bytes)
    ensures Greet(cf, buf).Welcome? ==> 0 < Greet(cf, buf).used <= |buf|
    ensures !Greet(cf, buf).Undecided? ==> Greet(cf, buf + more) == Greet(cf, buf)
  {
    if |buf| > 6 {
      var all := buf + more;
      assert all[..2] == buf[..2] && all[2..6] == buf[2..6];
      var length := U16be(buf[..2]);
      if length <= |buf| {
        assert all[..length] == buf[..length];
      }
    }
  }

  lemma {:induction false} GreetIsSteady(cf: Config)
    ensures SteadyGreeting(cf.AsServer().greet)
  {
    hide Greet;
    var g := cf.AsServer().greet;
    forall b: Bytes, more: Bytes
      ensures g(b).Welcome? ==> g(b + more) == g(b)
      ensures g(b).Rejected? ==> !g(b + more).Welcome?
    {
      GreetStable(cf, b, more);
    }
    forall b: Bytes
      ensures g(b).Welcome? ==> 0 < g(b).used <= |b|
    {
      GreetStable(cf, b, []);
    }
    GreetNothing(cf);
  }

  lemma {:induction false} GreetNothing(cf: Config)
    ensures Greet(cf, []).Undecided?
  {
  }

  /** Exactly what the server makes of the first bytes: six are needed to look, the keyed CRC over the size must be
      right; a complete handshake is welcome if and only if its HMAC is right and the twelve bytes behind the
      padding are there and admitted. */
  lemma {:induction false} GreetExactly(cf: Config, buf: Bytes)
    ensures |buf| <= 6 ==> Greet(cf, buf).Undecided?
    ensures |buf| > 6 && Le32(cf.suite.crcKeyed(buf[..2])) != buf[2..6] ==> Greet(cf, buf).Rejected?
    ensures |buf| > 6 && Le32(cf.suite.crcKeyed(buf[..2])) == buf[2..6] ==>
              var length := 0x100 * buf[0] as int + buf[1] as int;
              if length > |buf| then Greet(cf, buf).Undecided?
              else if length < 10 then Greet(cf, buf).Rejected?
              else if cf.suite.hmac(cf.recvIv + cf.key, buf[..length - 10])[..10] != buf[length - 10..length] then Greet(cf, buf).Rejected?
              else
                var start := 6 + if buf[6] < 255 then buf[6] as int else 0x100 * buf[7] as int + buf[8] as int;
                var out := if start <= length - 10 then buf[start..length - 10] else [];
                Greet(cf, buf) == if |out| >= 12 && cf.admit(out[..12]) then Welcome(out[12..], [], length) else Rejected
  {
    hide Le32;
    if |buf| > 6 && Le32(cf.suite.crcKeyed(buf[..2])) == buf[2..6] {
      var length := U16be(buf[..2]);
      if 10 <= length <= |buf| {
        var hello := buf[..length];
        assert hello[..length - 10] == buf[..length - 10] && hello[length - 10..] == buf[length - 10..length];
        assert hello[6] == buf[6] && hello[7..9] == buf[7..9];
        var start := 6 + if buf[6] < 255 then buf[6] as int else 0x100 * buf[7] as int + buf[8] as int;
        if start <= length - 10 {
          assert hello[start..length - 10] == buf[start..length - 10];
        }
      }
    }
  }

  ghost predicate Matched(c: Client, cf: Config, data: Bytes) {
    && c.Valid() && HelloSize(c, data) < 0x1_0000
    && cf.suite == c.suite && cf.key == c.key && cf.recvIv == c.iv && cf.admit(c.authData)
  }

  lemma {:induction false} HelloWhole(c: Client, cf: Config, data: Bytes)
    requires Matched(c, cf, data)
    ensures GreetWhole(cf, Hello(c, data)) == Welcome(data, [], HelloSize(c, data))
  {
    var b, u := Hello(c, data), Unsealed(c, data);
    var end := |b| - 10;
    assert b[..end] == u && b[end..] == c.suite.hmac(c.iv + c.key, u)[..10];
    var size := Be16(HelloSize(c, data));
    var before, sl := size + Le32(c.suite.crcKeyed(size)), Seals(c.suite);
    var rest := c.authData + data + c.suite.hmac(c.iv + c.key, u)[..10];
    assert b == before + PadHead(sl, c.h, c.noise) + rest;
    HeaderPointsAtPayload(sl, before, c.h, c.noise, rest);
    assert b[6 + c.h..end] == c.authData + data;
  }

  /** The server reads the client's handshake as the client meant it, payload included. */
  lemma {:induction false} HelloIsWelcome(c: Client, cf: Config, data: Bytes, rest: Bytes)
    requires Matched(c, cf, data)
    ensures Greet(cf, Hello(c, data) + rest) == Welcome(data, [], HelloSize(c, data))
  {
    hide GreetWhole;
    var b, size := Hello(c, data) + rest, Be16(HelloSize(c, data));
    assert b[..2] == size && b[2..6] == Le32(c.suite.crcKeyed(size));
    assert U16be(size) == HelloSize(c, data);
    assert b[..HelloSize(c, data)] == Hello(c, data);
    HelloWhole(c, cf, data);
  }

  /** auth_sha1_v4, client to server, from the first byte, for the lengths it draws. */
  lemma {:induction false} ShaClientToServer(c: Client, cf: Config, ws: seq<Write>, pieces: seq<Bytes>)
    requires ws != [] && SessionDrawn(ShaRule(), ws)
    requires Matched(c, cf, ws[0].data[..FirstCut(ws[0].data, ws[0].extra)])
    requires var hello := Hello(c, ws[0].data[..FirstCut(ws[0].data, ws[0].extra)]);
             Join(pieces) == Wire(DrawnSession(cf.AsServer(), ShaRule(), [], hello, ws))
    ensures Steady(UpDecoder(cf.AsServer()))
    ensures var r := Feed(UpDecoder(cf.AsServer()), Fresh, [], pieces);
            r.Done? && r.out == Text(ws) && r.rest == []
  {
    hide UpDecoder, Session, SessionFits, FirstCut, Greet, Hello, Text, SessionDrawn;
    var sv, data := cf.AsServer(), ws[0].data[..FirstCut(ws[0].data, ws[0].extra)];
    SessionDrawnFits(ShaRule(), ws);
    GreetIsSteady(cf);
    forall rest
      ensures sv.greet(Hello(c, data) + rest) == Welcome(data, [], |Hello(c, data)|)
    {
      HelloIsWelcome(c, cf, data, rest);
    }
    ClientToServer(sv, [], Hello(c, data), ws, pieces);
  }
}
