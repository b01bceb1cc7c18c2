/**
  The frames of auth_aes128_* and auth_sha1_v4: a sealed length, random padding that describes its own
  length in a one-byte or three-byte form, the payload, and a seal over the whole.
*/
module PaddedFrames {
  import opened Binary
  import opened Streaming

  type Bytes2 = b: Bytes | |b| == 2 witness [0, 0]
  type Bytes4 = b: Bytes | |b| == 4 witness [0, 0, 0, 0]

  /** An HMAC-MD5 or HMAC-SHA1 digest. */
  type Digest = b: Bytes | |b| >= 16
    witness [0, 0, 0, 0, 0, 0, 0, 0, 0, 0, 0, 0, 0, 0, 0, 0]

  const SIZE_LIMIT := 8192

  /** What distinguishes the protocols: byte order, and the seals over the length and the frame.
      auth_aes128 seals with keyed hashes of the frame id, auth_sha1_v4 with CRC-32 and Adler-32. */
  datatype Sealer = Sealer(big: bool, head: (Word32, Bytes) -> Bytes2, tail: (Word32, Bytes) -> Bytes4)
  {
    function Code(n: Word16): (b: Bytes)
      ensures |b| == 2
    {
      if big then Be16(n) else Le16(n)
    }

    function Value(b: Bytes): Word16
      requires |b| == 2
    {
      if big then U16be(b) else U16le(b)
    }
  }

  function First2(d: Digest): Bytes2 {
    d[..2]
  }

  function First4(d: Digest): Bytes4 {
    d[..4]
  }

  /** The seals of auth_aes128_sha1 and auth_aes128_md5 for one key. */
  function AesSealer(hmac: (Bytes, Bytes) -> Digest, userKey: Bytes): Sealer {
    Sealer(false,
           (id: Word32, b: Bytes) => First2(hmac(userKey + Le32(id), b)),
           (id: Word32, b: Bytes) => First4(hmac(userKey + Le32(id), b)))
  }

  function ShaSealer(crc32: Bytes -> Word32, adler32: Bytes -> Word32): Sealer {
    Sealer(true,
           (id: Word32, b: Bytes) => Le16(crc32(b) % 0x1_0000),
           (id: Word32, b: Bytes) => Le32(adler32(b)))
  }

  /** The padding lengths auth_aes128 may draw for a payload of `n` out of `full` bytes. */
  predicate AesDraw(mss: nat, bufferSize: nat, n: nat, full: nat, r: nat) {
    var rev := mss - n - 9;
    if full >= bufferSize || rev == 0 then r == 0
    else if rev < 0 then (if rev + mss > 0 then r <= rev + mss else r < 32)
    else if n > 900 then r < rev && r < 0x1_0000
    else r <= rev
  }

  /** A whole number up to `max`, for a fraction `v`. */
  function Scaled(v: real, max: nat): int {
    (v * max as real).Floor
  }

  function Reduced(word: nat, m: nat): int
    requires m > 0
  {
    word % m
  }

  /** The length auth_aes128 pads with, given a fraction `v` of the trapezoid distribution, two random bytes and
      one random byte. */
  function AesLength(mss: nat, bufferSize: nat, n: nat, full: nat, v: real, word: Word16, byte: Byte): int {
    if full >= bufferSize || n + 9 == mss then 0
    else if n + 9 - mss >= mss then byte % 32
    else if n + 9 > mss then Scaled(v, 2 * mss - n - 9)
    else if n > 900 then Reduced(word, mss - n - 9)
    else Scaled(v, mss - n - 9)
  }

  /** The length auth_sha1_v4 pads with, given one or two random bytes. */
  function ShaLength(n: nat, word: Word16, byte: Byte): int {
    if n > 1200 then 0 else if n > 400 then byte % 256 else word % 512
  }

  lemma {:induction false} ReducedRange(word: nat, m: nat)
    requires m > 0
    ensures 0 <= Reduced(word, m) < m && Reduced(word, m) <= word && (word < m ==> Reduced(word, m) == word)
  {
    assert word == m * (word / m) + word % m;
  }

  lemma {:induction false} ScaledRange(max: nat, v: real)
    requires 0.0 <= v <= 1.0
    ensures 0 <= Scaled(v, max) <= max
  {
    assert 0.0 <= v * max as real <= max as real;
  }

  lemma {:induction false} ScaledReaches(max: nat, r: nat) returns (v: real)
    requires r <= max && 0 < max
    ensures 0.0 <= v <= 1.0 && Scaled(v, max) == r
  {
    v := r as real / max as real;
    assert v * max as real == r as real;
    assert v <= 1.0;
  }

  /** The predicates are exactly the lengths that some random choice gives. */
  lemma {:induction false} DrawsExactly(mss: nat, bufferSize: nat, n: nat, full: nat, r: nat)
    ensures AesDraw(mss, bufferSize, n, full, r) <==>
            exists v, word, byte :: 0.0 <= v <= 1.0 && r == AesLength(mss, bufferSize, n, full, v, word, byte)
    ensures ShaDraw(n, r) <==> exists word, byte :: r == ShaLength(n, word, byte)
  {
    if AesDraw(mss, bufferSize, n, full, r) {
      AesDrawIsReached(mss, bufferSize, n, full, r);
    }
    forall v, word, byte | 0.0 <= v <= 1.0 && r == AesLength(mss, bufferSize, n, full, v, word, byte)
      ensures AesDraw(mss, bufferSize, n, full, r)
    {
      AesLengthIsDrawn(mss, bufferSize, n, full, v, word, byte);
    }
    if ShaDraw(n, r) {
      assert r == ShaLength(n, r, if r < 256 then r else 0);
    }
  }

  lemma {:induction false} AesDrawIsReached(mss: nat, bufferSize: nat, n: nat, full: nat, r: nat)
    requires AesDraw(mss, bufferSize, n, full, r)
    ensures exists v, word, byte :: 0.0 <= v <= 1.0 && r == AesLength(mss, bufferSize, n, full, v, word, byte)
  {
    hide Scaled, Reduced;
    if full < bufferSize && mss < n + 9 < 2 * mss {
      var v := ScaledReaches(2 * mss - n - 9, r);
      assert r == AesLength(mss, bufferSize, n, full, v, 0, 0);
    } else if full < bufferSize && n + 9 < mss && n <= 900 {
      var v := ScaledReaches(mss - n - 9, r);
      assert r == AesLength(mss, bufferSize, n, full, v, 0, 0);
    } else if full < bufferSize && n + 9 < mss {
      ReducedRange(r, mss - n - 9);
      assert r == AesLength(mss, bufferSize, n, full, 0.0, r, 0);
    } else {
      assert r == AesLength(mss, bufferSize, n, full, 0.0, 0, r);
    }
  }

  lemma {:induction false} AesLengthIsDrawn(mss: nat, bufferSize: nat, n: nat, full: nat, v: real, word: Word16, byte: Byte)
    requires 0.0 <= v <= 1.0
    ensures var r := AesLength(mss, bufferSize, n, full, v, word, byte);
            r >= 0 && AesDraw(mss, bufferSize, n, full, r)
  {
    hide Scaled, Reduced;
    var max := if n + 9 > mss then 2 * mss - n - 9 else mss - n - 9;
    if 0 < max {
      ScaledRange(max, v);
      ReducedRange(word, max);
    }
  }

  /** The header length of a drawn padding: one byte of description up to 127 bytes, three beyond. */
  function AesHeader(r: nat): nat {
    r + 1
  }

  /** The padding lengths auth_sha1_v4 may draw, and the header they make. */
  predicate ShaDraw(n: nat, r: nat) {
    if n > 1200 then r == 0 else if n > 400 then r < 256 else r < 512
  }

  function ShaHeader(r: nat): nat {
    if r < 128 then r + 1 else r + 3
  }

  const UNIT := 8100

  /** A header and a payload that make an acceptable frame. */
  predicate Fits(h: nat, n: nat) {
    1 <= h && 8 + h + n < SIZE_LIMIT
  }

  /** Which header lengths a protocol may choose for a payload of `n` bytes out of a write of `full` bytes. */
  type Rule = (nat, nat, nat) -> bool

  /** No choice makes a frame oversize. */
  ghost predicate Bounded(rule: Rule) {
    forall n: nat, full: nat, h: nat :: n <= UNIT && rule(n, full, h) ==> Fits(h, n)
  }

  /** auth_aes128, with its segment size and buffer size; up to 1500 no draw makes a frame oversize. */
  function AesRule(mss: nat, bufferSize: nat): (rule: Rule)
    ensures mss <= 1500 ==> Bounded(rule)
  {
    (n: nat, full: nat, h: nat) => h >= 1 && AesDraw(mss, bufferSize, n, full, h - 1)
  }

  function ShaRule(): (rule: Rule)
    ensures Bounded(rule)
  {
    (n: nat, full: nat, h: nat) => ShaHead(n, h)
  }

  predicate ShaHead(n: nat, h: nat) {
    if h <= 128 then h >= 1 && ShaDraw(n, h - 1) else h >= 131 && ShaDraw(n, h - 3)
  }

  /** The rules are the drawn lengths, and nothing else. */
  lemma {:induction false} RulesAreDraws(mss: nat, bufferSize: nat, n: nat, full: nat, h: nat)
    ensures AesRule(mss, bufferSize)(n, full, h) <==> exists r :: AesDraw(mss, bufferSize, n, full, r) && h == AesHeader(r)
    ensures ShaRule()(n, full, h) <==> exists r :: ShaDraw(n, r) && h == ShaHeader(r)
  {
    if AesRule(mss, bufferSize)(n, full, h) {
      assert AesDraw(mss, bufferSize, n, full, h - 1);
    }
    if ShaHead(n, h) {
      var r := if h <= 128 then h - 1 else h - 3;
      assert ShaDraw(n, r) && h == ShaHeader(r);
    }
  }

  /** `h` bytes of padding that say so themselves. */
  function PadHead(sl: Sealer, h: nat, noise: nat -> Byte): (r: Bytes)
    requires 1 <= h < 0x1_0000
    ensures |r| == h
  {
    if h <= 128 then [h] + Take(noise, h - 1) else [255] + sl.Code(h) + Take(noise, h - 3)
  }

  /** Where the payload starts behind a padding header at position `at`. */
  function PayloadStart(sl: Sealer, frame: Bytes, at: nat): nat
    requires at + 3 <= |frame|
  {
    if frame[at] < 255 then frame[at] + at else sl.Value(frame[at + 1..at + 3]) + at
  }

  /** The self-description points at the payload, in both forms. */
  lemma {:induction false} HeaderPointsAtPayload(sl: Sealer, before: Bytes, h: nat, noise: nat -> Byte, rest: Bytes)
    requires 1 <= h < 0x1_0000 && h + |rest| >= 3
    ensures PayloadStart(sl, before + PadHead(sl, h, noise) + rest, |before|) == |before| + h
  {
    var head := PadHead(sl, h, noise);
    var frame := before + head + rest;
    var at := |before|;
    assert frame[at] == head[0];
    if h > 128 {
      assert frame[at + 1..at + 3] == head[1..3] == sl.Code(h);
    }
  }

  // ----- one frame

  function Body(sl: Sealer, id: Word32, data: Bytes, h: nat, noise: nat -> Byte): (r: Bytes)
    requires Fits(h, |data|)
    ensures |r| == 4 + h + |data|
  {
    var size := sl.Code(8 + h + |data|);
    size + sl.head(id, size) + (PadHead(sl, h, noise) + data)
  }

  function Pack(sl: Sealer, id: Word32, data: Bytes, h: nat, noise: nat -> Byte): (p: Packet<Word32>)
    requires Fits(h, |data|)
    ensures p.data == data && |p.wire| == 8 + h + |data| && p.next == NextId(id)
  {
    var body := Body(sl, id, data, h, noise);
    Packet(body + sl.tail(id, body), data, NextId(id), data == [])
  }

  /** Python's slice: empty when the bounds cross. */
  function Slice(b: Bytes, from: nat, to: nat): (r: Bytes)
    requires to <= |b|
  {
    if from <= to then b[from..to] else []
  }

  /** `Forged` is a wrong seal over the length, `Refused` any later fault. */
  datatype Opening = Wait | Forged | Refused | Opened(data: Bytes, used: nat, echo: bool)

  function Open(sl: Sealer, id: Word32, buf: Bytes): Opening {
    if |buf| <= 4 then Wait
    else if sl.head(id, buf[..2]) != buf[2..4] then Forged
    else
      var length := sl.Value(buf[..2]);
      if length >= SIZE_LIMIT || length < 7 then Refused
      else if length > |buf| then Wait
      else OpenWhole(sl, id, buf[..length])
  }

  function OpenWhole(sl: Sealer, id: Word32, frame: Bytes): Opening
    requires |frame| >= 7
  {
    var end := |frame| - 4;
    if sl.tail(id, frame[..end]) != frame[end..] then Refused
    else
      var pos := PayloadStart(sl, frame, 4);
      Opened(Slice(frame, pos, end), |frame|, pos == end)
  }

  lemma {:induction false} OpenIsStable(sl: Sealer, id: Word32, buf: Bytes, more: Bytes)
    ensures Open(sl, id, buf).Opened? ==> 0 < Open(sl, id, buf).used <= |buf|
    ensures Open(sl, id, buf) != Wait ==> Open(sl, id, buf + more) == Open(sl, id, buf)
  {
    hide OpenWhole;
    OpenedWhole(sl, id, buf);
    if |buf| > 4 {
      var all := buf + more;
      assert all[..2] == buf[..2] && all[2..4] == buf[2..4];
      var length := sl.Value(buf[..2]);
      if length <= |buf| {
        assert all[..length] == buf[..length];
      }
    }
  }

  lemma {:induction false} OpenedWhole(sl: Sealer, id: Word32, buf: Bytes)
    ensures Open(sl, id, buf).Opened? ==> 7 <= Open(sl, id, buf).used <= |buf|
  {
  }

  lemma {:induction false} OpenWholePacked(sl: Sealer, id: Word32, data: Bytes, h: nat, noise: nat -> Byte)
    requires Fits(h, |data|)
    ensures var p := Pack(sl, id, data, h, noise);
            OpenWhole(sl, id, p.wire) == Opened(data, |p.wire|, data == [])
  {
    var p, body := Pack(sl, id, data, h, noise), Body(sl, id, data, h, noise);
    var end := |p.wire| - 4;
    assert p.wire[..end] == body && p.wire[end..] == sl.tail(id, body);
    var size := sl.Code(8 + h + |data|);
    var before := size + sl.head(id, size);
    assert p.wire == before + PadHead(sl, h, noise) + (data + sl.tail(id, body));
    HeaderPointsAtPayload(sl, before, h, noise, data + sl.tail(id, body));
    assert p.wire[4 + h..end] == data;
  }

  /** A sent frame is opened to what was packed, whatever follows it in the buffer. */
  lemma {:induction false} OpenPacked(sl: Sealer, id: Word32, data: Bytes, h: nat, noise: nat -> Byte, rest: Bytes)
    requires Fits(h, |data|)
    ensures var p := Pack(sl, id, data, h, noise);
            Open(sl, id, p.wire + rest) == Opened(data, |p.wire|, data == [])
  {
    hide OpenWhole;
    var p := Pack(sl, id, data, h, noise);
    var buf, size := p.wire + rest, sl.Code(8 + h + |data|);
    assert buf[..2] == size && buf[2..4] == sl.head(id, size);
    assert sl.Value(size) == |p.wire|;
    assert buf[..|p.wire|] == p.wire;
    OpenWholePacked(sl, id, data, h, noise);
  }

  // ----- a direction without handshake: server to client

  function StreamStep(sl: Sealer, id: Word32, buf: Bytes): Step<Word32> {
    match Open(sl, id, buf)
    case Wait => More
    case Forged => Bad(Raise)
    case Refused => Bad(Raise)
    case Opened(data, used, echo) => Frame(data, NextId(id), used, echo)
  }

  function StreamDecoder(sl: Sealer): Decoder<Word32> {
    (id: Word32, buf: Bytes) => StreamStep(sl, id, buf)
  }

  lemma {:induction false} StreamIsDecisive(sl: Sealer)
    ensures Decisive(StreamDecoder(sl))
    ensures forall id :: StreamDecoder(sl)(id, []).More?
  {
    hide Open;
    var d := StreamDecoder(sl);
    forall id, b: Bytes, more: Bytes
      ensures d(id, b).Frame? ==> d(id, b + more) == d(id, b)
      ensures d(id, b).Bad? ==> d(id, b + more) == d(id, b)
    {
      OpenIsStable(sl, id, b, more);
    }
    forall id, b: Bytes
      ensures d(id, b).Frame? ==> 0 < d(id, b).used <= |b|
    {
      OpenIsStable(sl, id, b, []);
    }
    forall id
      ensures d(id, []).More?
    {
      ShortWaits(sl, id, []);
    }
  }

  lemma {:induction false} ShortWaits(sl: Sealer, id: Word32, buf: Bytes)
    requires |buf| <= 4
    ensures Open(sl, id, buf) == Wait
  {
  }

  lemma {:induction false} PacketIsRead(sl: Sealer, id: Word32, data: Bytes, h: nat, noise: nat -> Byte)
    requires Fits(h, |data|)
    ensures Reads(StreamDecoder(sl), id, Pack(sl, id, data, h, noise))
  {
    hide Open;
    var d, p := StreamDecoder(sl), Pack(sl, id, data, h, noise);
    forall rest: Bytes
      ensures d(id, p.wire + rest) == Frame(p.data, p.next, |p.wire|, p.echo)
    {
      OpenPacked(sl, id, data, h, noise, rest);
    }
    assert p.wire + [] == p.wire;
  }

  /** One application write with its random choices: the padding header of each frame, and its bytes. */
  datatype Write = Write(data: Bytes, extra: nat, heads: nat -> nat, noise: (nat, nat) -> Byte)

  /** Every frame of a run of units fits. */
  ghost predicate AllFit(units: seq<Bytes>, heads: nat -> nat, k: nat) {
    forall i :: 0 <= i < |units| ==> Fits(heads(k + i), |units[i]|)
  }

  /** Every header of a run of units was chosen by the rule. */
  ghost predicate Drawn(rule: Rule, units: seq<Bytes>, full: nat, heads: nat -> nat, k: nat) {
    forall i :: 0 <= i < |units| ==> rule(|units[i]|, full, heads(k + i))
  }

  lemma {:induction false} DrawnFit(rule: Rule, buf: Bytes, full: nat, heads: nat -> nat, k: nat)
    requires Bounded(rule) && Drawn(rule, Units(buf, UNIT), full, heads, k)
    ensures AllFit(Units(buf, UNIT), heads, k)
  {
    var units := Units(buf, UNIT);
    forall i | 0 <= i < |units|
      ensures Fits(heads(k + i), |units[i]|)
    {
      assert rule(|units[i]|, full, heads(k + i));
    }
  }

  function PackUnits(sl: Sealer, id: Word32, units: seq<Bytes>, w: Write, k: nat): (ps: seq<Packet<Word32>>)
    requires AllFit(units, w.heads, k)
    ensures |ps| == |units|
    decreases |units|
  {
    if units == [] then []
    else
      assert w.heads(k + 0) == w.heads(k);
      var p := Pack(sl, id, units[0], w.heads(k), (i: nat) => w.noise(k, i));
      AllFitTail(units, w.heads, k);
      [p] + PackUnits(sl, p.next, units[1..], w, k + 1)
  }

  lemma {:induction false} AllFitTail(units: seq<Bytes>, heads: nat -> nat, k: nat)
    requires AllFit(units, heads, k) && units != []
    ensures AllFit(units[1..], heads, k + 1) && Fits(heads(k), |units[0]|)
  {
    assert heads(k + 0) == heads(k);
    forall i | 0 <= i < |units[1..]|
      ensures Fits(heads(k + 1 + i), |units[1..][i]|)
    {
      assert heads(k + (i + 1)) == heads(k + 1 + i);
    }
  }

  lemma {:induction false} UnitsArrive(sl: Sealer, id: Word32, units: seq<Bytes>, w: Write, k: nat)
    requires AllFit(units, w.heads, k)
    ensures var ps := PackUnits(sl, id, units, w, k);
            Sent(StreamDecoder(sl), id, ps) && Payload(ps) == Join(units) && NoneHeld(ps)
    decreases |units|
  {
    hide Pack, Reads, StreamDecoder, AllFit;
    if units != [] {
      AllFitTail(units, w.heads, k);
      var noise := (i: nat) => w.noise(k, i);
      var p := Pack(sl, id, units[0], w.heads(k), noise);
      PacketIsRead(sl, id, units[0], w.heads(k), noise);
      UnitsArrive(sl, p.next, units[1..], w, k + 1);
      var ps := PackUnits(sl, id, units, w, k);
      assert ps[0] == p && ps[1..] == PackUnits(sl, p.next, units[1..], w, k + 1);
    }
  }

  /** Everything a sender emits for writes that need no handshake. */
  function WritePackets(sl: Sealer, id: Word32, ws: seq<Write>): seq<Packet<Word32>>
    requires WritesFit(ws)
    decreases |ws|
  {
    if ws == [] then []
    else
      var ps := PackUnits(sl, id, Units(ws[0].data, UNIT), ws[0], 0);
      ps + WritePackets(sl, Final(id, ps), ws[1..])
  }

  ghost predicate WritesFit(ws: seq<Write>) {
    ws == [] || (AllFit(Units(ws[0].data, UNIT), ws[0].heads, 0) && WritesFit(ws[1..]))
  }

  ghost predicate WritesDrawn(rule: Rule, ws: seq<Write>) {
    ws == [] || (Drawn(rule, Units(ws[0].data, UNIT), |ws[0].data|, ws[0].heads, 0) && WritesDrawn(rule, ws[1..]))
  }

  lemma {:induction false} WritesDrawnFit(rule: Rule, ws: seq<Write>)
    requires Bounded(rule) && WritesDrawn(rule, ws)
    ensures WritesFit(ws)
    decreases |ws|
  {
    hide Bounded, Drawn, AllFit;
    if ws != [] {
      DrawnFit(rule, ws[0].data, |ws[0].data|, ws[0].heads, 0);
      WritesDrawnFit(rule, ws[1..]);
    }
  }

  function Text(ws: seq<Write>): Bytes {
    if ws == [] then [] else ws[0].data + Text(ws[1..])
  }

  lemma {:induction false} WritesArrive(sl: Sealer, id: Word32, ws: seq<Write>)
    requires WritesFit(ws)
    ensures var ps := WritePackets(sl, id, ws);
            Sent(StreamDecoder(sl), id, ps) && Payload(ps) == Text(ws) && NoneHeld(ps)
    decreases |ws|
  {
    hide StreamDecoder, PackUnits, Reads, AllFit;
    if ws != [] {
      var units := Units(ws[0].data, UNIT);
      var ps := PackUnits(sl, id, units, ws[0], 0);
      UnitsArrive(sl, id, units, ws[0], 0);
      WritesArrive(sl, Final(id, ps), ws[1..]);
      var rest := WritePackets(sl, Final(id, ps), ws[1..]);
      SentAppends(StreamDecoder(sl), id, ps, rest);
      WireAppends(ps, rest);
      NoneHeldAppends(ps, rest);
    }
  }

  /** Server to client, for frames that fit: every segmentation decodes to the text, and nothing is ever
      left waiting. */
  lemma {:induction false} FittingToClient(sl: Sealer, ws: seq<Write>, pieces: seq<Bytes>)
    requires WritesFit(ws) && Join(pieces) == Wire(WritePackets(sl, 1, ws))
    ensures Steady(StreamDecoder(sl))
    ensures Feed(StreamDecoder(sl), 1, [], pieces).Done?
    ensures var r := Feed(StreamDecoder(sl), 1, [], pieces);
            r.out == Text(ws) && r.rest == [] && r.state == Final(1, WritePackets(sl, 1, ws))
  {
    hide StreamDecoder;
    var ps := WritePackets(sl, 1, ws);
    StreamIsDecisive(sl);
    WritesArrive(sl, 1, ws);
    Delivery(StreamDecoder(sl), 1, ps, pieces);
    if ps != [] {
      LastIsNotHeld(ps);
    }
  }

  /** The stream of writes whose headers the rule has chosen. */
  ghost function DrawnPackets(sl: Sealer, rule: Rule, ws: seq<Write>): seq<Packet<Word32>>
    requires Bounded(rule) && WritesDrawn(rule, ws)
  {
    WritesDrawnFit(rule, ws);
    WritePackets(sl, 1, ws)
  }

  /** Server to client, for a protocol whose draws are bounded: every padding it may choose and every
      segmentation decodes to the text. */
  lemma {:induction false} ServerToClient(sl: Sealer, rule: Rule, ws: seq<Write>, pieces: seq<Bytes>)
    requires Bounded(rule) && WritesDrawn(rule, ws)
    requires Join(pieces) == Wire(DrawnPackets(sl, rule, ws))
    ensures Steady(StreamDecoder(sl))
    ensures Feed(StreamDecoder(sl), 1, [], pieces).Done?
    ensures var r := Feed(StreamDecoder(sl), 1, [], pieces);
            r.out == Text(ws) && r.rest == [] && r.state == Final(1, DrawnPackets(sl, rule, ws))
  {
    hide WritePackets, StreamDecoder, Feed;
    WritesDrawnFit(rule, ws);
    FittingToClient(sl, ws, pieces);
  }

  /** auth_aes128, server to client, for the lengths it draws. */
  lemma {:induction false} AesServerToClient(
    hmac: (Bytes, Bytes) -> Digest, userKey: Bytes, mss: nat, bufferSize: nat, ws: seq<Write>, pieces: seq<Bytes>)
    requires mss <= 1500 && WritesDrawn(AesRule(mss, bufferSize), ws)
    requires Join(pieces) == Wire(DrawnPackets(AesSealer(hmac, userKey), AesRule(mss, bufferSize), ws))
    ensures Steady(StreamDecoder(AesSealer(hmac, userKey)))
    ensures var r := Feed(StreamDecoder(AesSealer(hmac, userKey)), 1, [], pieces);
            r.Done? && r.out == Text(ws) && r.rest == []
  {
    hide WritesDrawn, AesSealer, StreamDecoder, DrawnPackets;
    ServerToClient(AesSealer(hmac, userKey), AesRule(mss, bufferSize), ws, pieces);
  }

  /** auth_sha1_v4, server to client, for the lengths it draws. */
  lemma {:induction false} ShaServerToClient(
    crc32: Bytes -> Word32, adler32: Bytes -> Word32, ws: seq<Write>, pieces: seq<Bytes>)
    requires WritesDrawn(ShaRule(), ws)
    requires Join(pieces) == Wire(DrawnPackets(ShaSealer(crc32, adler32), ShaRule(), ws))
    ensures Steady(StreamDecoder(ShaSealer(crc32, adler32)))
    ensures var r := Feed(StreamDecoder(ShaSealer(crc32, adler32)), 1, [], pieces);
            r.Done? && r.out == Text(ws) && r.rest == []
  {
    hide WritesDrawn, ShaSealer, StreamDecoder, DrawnPackets;
    ServerToClient(ShaSealer(crc32, adler32), ShaRule(), ws, pieces);
  }

  /** Where the loop over a buffer stops: the id of the frame it cannot open, and the bytes from there. */
  function LoopEnd(sl: Sealer, id: Word32, buf: Bytes): (Word32, Bytes)
    decreases |buf|
  {
    OpenIsStable(sl, id, buf, []);
    match Open(sl, id, buf)
    case Opened(_, used, _) => LoopEnd(sl, NextId(id), buf[used..])
    case _ => (id, buf)
  }

  // ----- what exactly is accepted

  /** The seals of the two protocols: keyed hashes over frame id and bytes, or CRC-32 and Adler-32. */
  lemma {:induction false} SealsAre(
    hmac: (Bytes, Bytes) -> Digest, userKey: Bytes, crc32: Bytes -> Word32, adler32: Bytes -> Word32, id: Word32, b: Bytes)
    ensures var aes := AesSealer(hmac, userKey);
            && !aes.big && aes.head(id, b) == hmac(userKey + Le32(id), b)[..2] && aes.tail(id, b) == hmac(userKey + Le32(id), b)[..4]
    ensures var sha := ShaSealer(crc32, adler32);
            sha.big && sha.head(id, b) == Le16(crc32(b) % 0x1_0000) && sha.tail(id, b) == Le32(adler32(b))
  {
  }

  /** Where a frame says its payload starts: the byte behind the size, or the two bytes behind that if it is 255. */
  function SaidStart(sl: Sealer, frame: Bytes): nat
    requires |frame| >= 7
  {
    4 + if frame[4] < 255 then frame[4] as int
        else if sl.big then 0x100 * frame[5] as int + frame[6] as int
        else frame[5] as int + 0x100 * frame[6] as int
  }

  /** Exactly what is made of the front of the buffer. */
  lemma {:induction false} OpenExactly(sl: Sealer, id: Word32, buf: Bytes)
    ensures |buf| <= 4 ==> Open(sl, id, buf).Wait?
    ensures |buf| > 4 ==> (Open(sl, id, buf).Forged? <==> sl.head(id, buf[..2]) != buf[2..4])
    ensures |buf| > 4 && sl.head(id, buf[..2]) == buf[2..4] ==>
              var size := if sl.big then 0x100 * buf[0] as int + buf[1] as int else buf[0] as int + 0x100 * buf[1] as int;
              if size >= 8192 || size < 7 then Open(sl, id, buf).Refused?
              else if size > |buf| then Open(sl, id, buf).Wait?
              else if sl.tail(id, buf[..size - 4]) != buf[size - 4..size] then Open(sl, id, buf).Refused?
              else
                var start := SaidStart(sl, buf);
                Open(sl, id, buf) == Opened(if start <= size - 4 then buf[start..size - 4] else [], size, start == size - 4)
  {
    if |buf| > 4 && sl.head(id, buf[..2]) == buf[2..4] {
      var size := sl.Value(buf[..2]);
      if 7 <= size < 8192 && size <= |buf| {
        var frame := buf[..size];
        assert frame[..size - 4] == buf[..size - 4] && frame[size - 4..] == buf[size - 4..size];
        assert frame[5..7] == buf[5..7] && frame[4] == buf[4];
        var start := SaidStart(sl, buf);
        if start <= size - 4 {
          assert frame[start..size - 4] == buf[start..size - 4];
        }
      }
    }
  }

  /** A wrong seal or size puts nothing out and raises an exception. */
  lemma {:induction false} FaultyFrameBreaks(sl: Sealer, id: Word32, buf: Bytes)
    requires Open(sl, id, buf).Forged? || Open(sl, id, buf).Refused?
    ensures Steady(StreamDecoder(sl)) && Drain(StreamDecoder(sl), id, buf) == Broken(Raise)
  {
    StreamIsDecisive(sl);
    hide Open;
    assert StreamDecoder(sl)(id, buf) == Bad(Raise);
  }

  /** Behind any number of good frames, too, however the stream is cut. */
  lemma {:induction false} TamperingIsNoticed(sl: Sealer, ws: seq<Write>, k: nat, bad: Bytes, pieces: seq<Bytes>)
    requires WritesFit(ws) && k <= |WritePackets(sl, 1, ws)|
    requires var id := Final(1, WritePackets(sl, 1, ws)[..k]); Open(sl, id, bad).Forged? || Open(sl, id, bad).Refused?
    requires Join(pieces) == Wire(WritePackets(sl, 1, ws)[..k]) + bad
    ensures Steady(StreamDecoder(sl)) && Feed(StreamDecoder(sl), 1, [], pieces).Broken?
  {
    var d, ps := StreamDecoder(sl), WritePackets(sl, 1, ws);
    StreamIsDecisive(sl);
    OpenExactly(sl, Final(1, ps[..k]), []);
    hide WritePackets, StreamDecoder, Open, Sent, Final, Wire, Drain, Feed;
    WritesArrive(sl, 1, ws);
    SentTakes(d, 1, ps, k);
    FaultyFrameBreaks(sl, Final(1, ps[..k]), bad);
    FeedBreaks(d, 1, ps[..k], bad, pieces);
  }

  /** The bytes of a frame: size, seal over it, padding that says where it ends, payload, and seal over all. */
  lemma {:induction false} FrameFormat(sl: Sealer, id: Word32, data: Bytes, h: nat, noise: nat -> Byte)
    requires Fits(h, |data|)
    ensures var w := Pack(sl, id, data, h, noise).wire;
            var size := 8 + h + |data|;
            && |w| == size && (if sl.big then U16be(w[..2]) else U16le(w[..2])) == size
            && w[2..4] == sl.head(id, w[..2]) && SaidStart(sl, w) == 4 + h && w[4 + h..size - 4] == data
            && w[size - 4..] == sl.tail(id, w[..size - 4]) && (h <= 128 ==> w[4] == h) && (h > 128 ==> w[4] == 255)
  {
    var p, body := Pack(sl, id, data, h, noise), Body(sl, id, data, h, noise);
    var end := |p.wire| - 4;
    assert p.wire[..end] == body && p.wire[end..] == sl.tail(id, body);
    var size, head := sl.Code(8 + h + |data|), PadHead(sl, h, noise);
    var before, rest := size + sl.head(id, size), data + sl.tail(id, body);
    assert p.wire == before + head + rest;
    hide Pack, Body, PadHead, Sealer.Code;
    assert p.wire[..2] == size && p.wire[2..4] == sl.head(id, size);
    CodeIs(sl, 8 + h + |data|);
    HeaderPointsAtPayload(sl, before, h, noise, rest);
    SaidIsStart(sl, p.wire);
    assert p.wire[4] == head[0];
    PadHeadForm(sl, h, noise);
  }

  lemma {:induction false} CodeIs(sl: Sealer, n: Word16)
    ensures (if sl.big then U16be(sl.Code(n)) else U16le(sl.Code(n))) == n
  {
  }

  lemma {:induction false} SaidIsStart(sl: Sealer, frame: Bytes)
    requires |frame| >= 7
    ensures PayloadStart(sl, frame, 4) == SaidStart(sl, frame)
  {
    assert frame[5..7][0] == frame[5] && frame[5..7][1] == frame[6];
  }

  lemma {:induction false} PadHeadForm(sl: Sealer, h: nat, noise: nat -> Byte)
    requires 1 <= h < 0x1_0000
    ensures PadHead(sl, h, noise)[0] == if h <= 128 then h else 255
  {
  }
}
