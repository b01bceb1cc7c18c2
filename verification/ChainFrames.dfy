/**
  The auth_chain frame format: a length masked with the previous frame's hash, a payload placed
  inside padding that both ends derive from that hash, and a hash that becomes the next link.
*/
module ChainFrames {
  import opened Binary
  import opened Streaming
  import opened ChainPadding

  /** The cryptographic primitives, as arbitrary deterministic functions of fixed output length. */
  datatype Suite = Suite(
    hmac: (Bytes, Bytes) -> Bytes16,
    rc4: (Bytes, Bytes16, nat) -> Byte,
    aesEncrypt: (Bytes, Bytes16) -> Bytes16,
    aesDecrypt: (Bytes, Bytes16) -> Bytes16)

  /** Everything a frame depends on besides its position in the chain. */
  datatype Link = Link(
    suite: Suite, kind: Kind, tables: Tables, overhead: nat, userKey: Bytes, seed: Bytes16)
  {
    ghost predicate Valid() {
      Ready(kind, tables)
    }

    function Keystream(): nat -> Byte {
      (i: nat) => suite.rc4(userKey, seed, i)
    }

    function Mac(id: Word32, data: Bytes): Bytes16 {
      suite.hmac(userKey + Le32(id), data)
    }

    function Pad(n: Word16, hash: Bytes16): nat
      requires Valid()
    {
      PadLen(kind, tables, overhead, n, hash)
    }

    function Start(n: Word16, hash: Bytes16): (pos: nat)
      requires Valid()
      ensures Pad(n, hash) > 0 ==> pos < Pad(n, hash)
    {
      PadStart(kind, tables, overhead, n, hash)
    }
  }

  /** A position in one direction of a connection: last hash, frame id, cipher position. */
  datatype Chain = Chain(hash: Bytes16, id: Word32, off: nat)

  function Mask(hash: Bytes16): Word16 {
    U16le(hash[14..16])
  }

  function Padded(link: Link, hash: Bytes16, text: Bytes, noise: nat -> Byte): (r: Bytes)
    requires link.Valid() && |text| < 0x1_0000
    ensures |r| == |text| + link.Pad(|text|, hash)
  {
    var pad := Take(noise, link.Pad(|text|, hash));
    if text == [] then pad
    else if |pad| > 0 then
      var start := link.Start(|text|, hash);
      pad[..start] + text + pad[start..]
    else text
  }

  /** The authenticated part of a frame. */
  function Sealed(link: Link, s: Chain, data: Bytes, noise: nat -> Byte): (r: Bytes)
    requires link.Valid() && |data| < 0x1_0000
    ensures |r| == 2 + |data| + link.Pad(|data|, s.hash)
  {
    var text := StreamXor(link.Keystream(), s.off, data);
    Le16(Xor16(|text|, Mask(s.hash))) + Padded(link, s.hash, text, noise)
  }

  /** One frame, and the sender's position after it. */
  function Pack(link: Link, s: Chain, data: Bytes, noise: nat -> Byte): (p: Packet<Chain>)
    requires link.Valid() && |data| < 0x1_0000
    ensures p.data == data && |p.wire| == 4 + |data| + link.Pad(|data|, s.hash)
    ensures p.next.id == NextId(s.id) && p.next.off == s.off + |data|
  {
    var sealed := Sealed(link, s, data, noise);
    var hash := link.Mac(s.id, sealed);
    Packet(sealed + hash[..2], data, Chain(hash, NextId(s.id), s.off + |data|), data == [])
  }

  /** What a receiver finds at the front of its buffer. */
  datatype Opening = Wait | Refused | Opened(data: Bytes, next: Chain, used: nat)

  function Open(link: Link, s: Chain, buf: Bytes): Opening
    requires link.Valid()
  {
    if |buf| <= 4 then Wait
    else
      var n := Xor16(U16le(buf[..2]), Mask(s.hash));
      var length := n + link.Pad(n, s.hash);
      if length >= FRAME_LIMIT then Refused
      else if length + 4 > |buf| then Wait
      else OpenWhole(link, s, buf[..length + 4], n)
  }

  /** The check and decryption of one complete frame with a payload of `n` bytes. */
  function OpenWhole(link: Link, s: Chain, frame: Bytes, n: Word16): Opening
    requires link.Valid() && |frame| == n + link.Pad(n, s.hash) + 4
  {
    var length := |frame| - 4;
    var hash := link.Mac(s.id, frame[..length + 2]);
    if hash[..2] != frame[length + 2..] then Refused
    else
      var pos := 2 + if n > 0 && link.Pad(n, s.hash) > 0 then link.Start(n, s.hash) else 0;
      Opened(StreamXor(link.Keystream(), s.off, frame[pos..pos + n]),
             Chain(hash, NextId(s.id), s.off + n), |frame|)
  }

  lemma {:induction false} ShortWaits(link: Link, chain: Chain, buf: Bytes)
    requires link.Valid() && |buf| <= 4
    ensures Open(link, chain, buf) == Wait
  {
  }

  /** A decision, once reached, does not depend on what arrives later. */
  lemma {:induction false} OpenIsStable(link: Link, s: Chain, buf: Bytes, more: Bytes)
    requires link.Valid()
    ensures Open(link, s, buf).Opened? ==> 0 < Open(link, s, buf).used <= |buf|
    ensures Open(link, s, buf) != Wait ==> Open(link, s, buf + more) == Open(link, s, buf)
  {
    hide PadLen, PadStart;
    if |buf| > 4 {
      assert (buf + more)[..2] == buf[..2];
      var n := Xor16(U16le(buf[..2]), Mask(s.hash));
      var length := n + link.Pad(n, s.hash);
      if length + 4 <= |buf| {
        assert (buf + more)[..length + 4] == buf[..length + 4];
      }
    }
  }

  /** The receiver recovers the payload from inside the padding. */
  lemma {:induction false} PaddedPosition(link: Link, hash: Bytes16, text: Bytes, noise: nat -> Byte)
    requires link.Valid() && |text| < 0x1_0000
    ensures var r := Padded(link, hash, text, noise);
            var pos := if |text| > 0 && link.Pad(|text|, hash) > 0 then link.Start(|text|, hash) else 0;
            pos + |text| <= |r| && r[pos..pos + |text|] == text
  {
    hide PadLen, PadStart;
    var pad := Take(noise, link.Pad(|text|, hash));
    if text != [] && |pad| > 0 {
      var start := link.Start(|text|, hash);
      assert |pad[..start]| == start;
      assert (pad[..start] + text)[start..start + |text|] == text;
    }
  }

  lemma {:induction false} OpenSealed(link: Link, s: Chain, data: Bytes, noise: nat -> Byte)
    requires link.Valid() && |data| < 0x1_0000
    ensures var p := Pack(link, s, data, noise);
            OpenWhole(link, s, p.wire, |data|) == Opened(data, p.next, |p.wire|)
  {
    hide PadLen, PadStart, Link.Pad, Link.Start, Link.Valid, StreamXor, Padded, Le16, Xor16, Mask, NextId;
    var n := |data|;
    var text := StreamXor(link.Keystream(), s.off, data);
    var sealed := Sealed(link, s, data, noise);
    var p := Pack(link, s, data, noise);
    var length := |p.wire| - 4;
    assert p.wire[..length + 2] == sealed;
    assert p.wire[length + 2..] == link.Mac(s.id, sealed)[..2];
    PaddedPosition(link, s.hash, text, noise);
    var pos := if n > 0 && link.Pad(n, s.hash) > 0 then link.Start(n, s.hash) else 0;
    var inner := Padded(link, s.hash, text, noise);
    assert sealed[2..] == inner;
    assert p.wire[2 + pos..2 + pos + n] == inner[pos..pos + n];
    StreamXorCancels(link.Keystream(), s.off, data);
  }

  /** A sent frame is opened to what was packed, whatever follows it in the buffer. */
  lemma {:induction false} OpenPacked(link: Link, s: Chain, data: Bytes, noise: nat -> Byte, rest: Bytes)
    requires link.Valid() && |data| < FRAME_LIMIT
    ensures var p := Pack(link, s, data, noise);
            Open(link, s, p.wire + rest) ==
            if |p.wire + rest| <= 4 then Wait else Opened(data, p.next, |p.wire|)
  {
    hide PadLen, PadStart;
    var p := Pack(link, s, data, noise);
    var buf := p.wire + rest;
    var text := StreamXor(link.Keystream(), s.off, data);
    assert buf[..2] == Le16(Xor16(|text|, Mask(s.hash)));
    XorCancels(|text|, Mask(s.hash));
    PaddingStaysInFrame(link.kind, link.tables, link.overhead, |data|, s.hash);
    assert buf[..|p.wire|] == p.wire;
    OpenSealed(link, s, data, noise);
  }

  // ----- what exactly is accepted

  /** The payload size that the first two bytes announce behind their mask, and the whole frame without the
      four bytes of size and tag. */
  function Announced(s: Chain, buf: Bytes): Word16
    requires |buf| >= 2
  {
    Xor16(U16le(buf[..2]), U16le(s.hash[14..16]))
  }

  /** The tag that the keyed hash of the frame id and the bytes before it prescribes. */
  function Tag(link: Link, id: Word32, body: Bytes): (tag: Bytes)
    ensures tag == link.suite.hmac(link.userKey + Le32(id), body)[..2]
  {
    link.Mac(id, body)[..2]
  }

  /** The buffer starts with a frame that announces too much, or is complete and has another tag. */
  predicate Faulty(link: Link, s: Chain, buf: Bytes)
    requires link.Valid()
  {
    |buf| > 4 &&
    var size := Announced(s, buf) + link.Pad(Announced(s, buf), s.hash);
    size >= 4096 || (size + 4 <= |buf| && buf[size + 2..size + 4] != Tag(link, s.id, buf[..size + 2]))
  }

  /** Just these are refused, and just the incomplete ones wait. */
  lemma {:induction false} RefusedExactly(link: Link, s: Chain, buf: Bytes)
    requires link.Valid()
    ensures Open(link, s, buf).Refused? <==> Faulty(link, s, buf)
    ensures Open(link, s, buf).Wait? <==>
            |buf| <= 4 ||
            var size := Announced(s, buf) + link.Pad(Announced(s, buf), s.hash);
            size < 4096 && size + 4 > |buf|
  {
    hide PadLen, PadStart;
    if |buf| > 4 {
      var n := Announced(s, buf);
      var size := n + link.Pad(n, s.hash);
      if size + 4 <= |buf| {
        var frame := buf[..size + 4];
        assert frame[..size + 2] == buf[..size + 2] && frame[size + 2..] == buf[size + 2..size + 4];
      }
    }
  }

  /** Where the text of a complete frame stands. */
  function TextAt(link: Link, s: Chain, n: Word16): (pos: nat)
    requires link.Valid()
    ensures pos + n <= n + link.Pad(n, s.hash) + 2
  {
    2 + if n > 0 && link.Pad(n, s.hash) > 0 then link.Start(n, s.hash) else 0
  }

  /** The random bytes of a complete frame. */
  function NoiseOf(link: Link, s: Chain, frame: Bytes, n: Word16): Bytes
    requires link.Valid() && |frame| == n + link.Pad(n, s.hash) + 4
  {
    var pos := TextAt(link, s, n);
    frame[2..pos] + frame[pos + n..|frame| - 2]
  }

  /** The sender would have padded the text to just these bytes. */
  lemma {:induction false} NoiseRebuilds(link: Link, s: Chain, frame: Bytes, n: Word16, noise: nat -> Byte)
    requires link.Valid() && |frame| == n + link.Pad(n, s.hash) + 4
    requires forall i :: 0 <= i < |NoiseOf(link, s, frame, n)| ==> noise(i) == NoiseOf(link, s, frame, n)[i]
    ensures var pos := TextAt(link, s, n);
            Padded(link, s.hash, frame[pos..pos + n], noise) == frame[2..|frame| - 2]
  {
    hide Link.Pad, Link.Start, Link.Valid;
    var pos := TextAt(link, s, n);
    var bytes, text := NoiseOf(link, s, frame, n), frame[pos..pos + n];
    assert Take(noise, |bytes|) == bytes;
    assert frame[2..|frame| - 2] == frame[2..pos] + text + frame[pos + n..|frame| - 2];
    assert bytes[..pos - 2] == frame[2..pos] && bytes[pos - 2..] == frame[pos + n..|frame| - 2];
  }

  lemma {:induction false} MaskRestores(s: Chain, frame: Bytes)
    requires |frame| >= 2
    ensures Le16(Xor16(Announced(s, frame), Mask(s.hash))) == frame[..2]
  {
    hide Xor16, Le16, U16le;
    Xor16Cancels(U16le(frame[..2]), Mask(s.hash));
    Le16OfU16le(frame[..2]);
  }

  lemma {:induction false} SealedRebuilds(link: Link, s: Chain, frame: Bytes, n: Word16, noise: nat -> Byte)
    requires link.Valid() && |frame| == n + link.Pad(n, s.hash) + 4 && Announced(s, frame) == n
    requires forall i :: 0 <= i < |NoiseOf(link, s, frame, n)| ==> noise(i) == NoiseOf(link, s, frame, n)[i]
    ensures var text := frame[TextAt(link, s, n)..TextAt(link, s, n) + n];
            Sealed(link, s, StreamXor(link.Keystream(), s.off, text), noise) == frame[..|frame| - 2]
  {
    NoiseRebuilds(link, s, frame, n, noise);
    hide PadLen, PadStart, Link.Pad, Link.Start, Link.Valid, NoiseOf, Padded, StreamXor, Link.Keystream, Announced, Xor16,
         Le16, Mask;
    var text := frame[TextAt(link, s, n)..TextAt(link, s, n) + n];
    StreamXorCancels(link.Keystream(), s.off, text);
    MaskRestores(s, frame);
    var end := |frame| - 2;
    assert frame[..end] == frame[..2] + frame[2..end];
  }

  lemma {:induction false} WholeIsPacked(link: Link, s: Chain, frame: Bytes, n: Word16, noise: nat -> Byte)
    requires link.Valid() && |frame| == n + link.Pad(n, s.hash) + 4 && Announced(s, frame) == n
    requires OpenWhole(link, s, frame, n).Opened?
    requires forall i :: 0 <= i < |NoiseOf(link, s, frame, n)| ==> noise(i) == NoiseOf(link, s, frame, n)[i]
    ensures var o := OpenWhole(link, s, frame, n);
            && |o.data| == n && o.used == |frame|
            && Pack(link, s, o.data, noise).wire == frame && Pack(link, s, o.data, noise).next == o.next
  {
    SealedRebuilds(link, s, frame, n, noise);
    hide PadLen, PadStart, Link.Pad, Link.Start, Link.Valid, NoiseOf, Sealed, StreamXor, Link.Keystream, Announced;
    var end := |frame| - 2;
    assert frame == frame[..end] + frame[end..];
  }

  /** Whatever is opened is a frame that the sender in this state packs, with some padding bytes, from just
      these data. */
  lemma {:induction false} OpensOnlyPacked(link: Link, s: Chain, buf: Bytes) returns (noise: nat -> Byte)
    requires link.Valid() && Open(link, s, buf).Opened?
    ensures var o := Open(link, s, buf);
            && |o.data| < 4096 && 4 < |buf| && o.used <= |buf|
            && Pack(link, s, o.data, noise).wire == buf[..o.used] && Pack(link, s, o.data, noise).next == o.next
  {
    hide PadLen, PadStart, Link.Pad, Link.Start, Link.Valid, OpenWhole, Pack, NoiseOf;
    var n := Announced(s, buf);
    var frame := buf[..n + link.Pad(n, s.hash) + 4];
    assert frame[..2] == buf[..2];
    var bytes := NoiseOf(link, s, frame, n);
    noise := (i: nat) => if i < |bytes| then bytes[i] else 0;
    WholeIsPacked(link, s, frame, n, noise);
  }

  /** The receiver opens a buffer if and only if it starts with a frame that the sender in this state can pack
      from fewer than 4096 bytes, and has more than four bytes. */
  lemma {:induction false} OpenedExactly(link: Link, s: Chain, buf: Bytes)
    requires link.Valid()
    ensures Open(link, s, buf).Opened? <==>
            (|buf| > 4 && exists data, noise :: |data| < 4096 && Pack(link, s, data, noise).wire <= buf)
  {
    hide Open, Pack, Link.Valid;
    if Open(link, s, buf).Opened? {
      var noise := OpensOnlyPacked(link, s, buf);
      assert Pack(link, s, Open(link, s, buf).data, noise).wire <= buf;
    }
    if |buf| > 4 && exists data, noise :: |data| < 4096 && Pack(link, s, data, noise).wire <= buf {
      var data, noise :| |data| < 4096 && Pack(link, s, data, noise).wire <= buf;
      var wire := Pack(link, s, data, noise).wire;
      assert buf == wire + buf[|wire|..];
      OpenPacked(link, s, data, noise, buf[|wire|..]);
    }
  }

  /** The bytes of a frame: the masked size, the padded and encrypted payload, and the tag, which is also the
      beginning of the next chain value. */
  lemma {:induction false} FrameFormat(link: Link, s: Chain, data: Bytes, noise: nat -> Byte) returns (pos: nat)
    requires link.Valid() && |data| < 0x1_0000
    ensures var p := Pack(link, s, data, noise);
            var end := |p.wire| - 2;
            var mac := link.suite.hmac(link.userKey + Le32(s.id), p.wire[..end]);
            && Announced(s, p.wire) == |data| && p.wire[end..] == mac[..2]
            && p.next == Chain(mac, (s.id + 1) % 0x1_0000_0000, s.off + |data|)
            && 2 <= pos <= end - |data|
            && forall i :: 0 <= i < |data| ==>
                 p.wire[pos + i] == Xor8(data[i], link.suite.rc4(link.userKey, link.seed, s.off + i))
  {
    hide PadLen, PadStart, Link.Pad, Link.Start, Link.Valid, Sealed, Announced;
    var p, sealed := Pack(link, s, data, noise), Sealed(link, s, data, noise);
    var end := |p.wire| - 2;
    assert p.wire[..end] == sealed;
    pos := SealedFormat(link, s, data, noise);
    assert p.wire[..2] == sealed[..2];
    MaskedSize(s, |data|, p.wire);
  }

  lemma {:induction false} SealedFormat(link: Link, s: Chain, data: Bytes, noise: nat -> Byte) returns (pos: nat)
    requires link.Valid() && |data| < 0x1_0000
    ensures var sealed := Sealed(link, s, data, noise);
            && sealed[..2] == Le16(Xor16(|data|, Mask(s.hash))) && 2 <= pos <= |sealed| - |data|
            && forall i :: 0 <= i < |data| ==>
                 sealed[pos + i] == Xor8(data[i], link.suite.rc4(link.userKey, link.seed, s.off + i))
  {
    hide PadLen, PadStart, Link.Pad, Link.Start, Link.Valid, Padded, Le16, Xor16, Xor8;
    var sealed, text := Sealed(link, s, data, noise), StreamXor(link.Keystream(), s.off, data);
    var inner := Padded(link, s.hash, text, noise);
    PaddedPosition(link, s.hash, text, noise);
    assert sealed[2..] == inner;
    pos := TextAt(link, s, |data|);
    forall i | 0 <= i < |data|
      ensures sealed[pos + i] == Xor8(data[i], link.suite.rc4(link.userKey, link.seed, s.off + i))
    {
      assert inner[pos - 2..pos - 2 + |text|][i] == text[i];
      assert sealed[pos + i] == sealed[2..][pos - 2 + i];
    }
  }

  lemma {:induction false} MaskedSize(s: Chain, n: Word16, wire: Bytes)
    requires |wire| >= 2 && wire[..2] == Le16(Xor16(n, Mask(s.hash)))
    ensures Announced(s, wire) == n
  {
    hide Xor16, Le16, U16le;
    Xor16Cancels(n, Mask(s.hash));
    U16leOfLe16(Xor16(n, Mask(s.hash)));
  }
}
