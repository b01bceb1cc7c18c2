/**
  The encryption layer: stream ciphers fed piece by piece, the IV that travels once at the front of
  the stream, and the libsodium ciphers whose calls must start on block boundaries.
*/
module Encryption {
  import opened Binary

  // ----- stream ciphers

  /** A cipher for one key: what a whole plaintext becomes under an IV, and back. */
  datatype Cipher = Cipher(ivLen: nat, encipher: (Bytes, Bytes) -> Bytes, decipher: (Bytes, Bytes) -> Bytes)

  /** Length is kept, and a prefix of the input fixes a prefix of the output. */
  ghost predicate Online(f: (Bytes, Bytes) -> Bytes) {
    && (forall iv, x :: |f(iv, x)| == |x|)
    && (forall iv, x, y :: f(iv, x + y)[..|x|] == f(iv, x))
  }

  ghost predicate StreamCipher(c: Cipher) {
    && Online(c.encipher) && Online(c.decipher)
    && (forall iv, x :: c.decipher(iv, c.encipher(iv, x)) == x)
  }

  /** What `f` outputs for `buf` after it has been fed `before`. */
  function Update(f: (Bytes, Bytes) -> Bytes, iv: Bytes, before: Bytes, buf: Bytes): Bytes
    requires Online(f)
  {
    f(iv, before + buf)[|before|..]
  }

  /** Piecewise updates add up to the whole. */
  lemma {:induction false} UpdateContinues(f: (Bytes, Bytes) -> Bytes, iv: Bytes, before: Bytes, buf: Bytes)
    requires Online(f)
    ensures f(iv, before) + Update(f, iv, before, buf) == f(iv, before + buf)
  {
    var all := f(iv, before + buf);
    assert all[..|before|] == f(iv, before);
    assert all == all[..|before|] + all[|before|..];
  }

  /** A cipher that combines the data with a keystream is such a cipher; libsodium's and rc4 are. */
  function KeystreamCipher(ivLen: nat, ks: (Bytes, nat) -> Byte): Cipher {
    var f := (iv, x) => StreamXor(i => ks(iv, i), 0, x);
    Cipher(ivLen, f, f)
  }

  lemma {:induction false} KeystreamIsStreamCipher(ivLen: nat, ks: (Bytes, nat) -> Byte)
    ensures StreamCipher(KeystreamCipher(ivLen, ks))
  {
    var c := KeystreamCipher(ivLen, ks);
    forall iv, x
      ensures |c.encipher(iv, x)| == |x| && c.decipher(iv, c.encipher(iv, x)) == x
    {
      StreamXorCancels(i => ks(iv, i), 0, x);
    }
    forall iv, x: Bytes, y: Bytes
      ensures c.encipher(iv, x + y)[..|x|] == c.encipher(iv, x)
    {
      StreamXorSplits(i => ks(iv, i), 0, x, y);
    }
  }

  // ----- the Encryptor object

  /** Everything a sender has put on the wire after the plaintext `p`. */
  function Sealed(c: Cipher, iv: Bytes, p: Bytes): Bytes {
    iv + c.encipher(iv, p)
  }

  /** Everything a receiver has output after the wire bytes `w`. */
  function Unsealed(c: Cipher, w: Bytes): Bytes {
    if |w| <= c.ivLen then [] else c.decipher(w[..c.ivLen], w[c.ivLen..])
  }

  /** The receiver recovers the plaintext; the IV is sent and consumed once. */
  lemma {:induction false} UnsealSealed(c: Cipher, iv: Bytes, p: Bytes)
    requires StreamCipher(c) && |iv| == c.ivLen
    ensures Unsealed(c, Sealed(c, iv, p)) == p
  {
    var w := Sealed(c, iv, p);
    assert w[..c.ivLen] == iv && w[c.ivLen..] == c.encipher(iv, p);
    assert |c.encipher(iv, p)| == |p|;
  }

  /** More input only extends the output. */
  lemma {:induction false} UnsealedGrows(c: Cipher, w: Bytes, more: Bytes)
    requires StreamCipher(c)
    ensures Unsealed(c, w) <= Unsealed(c, w + more)
  {
    var n := c.ivLen;
    if |w| > n {
      assert (w + more)[..n] == w[..n] && (w + more)[n..] == w[n..] + more;
      UpdateContinues(c.decipher, w[..n], w[n..], more);
    }
  }

  class Encryptor {
    const cipher: Cipher
    const cipherIv: Bytes

    var ivSent: bool
    var ivBuf: Bytes
    var decipherIv: Bytes
    var deciphering: bool

    // the data each direction's cipher object has been fed
    var enciphered: Bytes
    var deciphered: Bytes

    /** The key is part of `cipher`; `iv` is random unless the caller supplied one. */
    constructor (cipher: Cipher, iv: Bytes)
      requires |iv| == cipher.ivLen && StreamCipher(cipher)
      ensures Valid() && this.cipher == cipher && cipherIv == iv
      ensures !ivSent && enciphered == [] && Received() == []
    {
      this.cipher, cipherIv := cipher, iv;
      ivSent, ivBuf, deciphering, decipherIv := false, [], false, [];
      enciphered, deciphered := [], [];
    }

    ghost predicate Valid()
      reads this
    {
      && StreamCipher(cipher) && |cipherIv| == cipher.ivLen
      && (!ivSent ==> enciphered == [])
      && (deciphering ==> |decipherIv| == cipher.ivLen && deciphered != [])
      && (!deciphering ==> |ivBuf| <= cipher.ivLen && deciphered == [])
    }

    /** What has been sent so far. */
    function Emitted(): Bytes
      reads this
    {
      if ivSent then Sealed(cipher, cipherIv, enciphered) else []
    }

    /** What has arrived so far. */
    function Received(): Bytes
      reads this
    {
      if deciphering then decipherIv + deciphered else ivBuf
    }

    method Encrypt(buf: Bytes) returns (out: Bytes)
      requires Valid()
      modifies `ivSent, `enciphered
      ensures Valid() && ivSent && enciphered == old(enciphered) + buf
      ensures Emitted() == old(Emitted()) + out
      ensures !old(ivSent) ==> out == cipherIv + cipher.encipher(cipherIv, buf)
      ensures old(ivSent) ==>
                cipher.encipher(cipherIv, old(enciphered)) + out == cipher.encipher(cipherIv, old(enciphered) + buf)
    {
      hide StreamCipher;
      CipherIsOnline(cipher);
      if |buf| == 0 {
        assert enciphered + buf == enciphered;
        if !ivSent {
          ivSent := true;
          NothingEnciphered(cipher, cipherIv);
          assert buf == [];
          return cipherIv;
        }
        return buf;
      }
      UpdateContinues(cipher.encipher, cipherIv, enciphered, buf);
      out := Update(cipher.encipher, cipherIv, enciphered, buf);
      if !ivSent {
        NothingEnciphered(cipher, cipherIv);
        assert enciphered + buf == buf;
        ivSent := true;
        out := cipherIv + out;
      }
      enciphered := enciphered + buf;
    }

    method Decrypt(buf: Bytes) returns (out: Bytes)
      requires Valid()
      modifies `ivBuf, `decipherIv, `deciphering, `deciphered
      ensures Valid() && Received() == old(Received()) + buf
      ensures Unsealed(cipher, Received()) == Unsealed(cipher, old(Received())) + out
      ensures var n, w, was := cipher.ivLen, old(Received()) + buf, old(Received());
              && (|w| <= n ==> out == [])
              && (|w| > n ==>
                    cipher.decipher(w[..n], w[n..]) == (if |was| > n then cipher.decipher(was[..n], was[n..]) else []) + out)
    {
      hide StreamCipher;
      CipherIsOnline(cipher);
      if |buf| == 0 {
        return buf;
      }
      if deciphering {
        UpdateContinues(cipher.decipher, decipherIv, deciphered, buf);
        out := Update(cipher.decipher, decipherIv, deciphered, buf);
        Reassembled(cipher, decipherIv, deciphered);
        Reassembled(cipher, decipherIv, deciphered + buf);
        deciphered := deciphered + buf;
        return;
      }
      ivBuf := ivBuf + buf;
      if |ivBuf| > cipher.ivLen {
        decipherIv := ivBuf[..cipher.ivLen];
        deciphering := true;
        deciphered := ivBuf[cipher.ivLen..];
        Reassembled(cipher, decipherIv, deciphered);
        NothingDeciphered(cipher, decipherIv, deciphered);
        out := Update(cipher.decipher, decipherIv, [], deciphered);
        ivBuf := [];
      } else {
        out := [];
      }
    }
  }

  lemma {:induction false} CipherIsOnline(c: Cipher)
    requires StreamCipher(c)
    ensures Online(c.encipher) && Online(c.decipher)
  {
  }

  lemma {:induction false} NothingEnciphered(c: Cipher, iv: Bytes)
    requires StreamCipher(c)
    ensures c.encipher(iv, []) == [] && Sealed(c, iv, []) == iv
  {
    assert |c.encipher(iv, [])| == 0;
  }

  lemma {:induction false} NothingDeciphered(c: Cipher, iv: Bytes, text: Bytes)
    requires StreamCipher(c)
    ensures Online(c.decipher) && Update(c.decipher, iv, [], text) == c.decipher(iv, text)
  {
    assert [] + text == text;
  }

  lemma {:induction false} Reassembled(c: Cipher, iv: Bytes, text: Bytes)
    requires |iv| == c.ivLen && text != []
    ensures Unsealed(c, iv + text) == c.decipher(iv, text)
  {
    assert (iv + text)[..c.ivLen] == iv && (iv + text)[c.ivLen..] == text;
  }

  /** The receiver's output for each piece of a fragmented stream. */
  function UnsealPieces(c: Cipher, got: Bytes, pieces: seq<Bytes>): (outs: seq<Bytes>)
    requires StreamCipher(c)
    ensures |outs| == |pieces|
    decreases |pieces|
  {
    if pieces == [] then []
    else
      UnsealedGrows(c, got, pieces[0]);
      [Unsealed(c, got + pieces[0])[|Unsealed(c, got)|..]] + UnsealPieces(c, got + pieces[0], pieces[1..])
  }

  lemma {:induction false} UnsealPiecesJoin(c: Cipher, got: Bytes, pieces: seq<Bytes>)
    requires StreamCipher(c)
    ensures Unsealed(c, got) + Join(UnsealPieces(c, got, pieces)) == Unsealed(c, got + Join(pieces))
    decreases |pieces|
  {
    hide StreamCipher, Unsealed;
    if pieces == [] {
      assert got + Join(pieces) == got;
    } else {
      var next := got + pieces[0];
      UnsealedGrows(c, got, pieces[0]);
      UnsealPiecesJoin(c, next, pieces[1..]);
      var out := Unsealed(c, next)[|Unsealed(c, got)|..];
      var outs := UnsealPieces(c, got, pieces);
      assert outs[0] == out && outs[1..] == UnsealPieces(c, next, pieces[1..]);
      assert Unsealed(c, got) + out == Unsealed(c, next);
      assert got + Join(pieces) == next + Join(pieces[1..]);
    }
  }

  /** Decrypting any fragmentation of an encrypted stream yields the plaintext. */
  lemma {:induction false} DecryptFragments(c: Cipher, iv: Bytes, p: Bytes, pieces: seq<Bytes>)
    requires StreamCipher(c) && |iv| == c.ivLen
    requires Join(pieces) == Sealed(c, iv, p)
    ensures Join(UnsealPieces(c, [], pieces)) == p
  {
    UnsealPiecesJoin(c, [], pieces);
    UnsealSealed(c, iv, p);
    assert [] + Join(pieces) == Join(pieces);
  }

  // ----- libsodium stream ciphers

  const BLOCK_SIZE := 64

  /** The output buffer that all cipher objects of the process share. */
  class SharedBuffer {
    var buf: array<Byte>

    constructor ()
      ensures fresh(buf) && buf.Length == 2048
    {
      buf := new Byte[2048](_ => 0);
    }
  }

  class SodiumCrypto {
    const keystream: nat -> Byte
    const shared: SharedBuffer
    var counter: nat

    constructor (keystream: nat -> Byte, shared: SharedBuffer)
      ensures this.keystream == keystream && this.shared == shared && counter == 0
    {
      this.keystream, this.shared, counter := keystream, shared, 0;
    }

    /** The library call: combine `data` with the keystream from the start of block `ic`. */
    method XorFromBlock(data: Bytes, ic: nat)
      requires |data| <= shared.buf.Length
      modifies shared.buf
      ensures shared.buf[..|data|] == StreamXor(keystream, ic * 64, data)
    {
      var out := shared.buf;
      for i := 0 to |data|
        invariant forall j :: 0 <= j < i ==> out[j] == Xor8(data[j], keystream(ic * BLOCK_SIZE + j))
      {
        out[i] := Xor8(data[i], keystream(ic * BLOCK_SIZE + i));
      }
    }

    /** Zero bytes align the data to a block; their images are dropped from the result. */
    method Update(data: Bytes) returns (out: Bytes)
      modifies this, shared, shared.buf
      ensures out == StreamXor(keystream, old(counter), data)
      ensures counter == old(counter) + |data|
      ensures shared.buf == old(shared.buf) || fresh(shared.buf)
    {
      hide StreamXor;
      var l := |data|;
      var padding := counter % BLOCK_SIZE;
      if shared.buf.Length < padding + l {
        shared.buf := new Byte[(padding + l) * 2](_ => 0);
      }
      var zeros := seq(padding, _ => 0);
      var padded := if padding > 0 then zeros + data else data;
      assert padded == zeros + data;
      var ic := counter / BLOCK_SIZE;
      XorFromBlock(padded, ic);
      StreamXorSplits(keystream, ic * BLOCK_SIZE, zeros, data);
      assert ic * BLOCK_SIZE + padding == counter;
      counter := counter + l;
      out := shared.buf[padding..padding + l];
      assert out == shared.buf[..padding + l][padding..];
    }
  }

  /** The outputs of consecutive updates, for data fed in pieces from position `off`. */
  function XorPieces(ks: nat -> Byte, off: nat, pieces: seq<Bytes>): seq<Bytes>
    decreases |pieces|
  {
    if pieces == [] then []
    else [StreamXor(ks, off, pieces[0])] + XorPieces(ks, off + |pieces[0]|, pieces[1..])
  }

  /** For every split, the outputs add up to one XOR with the keystream from the first byte. */
  lemma {:induction false} ChunksDoNotMatter(ks: nat -> Byte, off: nat, pieces: seq<Bytes>)
    ensures Join(XorPieces(ks, off, pieces)) == StreamXor(ks, off, Join(pieces))
    decreases |pieces|
  {
    hide StreamXor;
    if pieces != [] {
      ChunksDoNotMatter(ks, off + |pieces[0]|, pieces[1..]);
      StreamXorSplits(ks, off, pieces[0], Join(pieces[1..]));
      var outs := XorPieces(ks, off, pieces);
      assert outs[1..] == XorPieces(ks, off + |pieces[0]|, pieces[1..]);
    }
  }
}
