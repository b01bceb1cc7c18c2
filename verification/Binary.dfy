/** Bytes, fixed-width integers and the keystream XOR that every layer shares. */
module Binary {

  type Byte = x: int | 0 <= x < 0x100
  type Bytes = seq<Byte>
  type Word16 = x: int | 0 <= x < 0x1_0000
  type Word32 = x: int | 0 <= x < 0x1_0000_0000
  type Word64 = x: int | 0 <= x < 0x1_0000_0000_0000_0000

  /** A sixteen-byte string: an MD5 digest or an AES block. */
  type Bytes16 = b: Bytes | |b| == 16
    witness [0, 0, 0, 0, 0, 0, 0, 0, 0, 0, 0, 0, 0, 0, 0, 0]

  // ----- struct.pack and struct.unpack

  function Le16(n: Word16): (b: Bytes)
    ensures |b| == 2
  {
    [n % 0x100, n / 0x100]
  }

  function U16le(b: Bytes): (n: Word16)
    requires |b| == 2
  {
    b[0] as int + 0x100 * b[1] as int
  }

  function Be16(n: Word16): (b: Bytes)
    ensures |b| == 2
  {
    [n / 0x100, n % 0x100]
  }

  function U16be(b: Bytes): (n: Word16)
    requires |b| == 2
  {
    0x100 * b[0] as int + b[1] as int
  }

  function Le32(n: Word32): (b: Bytes)
    ensures |b| == 4
  {
    Le16(n % 0x1_0000) + Le16(n / 0x1_0000)
  }

  function U32le(b: Bytes): (n: Word32)
    requires |b| == 4
  {
    U16le(b[..2]) + 0x1_0000 * U16le(b[2..])
  }

  lemma {:induction false} U32leOfLe32(n: Word32)
    ensures U32le(Le32(n)) == n
  {
    assert Le32(n)[..2] == Le16(n % 0x1_0000);
    assert Le32(n)[2..] == Le16(n / 0x1_0000);
  }

  lemma {:induction false} Le32OfU32le(b: Bytes)
    requires |b| == 4
    ensures Le32(U32le(b)) == b
  {
    var lo, hi := U16le(b[..2]), U16le(b[2..]);
    assert U32le(b) % 0x1_0000 == lo && U32le(b) / 0x1_0000 == hi;
    assert b == [b[0], b[1]] + [b[2], b[3]];
  }

  function U64le(b: Bytes): Word64
    requires |b| == 8
  {
    U32le(b[..4]) as int + 0x1_0000_0000 * U32le(b[4..]) as int
  }

  // ----- bitwise exclusive or on naturals

  function Xor(a: nat, b: nat): nat {
    if a == 0 && b == 0 then 0
    else 2 * Xor(a / 2, b / 2) + (a % 2 + b % 2) % 2
  }

  function Pow2(k: nat): (r: nat)
    ensures r > 0
  {
    if k == 0 then 1 else 2 * Pow2(k - 1)
  }

  lemma {:induction false} Pow2Widths()
    ensures Pow2(8) == 0x100 && Pow2(16) == 0x1_0000 && Pow2(32) == 0x1_0000_0000
    ensures Pow2(64) == 0x1_0000_0000_0000_0000
  {
    assert Pow2(8) == 0x100;
    assert Pow2(12) == 0x1000;
    assert Pow2(16) == 0x1_0000;
    assert Pow2(20) == 0x10_0000;
    assert Pow2(24) == 0x100_0000;
    assert Pow2(28) == 0x1000_0000;
    assert Pow2(32) == 0x1_0000_0000;
    assert Pow2(36) == 0x10_0000_0000;
    assert Pow2(40) == 0x100_0000_0000;
    assert Pow2(44) == 0x1000_0000_0000;
    assert Pow2(48) == 0x1_0000_0000_0000;
    assert Pow2(52) == 0x10_0000_0000_0000;
    assert Pow2(56) == 0x100_0000_0000_0000;
    assert Pow2(60) == 0x1000_0000_0000_0000;
  }

  lemma {:induction false} XorBound(a: nat, b: nat, k: nat)
    requires a < Pow2(k) && b < Pow2(k)
    ensures Xor(a, b) < Pow2(k)
  {
    if k > 0 && !(a == 0 && b == 0) {
      XorBound(a / 2, b / 2, k - 1);
    }
  }

  lemma {:induction false} XorBits(half: nat, low: nat, b: nat)
    requires low < 2
    ensures Xor(2 * half + low, b) == 2 * Xor(half, b / 2) + (low + b % 2) % 2
  {
    var x := 2 * half + low;
    assert x / 2 == half && x % 2 == low;
  }

  lemma {:induction false} BitCancels(x: nat, y: nat)
    requires x < 2 && y < 2
    ensures ((x + y) % 2 + y) % 2 == x
  {
  }

  /** Masking twice with the same value restores the original. */
  lemma {:induction false} XorCancels(a: nat, b: nat)
    ensures Xor(Xor(a, b), b) == a
    decreases a + b
  {
    if !(a == 0 && b == 0) {
      var half, low := Xor(a / 2, b / 2), (a % 2 + b % 2) % 2;
      assert Xor(a, b) == 2 * half + low;
      hide Xor;
      XorCancels(a / 2, b / 2);
      XorBits(half, low, b);
      BitCancels(a % 2, b % 2);
    }
  }

  /** Bit number `k`. */
  function Bit(x: nat, k: nat): nat {
    x / Pow2(k) % 2
  }

  lemma {:induction false} HalfBit(x: nat, k: nat)
    ensures Bit(x, k + 1) == Bit(x / 2, k)
  {
    HalveTwice(x, Pow2(k));
  }

  lemma {:induction false} HalveTwice(x: nat, p: nat)
    requires p > 0
    ensures x / (2 * p) == x / 2 / p
  {
    var h := x / 2;
    var q := h / p;
    assert h == p * q + h % p;
    assert x == 2 * h + x % 2;
    assert x == (2 * p) * q + (2 * (h % p) + x % 2);
    assert 0 <= 2 * (h % p) + x % 2 < 2 * p;
    DivisionIsUnique(x, 2 * p, q, 2 * (h % p) + x % 2);
  }

  lemma {:induction false} DivisionIsUnique(x: nat, d: nat, q: nat, r: nat)
    requires d > 0 && x == d * q + r && r < d
    ensures x / d == q
  {
    var e := x / d - q;
    assert x == d * (x / d) + x % d;
    assert d * e == r - x % d;
    MultipleGrows(d, e);
  }

  lemma {:induction false} MultipleGrows(d: nat, e: int)
    ensures e >= 1 ==> d * e >= d
    ensures e <= -1 ==> d * e <= -(d as int)
  {
    if e >= 1 {
      assert d * e == d * (e - 1) + d;
    } else if e <= -1 {
      assert d * e == d * (e + 1) - d;
    }
  }

  /** A bit of the result is set exactly where the two numbers differ. */
  lemma {:induction false} XorBitwise(a: nat, b: nat, k: nat)
    ensures Bit(Xor(a, b), k) == if Bit(a, k) == Bit(b, k) then 0 else 1
    decreases k
  {
    if k == 0 {
      LowBits(a, b);
    } else {
      hide Bit, Xor;
      HalfBit(a, k - 1);
      HalfBit(b, k - 1);
      HalfBit(Xor(a, b), k - 1);
      XorParts(a, b);
      XorBitwise(a / 2, b / 2, k - 1);
    }
  }

  lemma {:induction false} BitZero(x: nat)
    ensures Bit(x, 0) == x % 2
  {
    assert Pow2(0) == 1;
  }

  lemma {:induction false} HalfAndLow(half: nat, low: nat)
    requires low < 2
    ensures (2 * half + low) % 2 == low && (2 * half + low) / 2 == half
  {
  }

  lemma {:induction false} LowBits(a: nat, b: nat)
    ensures Bit(Xor(a, b), 0) == if Bit(a, 0) == Bit(b, 0) then 0 else 1
  {
    XorParts(a, b);
    hide Xor, Bit;
    BitZero(a);
    BitZero(b);
    BitZero(Xor(a, b));
  }

  lemma {:induction false} XorParts(a: nat, b: nat)
    ensures Xor(a, b) / 2 == Xor(a / 2, b / 2) && Xor(a, b) % 2 == if a % 2 == b % 2 then 0 else 1
  {
    if a == 0 && b == 0 {
      assert Xor(0, 0) == 0;
    } else {
      HalfAndLow(Xor(a / 2, b / 2), (a % 2 + b % 2) % 2);
    }
  }

  /** The byte orders of the wire formats. */
  lemma {:induction false} ByteOrder()
    ensures Le16(0x0102) == [2, 1] && Be16(0x0102) == [1, 2] && Le32(0x01020304) == [4, 3, 2, 1]
    ensures U16le([2, 1]) == 0x0102 && U16be([1, 2]) == 0x0102 && U32le([4, 3, 2, 1]) == 0x01020304
    ensures U64le([8, 7, 6, 5, 4, 3, 2, 1]) == 0x0102030405060708
  {
    assert [4, 3, 2, 1][..2] == [4, 3] && [4, 3, 2, 1][2..] == [2, 1];
    assert [8, 7, 6, 5][..2] == [8, 7] && [8, 7, 6, 5][2..] == [6, 5];
    assert [8, 7, 6, 5, 4, 3, 2, 1][..4] == [8, 7, 6, 5] && [8, 7, 6, 5, 4, 3, 2, 1][4..] == [4, 3, 2, 1];
  }

  function Xor8(a: Byte, b: Byte): Byte {
    Pow2Widths();
    XorBound(a, b, 8);
    Xor(a, b)
  }

  function Xor16(a: Word16, b: Word16): Word16 {
    Pow2Widths();
    XorBound(a, b, 16);
    Xor(a, b)
  }

  function Xor32(a: Word32, b: Word32): Word32 {
    Pow2Widths();
    XorBound(a, b, 32);
    Xor(a, b)
  }

  function Xor64(a: Word64, b: Word64): Word64 {
    Pow2Widths();
    XorBound(a, b, 64);
    Xor(a, b)
  }

  lemma {:induction false} SliceOfSlice(s: Bytes, a: nat, b: nat, k: nat)
    requires a + k <= b <= |s|
    ensures s[a..b][..k] == s[a..a + k]
  {
  }

  lemma {:induction false} Xor16Cancels(a: Word16, b: Word16)
    ensures Xor16(Xor16(a, b), b) == a
  {
    hide Xor;
    XorCancels(a, b);
  }

  lemma {:induction false} Le16OfU16le(b: Bytes)
    requires |b| == 2
    ensures Le16(U16le(b)) == b
  {
    var n := b[0] as int + 0x100 * b[1] as int;
    assert n % 0x100 == b[0] && n / 0x100 == b[1];
    assert b == [b[0], b[1]];
  }

  lemma {:induction false} U16leOfLe16(n: Word16)
    ensures U16le(Le16(n)) == n
  {
  }

  // ----- keystreams

  /** The bytes `data` combined with the keystream `ks` from position `off` on. */
  function StreamXor(ks: nat -> Byte, off: nat, data: Bytes): (r: Bytes)
    ensures |r| == |data|
  {
    seq(|data|, i requires 0 <= i < |data| => Xor8(data[i], ks(off + i)))
  }

  /** A keystream cipher decrypts by encrypting again at the same position. */
  lemma {:induction false} StreamXorCancels(ks: nat -> Byte, off: nat, data: Bytes)
    ensures StreamXor(ks, off, StreamXor(ks, off, data)) == data
  {
    forall i | 0 <= i < |data|
      ensures StreamXor(ks, off, StreamXor(ks, off, data))[i] == data[i]
    {
      XorCancels(data[i], ks(off + i));
    }
  }

  /** Encrypting in two pieces is encrypting at once. */
  lemma {:induction false} StreamXorSplits(ks: nat -> Byte, off: nat, a: Bytes, b: Bytes)
    ensures StreamXor(ks, off, a + b) == StreamXor(ks, off, a) + StreamXor(ks, off + |a|, b)
  {
    var l, r := StreamXor(ks, off, a + b), StreamXor(ks, off, a) + StreamXor(ks, off + |a|, b);
    forall i | 0 <= i < |a| + |b|
      ensures l[i] == r[i]
    {
      if |a| <= i {
        assert (a + b)[i] == b[i - |a|];
        assert off + |a| + (i - |a|) == off + i;
      }
    }
  }

  // ----- what both families of protocols share

  /** The first `n` bytes of a random source. */
  function Take(noise: nat -> Byte, n: nat): (r: Bytes)
    ensures |r| == n
  {
    seq(n, i requires 0 <= i < n => noise(i))
  }

  /** Frame ids count modulo 2^32. */
  function NextId(id: Word32): Word32 {
    (id + 1) % 0x1_0000_0000
  }

  /** The length of the address header that a client's first bytes announce. */
  function HeadSize(buf: Bytes): (n: nat)
    ensures 4 <= n <= 259
  {
    if |buf| < 2 then 30
    else if buf[0] % 8 == 1 then 7
    else if buf[0] % 8 == 4 then 19
    else if buf[0] % 8 == 3 then 4 + buf[1] as int
    else 30
  }

  /** An address header of any of the three kinds is measured to its end. */
  lemma {:induction false} HeaderIsMeasured(kind: Byte, address: Bytes, port: Bytes, rest: Bytes)
    requires |port| == 2 && |address| < 0x100
    requires (kind % 8 == 1 && |address| == 4) || (kind % 8 == 4 && |address| == 16) || kind % 8 == 3
    ensures var header := [kind] + (if kind % 8 == 3 then [|address|] else []) + address + port;
            HeadSize(header + rest) == |header|
  {
  }

  /** How much of the first write goes with the handshake, given a random choice of up to 31 bytes more. */
  function FirstCut(data: Bytes, extra: nat): (n: nat)
    ensures n <= |data|
    ensures n == |data| || n == HeadSize(data) + extra
    ensures extra <= 31 ==> n <= 290
    ensures data != [] ==> n > 0
  {
    var want := extra + HeadSize(data);
    if |data| < want then |data| else want
  }

  // ----- concatenation of a list of strings, b''.join(parts)

  function Join(parts: seq<Bytes>): Bytes {
    if parts == [] then [] else parts[0] + Join(parts[1..])
  }

  lemma {:induction false} JoinAppends(a: seq<Bytes>, b: seq<Bytes>)
    ensures Join(a + b) == Join(a) + Join(b)
  {
    if a == [] {
      assert a + b == b;
    } else {
      assert (a + b)[1..] == a[1..] + b;
      JoinAppends(a[1..], b);
    }
  }

  /** The cut that every sender makes: full units while more than one unit is left, then the rest. */
  function Units(buf: Bytes, unit: nat): (us: seq<Bytes>)
    requires unit > 0
    ensures us != []
    ensures forall i :: 0 <= i < |us| ==> |us[i]| <= unit
    ensures forall i :: 0 <= i < |us| - 1 ==> |us[i]| == unit
    ensures |us| > 1 ==> us[|us| - 1] != []
    ensures Join(us) == buf
    decreases |buf|
  {
    if |buf| > unit then [buf[..unit]] + Units(buf[unit..], unit) else [buf]
  }
}
