/** What the auth_chain generator, its size tables and its padding lengths are, in terms of bits and drawn numbers. */
module ChainDraws {
  import opened Binary
  import opened ChainPadding

  // ----- bits of shifted numbers

  function Quotient(x: nat, m: nat): (q: nat)
    requires m > 0
    ensures q == x / m
  {
    DivisionIsPositive(x, m);
    x / m
  }

  lemma {:induction false} DivisionIsPositive(x: nat, m: nat)
    requires m > 0
    ensures x / m >= 0
  {
  }

  lemma {:induction false} BitOfHigher(x: nat, j: nat, k: nat)
    ensures Bit(Quotient(x, Pow2(j)), k) == Bit(x, k + j)
    decreases j
  {
    hide Bit;
    if j == 0 {
      assert Pow2(0) == 1;
    } else {
      HalveTwice(x, Pow2(j - 1));
      BitOfHigher(x / 2, j - 1, k);
      HalfBit(x, k + j - 1);
    }
  }

  lemma {:induction false} BitOfDouble(x: nat, k: nat)
    ensures Bit(2 * x, k) == if k == 0 then 0 else Bit(x, k - 1)
  {
    hide Bit;
    HalfAndLow(x, 0);
    if k == 0 {
      BitZero(2 * x);
    } else {
      HalfBit(2 * x, k - 1);
    }
  }

  lemma {:induction false} BitOfLower(x: nat, j: nat, k: nat)
    ensures Bit(x * Pow2(j), k) == if k < j then 0 else Bit(x, k - j)
    decreases j
  {
    hide Bit;
    if j == 0 {
      assert Pow2(0) == 1;
    } else {
      var y := x * Pow2(j - 1);
      assert x * Pow2(j) == 2 * y;
      BitOfDouble(y, k);
      if k > 0 {
        BitOfLower(x, j - 1, k - 1);
      }
    }
  }

  lemma {:induction false} BitOfRemainder(x: nat, m: nat, k: nat)
    ensures Bit(x % Pow2(m), k) == if k < m then Bit(x, k) else 0
    decreases m
  {
    hide Bit;
    if m == 0 {
      assert Pow2(0) == 1 && x % 1 == 0;
      ZeroHasNoBits(k);
    } else {
      var p := Pow2(m - 1);
      RemainderHalves(x, p);
      HalfAndLow(x / 2 % p, x % 2);
      var r := x % Pow2(m);
      if k == 0 {
        BitZero(r);
        BitZero(x);
      } else {
        HalfBit(r, k - 1);
        HalfBit(x, k - 1);
        BitOfRemainder(x / 2, m - 1, k - 1);
      }
    }
  }

  lemma {:induction false} ZeroHasNoBits(k: nat)
    ensures Bit(0, k) == 0
  {
  }

  lemma {:induction false} RemainderHalves(x: nat, p: nat)
    requires p > 0
    ensures x % (2 * p) == 2 * (x / 2 % p) + x % 2
  {
    HalveTwice(x, p);
    var q := x / 2 / p;
    assert x == (2 * p) * (x / (2 * p)) + x % (2 * p);
    assert x / 2 == p * q + x / 2 % p;
    assert x == 2 * (x / 2) + x % 2;
    assert x == 2 * (p * q) + 2 * (x / 2 % p) + x % 2;
    assert (2 * p) * q == 2 * (p * q);
  }

  // ----- xorshift128+

  function Flip(a: nat, b: nat): nat {
    if a == b then 0 else 1
  }

  /** Bit `k` of the first word, combined with itself shifted left by 23 within 64 bits. */
  function Left23(x: nat, k: nat): nat {
    if k >= 64 then 0 else Flip(Bit(x, k), if k < 23 then 0 else Bit(x, k - 23))
  }

  lemma {:induction false} MixLeftBits(x: Word64, k: nat)
    ensures Bit(MixLeft(x), k) == Left23(x, k)
  {
    assert Pow2(41) == 0x200_0000_0000 && Pow2(23) == 0x80_0000 by { Pow2Values(); }
    hide Bit, Xor;
    var shifted := x % Pow2(41) * Pow2(23);
    XorBitwise(x, shifted, k);
    BitOfLower(x % Pow2(41), 23, k);
    if k >= 23 {
      BitOfRemainder(x, 41, k - 23);
    }
    if k >= 64 {
      HighBits(x, k);
    }
  }

  lemma {:induction false} Pow2Values()
    ensures Pow2(17) == 0x2_0000 && Pow2(23) == 0x80_0000 && Pow2(26) == 0x400_0000 && Pow2(41) == 0x200_0000_0000
  {
    assert Pow2(8) == 0x100;
    assert Pow2(14) == 0x4000;
    assert Pow2(17) == 0x2_0000;
    assert Pow2(23) == 0x80_0000;
    assert Pow2(26) == 0x400_0000;
    assert Pow2(32) == 0x1_0000_0000;
    assert Pow2(37) == 0x20_0000_0000;
    assert Pow2(41) == 0x200_0000_0000;
  }

  lemma {:induction false} HighBits(x: Word64, k: nat)
    requires k >= 64
    ensures Bit(x, k) == 0
  {
    Pow2Widths();
    Pow2Grows(64, k);
    assert x / Pow2(k) == 0;
  }

  lemma {:induction false} Pow2Grows(a: nat, b: nat)
    requires a <= b
    ensures Pow2(a) <= Pow2(b)
    decreases b - a
  {
    if a < b {
      Pow2Grows(a, b - 1);
    }
  }

  /** One step of xorshift128+ with the shifts 23, 17 and 26, bit by bit: the second word moves to the front, and
      each bit of the new one combines bits of the shifted first word and of the second. */
  lemma {:induction false} AdvanceBits(g: Rng, k: nat)
    ensures g.Advance().v0 == g.v1
    ensures Bit(g.Advance().v1, k) ==
            Flip(Left23(g.v0, k), Flip(Flip(Bit(g.v1, k), Left23(g.v0, k + 17)), Bit(g.v1, k + 26)))
  {
    assert Pow2(17) == 0x2_0000 && Pow2(26) == 0x400_0000 by { Pow2Values(); }
    hide Bit, Xor, MixLeft, Left23;
    var x, y := MixLeft(g.v0), g.v1;
    MixLeftBits(g.v0, k);
    MixLeftBits(g.v0, k + 17);
    BitOfHigher(x, 17, k);
    BitOfHigher(y, 26, k);
    var inner := Xor64(y, x / Pow2(17));
    XorBitwise(y, x / Pow2(17), k);
    XorBitwise(inner, y / Pow2(26), k);
    XorBitwise(x, Xor64(inner, y / Pow2(26)), k);
  }

  /** The number drawn is the sum of the two words after the step, in 64 bits. */
  lemma {:induction false} OutputIsSum(g: Rng)
    ensures g.Output() == (g.Advance().v0 as int + g.Advance().v1 as int) % 0x1_0000_0000_0000_0000
  {
  }

  /** Seeds: sixteen bytes in little-endian order, with the length in place of the first two for a frame, and
      four numbers skipped. Shorter seeds are filled up with zeros. */
  lemma {:induction false} SeedsAre(bin: Bytes, length: Word16)
    ensures var b := if |bin| < 16 then bin + seq(16, _ => 0) else bin;
            && Rng.FromBin(bin) == Rng(U64le(b[..8]), U64le(b[8..16]))
            && Rng.FromBinLen(bin, length) ==
               Rng(U64le(Le16(length) + b[2..8]), U64le(b[8..16])).Advance().Advance().Advance().Advance()
  {
    hide Rng.Advance, U64le;
    var b := if |bin| < 16 then bin + seq(16, _ => 0) else bin;
    var g := Rng(U64le(Le16(length) + b[2..8]), U64le(b[8..16]));
    assert g.Skip(0) == g && g.Skip(1) == g.Advance() && g.Skip(2) == g.Advance().Advance();
    assert g.Skip(3) == g.Skip(2).Advance() && g.Skip(4) == g.Skip(3).Advance();
  }

  // ----- tables

  /** The numbers drawn one after another. */
  function Drawn(g: Rng, i: nat): nat {
    g.Skip(i).Output()
  }

  lemma {:induction false} SizesAre(count: nat, g: Rng, i: nat)
    requires i < count
    ensures Sizes(count, g)[i] == Drawn(g, i) % 2340 % 2040 % 1440
    decreases count
  {
    hide Rng.Advance, Rng.Output;
    if i > 0 {
      SizesAre(count - 1, g.Advance(), i - 1);
      SkipAdvance(g, i - 1);
    }
  }

  /** The sizes drawn from the `from`-th number on. */
  function DrawnSizes(g: Rng, from: nat, count: nat): (r: seq<nat>)
    ensures |r| == count
  {
    seq(count, i requires 0 <= i < count => Drawn(g, from + i) % 2340 % 2040 % 1440)
  }

  lemma {:induction false} SizesAreDrawn(g: Rng, from: nat, count: nat)
    ensures Sizes(count, g.Skip(from)) == DrawnSizes(g, from, count)
  {
    hide Rng.Advance, Rng.Output;
    forall i | 0 <= i < count
      ensures Sizes(count, g.Skip(from))[i] == DrawnSizes(g, from, count)[i]
    {
      SizesAre(count, g.Skip(from), i);
      SkipSkips(g, from, i);
      assert Drawn(g.Skip(from), i) == Drawn(g, from + i);
    }
  }

  lemma {:induction false} SkipSkips(g: Rng, a: nat, b: nat)
    ensures g.Skip(a).Skip(b) == g.Skip(a + b)
  {
    hide Rng.Advance;
    if b > 0 {
      SkipSkips(g, a, b - 1);
    }
  }

  /** The list of variant c: how many sizes the first number drawn from the key prescribes, and just the sizes
      that the next ones give, in order. */
  lemma {:induction false} TableOfC(key: Bytes)
    ensures var g := Rng.FromBin(key);
            var n := Drawn(g, 0) % 24 + 12;
            Sorted(InitTables(C, key).list0) && multiset(InitTables(C, key).list0) == multiset(DrawnSizes(g, 1, n))
  {
    hide Rng.Advance, Rng.Output, Rng.FromBin, Sizes, Sort, DrawnSizes;
    var g := Rng.FromBin(key);
    var n := Drawn(g, 0) % 24 + 12;
    assert g.Skip(0) == g && g.Skip(1) == g.Advance();
    SizesAreDrawn(g, 1, n);
    SortContents(Sizes(n, g.Advance()));
    assert InitTables(C, key).list0 == Sort(Sizes(n, g.Advance()));
  }

  /** The two lists of variant b, drawn one after the other. */
  lemma {:induction false} TablesOfB(key: Bytes)
    ensures var g := Rng.FromBin(key);
            var n1 := Drawn(g, 0) % 8 + 4;
            var n2 := Drawn(g, n1 + 1) % 16 + 8;
            var t := InitTables(B, key);
            && Sorted(t.list1) && multiset(t.list1) == multiset(DrawnSizes(g, 1, n1))
            && Sorted(t.list2) && multiset(t.list2) == multiset(DrawnSizes(g, n1 + 2, n2))
  {
    hide Rng.Advance, Rng.Output, Rng.FromBin, Sizes, Sort, DrawnSizes;
    var g := Rng.FromBin(key);
    var n1 := Drawn(g, 0) % 8 + 4;
    assert g.Skip(0) == g && g.Skip(1) == g.Advance();
    var n2 := Drawn(g, n1 + 1) % 16 + 8;
    SkipAdvance(g, n1);
    assert g.Skip(n1 + 2) == g.Skip(n1 + 1).Advance();
    var s1, s2 := Sizes(n1, g.Advance()), Sizes(n2, g.Skip(n1 + 2));
    SizesAreDrawn(g, 1, n1);
    SizesAreDrawn(g, n1 + 2, n2);
    SortContents(s1);
    SortContents(s2);
    assert InitTables(B, key).list1 == Sort(s1) && InitTables(B, key).list2 == Sort(s2);
  }

  /** The list of variants d and e: that of variant c, with further sizes drawn until the last one drawn is at
      least 1300 or there are 64, sorted again. */
  lemma {:induction false} TableOfDE(key: Bytes) returns (more: nat)
    ensures var g := Rng.FromBin(key);
            var n := Drawn(g, 0) % 24 + 12;
            var c, added := InitTables(C, key).list0, DrawnSizes(g, n + 1, more);
            && InitTables(D, key) == InitTables(E, key)
            && Sorted(InitTables(D, key).list0) && multiset(InitTables(D, key).list0) == multiset(c + added)
            && (more > 0 ==> c[n - 1] < 1300 && forall i :: 0 <= i < more - 1 ==> added[i] < 1300)
            && (n + more < 64 ==> (if more == 0 then c[n - 1] else added[more - 1]) >= 1300) && n + more <= 64
            && |c| == n
  {
    hide Rng.Advance, Rng.Output, Rng.FromBin, Sizes, Sort, Patch, DrawnSizes;
    var g := Rng.FromBin(key);
    var n := Drawn(g, 0) % 24 + 12;
    assert g.Skip(0) == g && g.Skip(1) == g.Advance();
    var c := List0(g);
    assert InitTables(C, key).list0 == c && |c| == n;
    SkipAdvance(g, n);
    more := PatchIs(c, g, n + 1);
    SortContents(Patch(c, g.Skip(n + 1)));
    assert InitTables(D, key).list0 == Sort(Patch(c, g.Skip(n + 1)));
  }

  lemma {:induction false} PatchIs(list: seq<nat>, g: Rng, from: nat) returns (more: nat)
    requires 0 < |list| <= 64
    ensures var added := DrawnSizes(g, from, more);
            && Patch(list, g.Skip(from)) == list + added && |list| + more <= 64
            && (more > 0 ==> list[|list| - 1] < 1300 && forall i :: 0 <= i < more - 1 ==> added[i] < 1300)
            && (|list| + more < 64 ==> (if more == 0 then list[|list| - 1] else added[more - 1]) >= 1300)
    decreases 64 - |list|
  {
    hide Rng.Advance, Rng.Output;
    more := 0;
    assert list + DrawnSizes(g, from, 0) == list;
    if list[|list| - 1] < 1300 && |list| < 64 {
      var x := Drawn(g, from) % 2340 % 2040 % 1440;
      assert g.Skip(from + 1) == g.Skip(from).Advance();
      var rest := PatchIs(list + [x], g, from + 1);
      more := rest + 1;
      var added, later := DrawnSizes(g, from, more), DrawnSizes(g, from + 1, rest);
      assert added == [x] + later;
      assert list + [x] + later == list + added;
    }
  }

  // ----- padding lengths

  /** The listed sizes that hold `size` bytes. */
  function Fitting(list: seq<nat>, size: nat): (r: seq<nat>) {
    if list == [] then []
    else if size <= list[0] then [list[0]] + Fitting(list[1..], size)
    else Fitting(list[1..], size)
  }

  lemma {:induction false} FittingIsRest(list: seq<nat>, size: nat)
    requires Sorted(list)
    ensures Fitting(list, size) == list[BisectLeft(list, size)..]
    decreases |list|
  {
    var p := BisectLeft(list, size);
    if list != [] && size > list[0] {
      var rest := list[1..];
      FittingIsRest(rest, size);
      assert p == 1 + BisectLeft(rest, size) && rest[p - 1..] == list[p..];
    } else {
      assert p == 0 && list[0..] == list;
      AllFit(list, size);
    }
  }

  lemma {:induction false} AllFit(list: seq<nat>, size: nat)
    requires forall i :: 0 <= i < |list| ==> size <= list[i]
    ensures Fitting(list, size) == list
    decreases |list|
  {
    if list != [] {
      AllFit(list[1..], size);
      assert list == [list[0]] + list[1..];
    }
  }

  /** The drawn length of a frame that no list serves: the smaller, the larger the frame. */
  function Unlisted(size: nat, drawn: nat): nat {
    if size > 1300 then drawn % 31 else if size > 900 then drawn % 127 else if size > 400 then drawn % 521 else drawn % 1021
  }

  /** Variant a: nothing above 1440 bytes, and otherwise the first number drawn from hash and length. */
  lemma {:induction false} LengthA(t: Tables, overhead: nat, n: Word16, hash: Bytes)
    requires Ready(A, t)
    ensures PadLen(A, t, overhead, n, hash) == if n > 1440 then 0 else Unlisted(n, Drawn(Rng.FromBinLen(hash, n), 0))
  {
    hide Rng.Advance, Rng.Output, Rng.FromBinLen;
  }

  /** Variants c and d: among the sizes that fit, the one that the first number drawn points at. If none fits, d
      pads nothing, and c as variant a does, up to 1439 bytes. */
  lemma {:induction false} LengthsCD(t: Tables, overhead: nat, n: Word16, hash: Bytes)
    requires Ready(C, t) && Ready(D, t)
    ensures var size, fit, drawn := n + overhead, Fitting(t.list0, n + overhead), Drawn(Rng.FromBinLen(hash, n), 0);
            var last := t.list0[|t.list0| - 1];
            && (size < last ==>
                  && fit != [] && size + PadLen(C, t, overhead, n, hash) == fit[drawn % |fit|]
                  && size + PadLen(D, t, overhead, n, hash) == fit[drawn % |fit|])
            && (size >= last ==>
                  && PadLen(C, t, overhead, n, hash) == (if size >= 1440 then 0 else Unlisted(size, drawn))
                  && PadLen(D, t, overhead, n, hash) == 0)
  {
    hide Rng.Advance, Rng.Output, Rng.FromBinLen;
    FittingIsRest(t.list0, n + overhead);
  }

  /** Variant e: the smallest size that fits, or nothing. */
  lemma {:induction false} LengthE(t: Tables, overhead: nat, n: Word16, hash: Bytes)
    requires Ready(E, t)
    ensures var size, fit := n + overhead, Fitting(t.list0, n + overhead);
            if size < t.list0[|t.list0| - 1] then fit != [] && size + PadLen(E, t, overhead, n, hash) == fit[0]
            else PadLen(E, t, overhead, n, hash) == 0
  {
    hide Rng.Advance, Rng.Output, Rng.FromBinLen;
    FittingIsRest(t.list0, n + overhead);
  }

  /** Variant b: a fitting size of the first list if the first number drawn points at one, else one of the second
      list if the next number does, else nothing, except for one value in as many as the second list is long,
      which is served as in variant a by the third number. */
  lemma {:induction false} LengthB(t: Tables, overhead: nat, n: Word16, hash: Bytes)
    requires Ready(B, t)
    ensures n >= 1440 ==> PadLen(B, t, overhead, n, hash) == 0
    ensures n < 1440 ==>
              var size, g := n + overhead, Rng.FromBinLen(hash, n);
              var fit1, fit2 := Fitting(t.list1, size), Fitting(t.list2, size);
              var i, j := Drawn(g, 0) % |t.list1|, Drawn(g, 1) % |t.list2|;
              var len := PadLen(B, t, overhead, n, hash);
              if i < |fit1| then size + len == fit1[i]
              else if j < |fit2| then size + len == fit2[j]
              else if j < |t.list2| - 1 then len == 0
              else len == Unlisted(n, Drawn(g, 2))
  {
    hide Rng.Advance, Rng.Output, Rng.FromBinLen;
    var g := Rng.FromBinLen(hash, n);
    assert g.Skip(0) == g && g.Skip(1) == g.Advance() && g.Skip(2) == g.Advance().Advance();
    FittingIsRest(t.list1, n + overhead);
    FittingIsRest(t.list2, n + overhead);
  }

  /** The payload starts where the next number drawn points, within the padding. */
  lemma {:induction false} StartsAre(overhead: nat, t: Tables, n: Word16, hash: Bytes)
    ensures Ready(A, t) && n <= 1440 && PadLen(A, t, overhead, n, hash) > 0 ==>
              PadStart(A, t, overhead, n, hash) ==
              Drawn(Rng.FromBinLen(hash, n), 1) % 8589934609 % PadLen(A, t, overhead, n, hash)
    ensures Ready(D, t) && PadLen(D, t, overhead, n, hash) > 0 ==>
              PadStart(D, t, overhead, n, hash) ==
              Drawn(Rng.FromBinLen(hash, n), 1) % 8589934609 % PadLen(D, t, overhead, n, hash)
    ensures Ready(C, t) && PadLen(C, t, overhead, n, hash) > 0 ==>
              PadStart(C, t, overhead, n, hash) ==
              Drawn(Rng.FromBinLen(hash, n), 1) % 8589934609 % PadLen(C, t, overhead, n, hash)
    ensures Ready(E, t) && PadLen(E, t, overhead, n, hash) > 0 ==>
              PadStart(E, t, overhead, n, hash) ==
              Drawn(Rng.FromBinLen(hash, n), 0) % 8589934609 % PadLen(E, t, overhead, n, hash)
  {
    hide Rng.Advance, Rng.Output, Rng.FromBinLen;
    var g := Rng.FromBinLen(hash, n);
    assert g.Skip(0) == g && g.Skip(1) == g.Advance();
  }
}
