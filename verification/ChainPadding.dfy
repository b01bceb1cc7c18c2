/**
  Padding of the auth_chain protocols: the shared generator, the per-key size tables, and the
  padding length and payload position that both ends must draw identically.
*/
module ChainPadding {
  import opened Binary

  // ----- xorshift128+

  /** x ^ (x & mov_mask) << 23 */
  function MixLeft(x: Word64): Word64 {
    Xor64(x, x % 0x200_0000_0000 * 0x80_0000)
  }

  /** x ^ y ^ (x >> 17) ^ (y >> 26) */
  function MixRight(x: Word64, y: Word64): Word64 {
    Xor64(x, Xor64(Xor64(y, x / 0x2_0000), y / 0x400_0000))
  }

  function Padded16(bin: Bytes): (r: Bytes)
    ensures |r| >= 16
  {
    if |bin| < 16 then bin + seq(16, _ => 0) else bin
  }

  /** The generator's two words. */
  datatype Rng = Rng(v0: Word64, v1: Word64) {

    function Mixed(): Word64 {
      MixRight(MixLeft(v0), v1)
    }

    /** The state after one draw. */
    function Advance(): Rng {
      Rng(v1, Mixed())
    }

    /** The value of one draw. */
    function Output(): nat {
      (Mixed() as int + v1 as int) % 0x1_0000_0000_0000_0000
    }

    static function FromBin(bin: Bytes): Rng {
      var b := Padded16(bin);
      Rng(U64le(b[..8]), U64le(b[8..16]))
    }

    static function FromBinLen(bin: Bytes, length: Word16): Rng {
      var b := Padded16(bin);
      Rng(U64le(Le16(length) + b[2..8]), U64le(b[8..16])).Skip(4)
    }

    /** The state after `k` draws. */
    function Skip(k: nat): Rng {
      if k == 0 then this else Skip(k - 1).Advance()
    }
  }

  class XorShift128Plus {
    var v0: Word64
    var v1: Word64

    constructor ()
      ensures State() == Rng(0, 0)
    {
      v0, v1 := 0, 0;
    }

    function State(): Rng
      reads this
    {
      Rng(v0, v1)
    }

    method Next() returns (n: nat)
      modifies this
      ensures n == old(State()).Output() && State() == old(State()).Advance()
    {
      var x := v0;
      var y := v1;
      v0 := y;
      x := MixLeft(x);
      x := MixRight(x, y);
      v1 := x;
      n := (x as int + y as int) % 0x1_0000_0000_0000_0000;
    }

    method InitFromBin(bin: Bytes)
      modifies this
      ensures State() == Rng.FromBin(bin)
    {
      var b := Padded16(bin);
      v0 := U64le(b[..8]);
      v1 := U64le(b[8..16]);
    }

    method InitFromBinLen(bin: Bytes, length: Word16)
      modifies this
      ensures State() == Rng.FromBinLen(bin, length)
    {
      var b := Padded16(bin);
      v0 := U64le(Le16(length) + b[2..8]);
      v1 := U64le(b[8..16]);
      ghost var start := State();
      for i := 0 to 4
        invariant State() == start.Skip(i)
      {
        var _ := Next();
      }
    }
  }

  // ----- size tables

  /** The five variants of the protocol whose tables depend on the key alone. */
  datatype Kind = A | B | C | D | E

  ghost predicate Sorted(s: seq<nat>) {
    forall i, j :: 0 <= i < j < |s| ==> s[i] <= s[j]
  }

  /** Index of the first entry of a sorted list that is not below `x`. */
  function BisectLeft(s: seq<nat>, x: nat): (p: nat)
    requires Sorted(s)
    ensures p <= |s|
    ensures forall i :: 0 <= i < p ==> s[i] < x
    ensures forall i :: p <= i < |s| ==> x <= s[i]
  {
    if s == [] || x <= s[0] then 0 else 1 + BisectLeft(s[1..], x)
  }

  function Insert(x: nat, s: seq<nat>): (r: seq<nat>)
    requires Sorted(s)
    ensures Sorted(r) && |r| == |s| + 1
  {
    var p := BisectLeft(s, x);
    s[..p] + [x] + s[p..]
  }

  lemma {:induction false} InsertContents(x: nat, s: seq<nat>)
    requires Sorted(s)
    ensures multiset(Insert(x, s)) == multiset{x} + multiset(s)
  {
    var p := BisectLeft(s, x);
    assert s == s[..p] + s[p..];
  }

  function Sort(s: seq<nat>): (r: seq<nat>)
    ensures Sorted(r) && |r| == |s|
  {
    if s == [] then [] else Insert(s[0], Sort(s[1..]))
  }

  /** Sorting reorders the list and changes nothing else. */
  lemma {:induction false} SortContents(s: seq<nat>)
    ensures multiset(Sort(s)) == multiset(s)
  {
    if s != [] {
      SortContents(s[1..]);
      InsertContents(s[0], Sort(s[1..]));
      assert s == [s[0]] + s[1..];
    }
  }

  lemma {:induction false} SortMembers(s: seq<nat>, x: nat)
    ensures x in Sort(s) <==> x in s
  {
    SortContents(s);
    assert x in Sort(s) <==> x in multiset(Sort(s));
    assert x in s <==> x in multiset(s);
  }

  const SIZE_LIMIT := 1440

  /** One table entry. */
  function SizeFrom(n: nat): (r: nat)
    ensures r < SIZE_LIMIT
  {
    n % 2340 % 2040 % SIZE_LIMIT
  }

  /** `count` table entries drawn from `g`, in drawing order. */
  function Sizes(count: nat, g: Rng): (r: seq<nat>)
    ensures |r| == count && Small(r)
  {
    if count == 0 then [] else [SizeFrom(g.Output())] + Sizes(count - 1, g.Advance())
  }

  lemma {:induction false} SizesSplit(a: nat, b: nat, g: Rng)
    ensures Sizes(a + b, g) == Sizes(a, g) + Sizes(b, g.Skip(a))
  {
    hide Rng.Advance, Rng.Output, Rng.FromBin, Rng.FromBinLen;
    if a > 0 {
      var first, g' := [SizeFrom(g.Output())], g.Advance();
      SizesSplit(a - 1, b, g');
      SkipAdvance(g, a - 1);
      calc {
        Sizes(a + b, g);
        first + Sizes(a - 1 + b, g');
        first + (Sizes(a - 1, g') + Sizes(b, g'.Skip(a - 1)));
        first + Sizes(a - 1, g') + Sizes(b, g'.Skip(a - 1));
        Sizes(a, g) + Sizes(b, g.Skip(a));
      }
    }
  }

  lemma {:induction false} SkipAdvance(g: Rng, k: nat)
    ensures g.Advance().Skip(k) == g.Skip(k + 1)
  {
    hide Rng.Advance, Rng.Output, Rng.FromBinLen;
    if k > 0 {
      SkipAdvance(g, k - 1);
    }
  }

  const PATCH_LIMIT := 64

  /** The list of variants d and e, extended until its last entry is large or the list is full. */
  function Patch(list: seq<nat>, g: Rng): (r: seq<nat>)
    requires list != []
    ensures list <= r
    decreases PATCH_LIMIT - |list|
  {
    if list[|list| - 1] < 1300 && |list| < PATCH_LIMIT
    then Patch(list + [SizeFrom(g.Output())], g.Advance())
    else list
  }

  /** Patching ends with a large last entry or a full list, and never exceeds the limit. */
  lemma {:induction false} PatchEnds(list: seq<nat>, g: Rng)
    requires 0 < |list| <= PATCH_LIMIT && Small(list)
    ensures var r := Patch(list, g);
            Small(r) && |r| <= PATCH_LIMIT && (r[|r| - 1] >= 1300 || |r| == PATCH_LIMIT)
    decreases PATCH_LIMIT - |list|
  {
    hide Rng.Advance, Rng.Output;
    if list[|list| - 1] < 1300 && |list| < PATCH_LIMIT {
      PatchEnds(list + [SizeFrom(g.Output())], g.Advance());
    }
  }

  datatype Tables = Tables(list0: seq<nat>, list1: seq<nat>, list2: seq<nat>)

  ghost predicate Usable(s: seq<nat>) {
    s != [] && Sorted(s) && Small(s)
  }

  /** What a variant's tables must satisfy for its padding length to be defined. */
  ghost predicate Ready(kind: Kind, t: Tables) {
    match kind
    case A => true
    case B => Usable(t.list1) && Usable(t.list2)
    case _ => Usable(t.list0)
  }

  ghost predicate Small(s: seq<nat>) {
    forall i :: 0 <= i < |s| ==> s[i] < SIZE_LIMIT
  }

  lemma {:induction false} SortedSizes(s: seq<nat>)
    requires s != [] && Small(s)
    ensures Usable(Sort(s))
  {
    forall i | 0 <= i < |s|
      ensures Sort(s)[i] < SIZE_LIMIT
    {
      SortMembers(s, Sort(s)[i]);
    }
  }

  /** The list of variant c, and the start of the list of variants d and e. */
  function List0(g: Rng): (r: seq<nat>)
    ensures 12 <= |r| < 36 && Usable(r)
  {
    var s := Sizes(g.Output() % 24 + 12, g.Advance());
    SortedSizes(s);
    Sort(s)
  }

  /** The list of variants d and e. */
  function PatchedList0(g: Rng): (r: seq<nat>) {
    Sort(Patch(List0(g), g.Advance().Skip(g.Output() % 24 + 12)))
  }

  lemma {:induction false} PatchedList0Usable(g: Rng)
    ensures var r := PatchedList0(g);
            Usable(r) && 12 <= |r| <= PATCH_LIMIT && (r[|r| - 1] >= 1300 || |r| == PATCH_LIMIT)
  {
    hide Rng.Advance, Rng.Output, Rng.Skip, List0, Sort, Patch;
    var list, g' := List0(g), g.Advance().Skip(g.Output() % 24 + 12);
    var p := Patch(list, g');
    PatchEnds(list, g');
    SortedSizes(p);
    var last := p[|p| - 1];
    SortMembers(p, last);
    var i :| 0 <= i < |p| && Sort(p)[i] == last;
    assert last <= Sort(p)[|p| - 1];
  }

  /** The tables a key determines. */
  function InitTables(kind: Kind, key: Bytes): (t: Tables)
    ensures Ready(kind, t)
    ensures kind.B? ==> 4 <= |t.list1| < 12 && 8 <= |t.list2| < 24
  {
    var g := Rng.FromBin(key);
    match kind
    case A => Tables([], [], [])
    case B =>
      var n1 := g.Output() % 8 + 4;
      var g1 := g.Advance().Skip(n1);
      var n2 := g1.Output() % 16 + 8;
      var s1, s2 := Sizes(n1, g.Advance()), Sizes(n2, g1.Advance());
      SortedSizes(s1);
      SortedSizes(s2);
      Tables([], Sort(s1), Sort(s2))
    case C => Tables(List0(g), [], [])
    case _ =>
      PatchedList0Usable(g);
      Tables(PatchedList0(g), [], [])
  }

  // ----- the padding length of a frame

  /** A drawn padding length, with the generator state left behind. */
  datatype Draw = Draw(len: nat, rng: Rng)

  function ByLength(n: nat, g: Rng): Draw {
    Draw(if n > 1300 then g.Output() % 31
         else if n > 900 then g.Output() % 127
         else if n > 400 then g.Output() % 521
         else g.Output() % 1021, g.Advance())
  }

  function RndDataLen(kind: Kind, t: Tables, overhead: nat, n: Word16, hash: Bytes, g: Rng): Draw
    requires Ready(kind, t)
  {
    var seeded := Rng.FromBinLen(hash, n);
    match kind
    case A => if n > 1440 then Draw(0, g) else ByLength(n, seeded)
    case B => if n >= 1440 then Draw(0, g) else RndDataLenB(t, overhead, n, seeded)
    case C => RndDataLenC(t.list0, overhead, n, seeded)
    case D =>
      if n + overhead >= t.list0[|t.list0| - 1] then Draw(0, g)
      else PickAtLeast(t.list0, n + overhead, seeded)
    case E =>
      if n + overhead >= t.list0[|t.list0| - 1] then Draw(0, seeded)
      else Draw(t.list0[BisectLeft(t.list0, n + overhead)] - (n + overhead), seeded)
  }

  /** Pad to an entry drawn among those that are large enough. */
  function PickAtLeast(list: seq<nat>, size: nat, g: Rng): Draw
    requires Usable(list) && size < list[|list| - 1]
  {
    var pos := BisectLeft(list, size);
    Draw(list[pos + g.Output() % (|list| - pos)] - size, g.Advance())
  }

  function RndDataLenC(list: seq<nat>, overhead: nat, n: Word16, g: Rng): Draw
    requires Usable(list)
  {
    var size := n + overhead;
    if size < list[|list| - 1] then PickAtLeast(list, size, g)
    else if size >= 1440 then Draw(0, g)
    else ByLength(size, g)
  }

  function RndDataLenB(t: Tables, overhead: nat, n: Word16, g: Rng): Draw
    requires Ready(B, t) && n < 1440
  {
    var size := n + overhead;
    var at1 := BisectLeft(t.list1, size) + g.Output() % |t.list1|;
    if at1 < |t.list1| then Draw(t.list1[at1] - n - overhead, g.Advance())
    else RndDataLenB2(t.list2, overhead, n, g.Advance())
  }

  function RndDataLenB2(list: seq<nat>, overhead: nat, n: Word16, g: Rng): Draw
    requires Usable(list) && n < 1440
  {
    var pos := BisectLeft(list, n + overhead);
    var at := pos + g.Output() % |list|;
    if at < |list| then Draw(list[at] - n - overhead, g.Advance())
    else if at < pos + |list| - 1 then Draw(0, g.Advance())
    else ByLength(n, g.Advance())
  }

  /** Where the payload starts inside the padding. */
  function RndStartPos(padding: nat, g: Rng): (pos: nat)
    ensures padding > 0 ==> pos < padding
  {
    if padding > 0 then g.Output() % 8589934609 % padding else 0
  }

  /** What both ends must agree on: padding length and payload position, from the size and the last hash. */
  function PadLen(kind: Kind, t: Tables, overhead: nat, n: Word16, hash: Bytes): nat
    requires Ready(kind, t)
  {
    RndDataLen(kind, t, overhead, n, hash, Rng(0, 0)).len
  }

  function PadStart(kind: Kind, t: Tables, overhead: nat, n: Word16, hash: Bytes): (pos: nat)
    requires Ready(kind, t)
    ensures PadLen(kind, t, overhead, n, hash) > 0 ==> pos < PadLen(kind, t, overhead, n, hash)
  {
    var draw := RndDataLen(kind, t, overhead, n, hash, Rng(0, 0));
    RndStartPos(draw.len, draw.rng)
  }

  /** The generator is reseeded by every draw that matters: what it did before, for example for a
      frame that has only partly arrived, never changes the padding length or the payload position. */
  lemma {:induction false} DrawIgnoresHistory(kind: Kind, t: Tables, overhead: nat, n: Word16, hash: Bytes, g: Rng)
    requires Ready(kind, t)
    ensures var draw := RndDataLen(kind, t, overhead, n, hash, g);
            && draw.len == PadLen(kind, t, overhead, n, hash)
            && (draw.len > 0 ==>
                  RndStartPos(draw.len, draw.rng) == PadStart(kind, t, overhead, n, hash))
  {
    hide Rng.Advance, Rng.Output, Rng.FromBinLen;
  }

  const FRAME_LIMIT := 4096

  /** Padding alone never makes a frame oversize: only the payload can. */
  lemma {:induction false} PaddingStaysInFrame(kind: Kind, t: Tables, overhead: nat, n: Word16, hash: Bytes)
    requires Ready(kind, t)
    ensures n + PadLen(kind, t, overhead, n, hash) >= FRAME_LIMIT <==> n >= FRAME_LIMIT
  {
    hide Rng.Advance, Rng.Output, Rng.FromBinLen;
  }

  /** Variants c and d pad to a listed size, and e to the smallest listed size that fits. */
  lemma {:induction false} PadsToListedSize(kind: Kind, t: Tables, overhead: nat, n: Word16, hash: Bytes)
    requires kind.C? || kind.D? || kind.E?
    requires Ready(kind, t) && n + overhead < t.list0[|t.list0| - 1]
    ensures var size := n + overhead + PadLen(kind, t, overhead, n, hash);
            && size in t.list0
            && (kind.E? ==> forall x :: x in t.list0 && n + overhead <= x ==> size <= x)
  {
    hide Rng.Advance, Rng.Output, Rng.FromBinLen;
    if kind.E? {
      var p := BisectLeft(t.list0, n + overhead);
      forall x | x in t.list0 && n + overhead <= x
        ensures t.list0[p] <= x
      {
        var i :| 0 <= i < |t.list0| && t.list0[i] == x;
      }
    }
  }

  lemma {:induction false} SortIdempotent(s: seq<nat>)
    requires Sorted(s)
    ensures Sort(s) == s
  {
    if s != [] {
      SortIdempotent(s[1..]);
      assert BisectLeft(s[1..], s[0]) == 0;
    }
  }

  /** The padding part of a protocol object: the tables, and drawing from a generator. */
  class Padding {
    const kind: Kind
    const overhead: nat
    var list0: seq<nat>
    var list1: seq<nat>
    var list2: seq<nat>

    constructor (kind: Kind, overhead: nat, key: Bytes)
      ensures this.kind == kind && this.overhead == overhead
      ensures Lists() == InitTables(kind, key) && Ready(kind, Lists())
    {
      this.kind, this.overhead := kind, overhead;
      list0, list1, list2 := [], [], [];
      new;
      InitDataSize(key);
    }

    function Lists(): Tables
      reads this
    {
      Tables(list0, list1, list2)
    }

    static method DrawSizes(count: nat, random: XorShift128Plus) returns (list: seq<nat>)
      modifies random
      ensures list == Sort(Sizes(count, old(random.State())))
      ensures random.State() == old(random.State()).Skip(count)
    {
      hide Rng.Advance, Rng.Output, Rng.FromBin, Rng.FromBinLen;
      ghost var start := random.State();
      list := [];
      for i := 0 to count
        invariant list == Sizes(i, start) && random.State() == start.Skip(i)
      {
        var n := random.Next();
        SizesSplit(i, 1, start);
        assert Sizes(1, start.Skip(i)) == [SizeFrom(n)];
        list := list + [SizeFrom(n)];
      }
      list := Sort(list);
    }

    method CheckAndPatchDataSize(random: XorShift128Plus)
      requires list0 != []
      modifies this`list0, random
      ensures list0 == Patch(old(list0), old(random.State()))
      decreases PATCH_LIMIT - |list0|
    {
      hide Rng.Advance, Rng.Output, Rng.FromBin, Rng.FromBinLen;
      if list0[|list0| - 1] < 1300 && |list0| < PATCH_LIMIT {
        var n := random.Next();
        list0 := list0 + [SizeFrom(n)];
        CheckAndPatchDataSize(random);
      }
    }

    method InitDataSize(key: Bytes)
      requires kind == A ==> Lists() == Tables([], [], [])
      requires kind == B ==> list0 == []
      requires kind != B ==> list1 == [] && list2 == []
      modifies this
      ensures Lists() == InitTables(kind, key)
    {
      hide Rng.Advance, Rng.Output, Rng.FromBin, Rng.FromBinLen;
      var random := new XorShift128Plus();
      random.InitFromBin(key);
      if kind == B {
        var n := random.Next();
        list1 := DrawSizes(n % 8 + 4, random);
        n := random.Next();
        list2 := DrawSizes(n % 16 + 8, random);
      } else if kind != A {
        InitList0(random);
      }
    }

    /** Variants c, d and e; d and e extend the list and sort it again if that changed it. */
    method InitList0(random: XorShift128Plus)
      requires kind != A && kind != B
      modifies this`list0, random
      ensures var g := old(random.State()); list0 == if kind == C then List0(g) else PatchedList0(g)
    {
      hide Rng.Advance, Rng.Output, Sizes, Patch, Insert;
      var n := random.Next();
      list0 := DrawSizes(n % 24 + 12, random);
      if kind != C {
        var oldLen := |list0|;
        ghost var before := list0;
        CheckAndPatchDataSize(random);
        if oldLen != |list0| {
          list0 := Sort(list0);
        } else {
          assert list0 == before;
          SortIdempotent(list0);
        }
      }
    }

    method DrawLength(n: Word16, hash: Bytes, random: XorShift128Plus) returns (len: nat)
      requires Ready(kind, Lists())
      modifies random
      ensures Draw(len, random.State()) == RndDataLen(kind, Lists(), overhead, n, hash, old(random.State()))
    {
      hide Rng.Advance, Rng.Output, Rng.FromBin, Rng.FromBinLen;
      if kind == A {
        if n > 1440 {
          return 0;
        }
        random.InitFromBinLen(hash, n);
        len := DrawByLength(n, random);
      } else if kind == B {
        if n >= 1440 {
          return 0;
        }
        random.InitFromBinLen(hash, n);
        len := DrawLengthB(n, random);
      } else if kind == D {
        if n + overhead >= list0[|list0| - 1] {
          return 0;
        }
        random.InitFromBinLen(hash, n);
        len := DrawAtLeast(n + overhead, random);
      } else {
        random.InitFromBinLen(hash, n);
        if kind == C {
          len := DrawLengthC(n, random);
        } else if n + overhead >= list0[|list0| - 1] {
          len := 0;
        } else {
          len := list0[BisectLeft(list0, n + overhead)] - (n + overhead);
        }
      }
    }

    method DrawAtLeast(size: nat, random: XorShift128Plus) returns (len: nat)
      requires Usable(list0) && size < list0[|list0| - 1]
      modifies random
      ensures Draw(len, random.State()) == PickAtLeast(list0, size, old(random.State()))
    {
      hide Rng.Advance, Rng.Output, Rng.FromBin, Rng.FromBinLen;
      var pos := BisectLeft(list0, size);
      var n := random.Next();
      len := list0[pos + n % (|list0| - pos)] - size;
    }

    static method DrawByLength(n: nat, random: XorShift128Plus) returns (len: nat)
      modifies random
      ensures Draw(len, random.State()) == ByLength(n, old(random.State()))
    {
      hide Rng.Advance, Rng.Output, Rng.FromBin, Rng.FromBinLen;
      var x := random.Next();
      len := if n > 1300 then x % 31 else if n > 900 then x % 127 else if n > 400 then x % 521 else x % 1021;
    }

    method DrawLengthC(n: Word16, random: XorShift128Plus) returns (len: nat)
      requires Usable(list0)
      modifies random
      ensures Draw(len, random.State()) == RndDataLenC(list0, overhead, n, old(random.State()))
    {
      hide Rng.Advance, Rng.Output, Rng.FromBin, Rng.FromBinLen;
      var size := n + overhead;
      if size >= list0[|list0| - 1] {
        if size >= 1440 {
          return 0;
        }
        len := DrawByLength(size, random);
      } else {
        len := DrawAtLeast(size, random);
      }
    }

    method DrawLengthB(n: Word16, random: XorShift128Plus) returns (len: nat)
      requires Ready(B, Lists()) && n < 1440
      modifies random
      ensures Draw(len, random.State()) == RndDataLenB(Lists(), overhead, n, old(random.State()))
    {
      hide Rng.Advance, Rng.Output, Rng.FromBin, Rng.FromBinLen;
      var pos := BisectLeft(list1, n + overhead);
      var x := random.Next();
      var finalPos := pos + x % |list1|;
      if finalPos < |list1| {
        return list1[finalPos] - n - overhead;
      }
      pos := BisectLeft(list2, n + overhead);
      x := random.Next();
      finalPos := pos + x % |list2|;
      if finalPos < |list2| {
        return list2[finalPos] - n - overhead;
      }
      if finalPos < pos + |list2| - 1 {
        return 0;
      }
      len := DrawByLength(n, random);
    }

    /** The payload position; the object's tables play no part. */
    static method DrawStart(padding: nat, random: XorShift128Plus) returns (pos: nat)
      modifies random
      ensures pos == RndStartPos(padding, old(random.State()))
    {
      hide Rng.Advance, Rng.Output, Rng.FromBin, Rng.FromBinLen;
      if padding > 0 {
        var x := random.Next();
        return x % 8589934609 % padding;
      }
      return 0;
    }
  }
}
