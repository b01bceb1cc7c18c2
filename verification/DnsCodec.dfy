/**
  DNS names: the encoder of queries and the decoder of names with compression pointers
  (sections 3.1 and 4.1.4 of RFC 1035).
*/
module DnsCodec {
  import opened Binary
  import opened Containers

  const DOT: Byte := 46

  // ----- dotted text

  /** bytes.split(b'.') */
  function Split(s: Bytes): (r: seq<Bytes>)
    ensures r != []
  {
    if s == [] then [[]]
    else if s[0] == DOT then [[]] + Split(s[1..])
    else
      var rest := Split(s[1..]);
      [[s[0]] + rest[0]] + rest[1..]
  }

  /** b'.'.join(labels) */
  function Dotted(labels: seq<Bytes>): Bytes {
    if labels == [] then []
    else if |labels| == 1 then labels[0]
    else labels[0] + [DOT] + Dotted(labels[1..])
  }

  lemma {:induction false} DottedSplit(s: Bytes)
    ensures Dotted(Split(s)) == s
    decreases |s|
  {
    if s != [] {
      DottedSplit(s[1..]);
      var rest, all := Split(s[1..]), Split(s);
      if s[0] == DOT {
        assert all[1..] == rest;
        assert s == [] + [DOT] + s[1..];
      } else {
        assert all[1..] == rest[1..];
        if |rest| == 1 {
          assert s == [s[0]] + s[1..];
        } else {
          assert [s[0]] + rest[0] + [DOT] + Dotted(rest[1..]) == [s[0]] + (rest[0] + [DOT] + Dotted(rest[1..]));
        }
      }
    }
  }

  lemma {:induction false} SplitOne(l: Bytes)
    requires DOT !in l
    ensures Split(l) == [l]
    decreases |l|
  {
    if l != [] {
      SplitOne(l[1..]);
      assert l == [l[0]] + l[1..];
    }
  }

  lemma {:induction false} SplitFirst(l: Bytes, tail: Bytes)
    requires DOT !in l
    ensures Split(l + [DOT] + tail) == [l] + Split(tail)
    decreases |l|
  {
    var s := l + [DOT] + tail;
    if l == [] {
      assert s == [DOT] + tail;
      assert s[1..] == tail;
    } else {
      SplitFirst(l[1..], tail);
      assert s[1..] == l[1..] + [DOT] + tail;
      var rest := Split(s[1..]);
      assert rest == [l[1..]] + Split(tail);
      assert rest[1..] == Split(tail);
      assert l == [l[0]] + l[1..];
    }
  }

  ghost predicate DotFree(labels: seq<Bytes>) {
    forall i :: 0 <= i < |labels| ==> DOT !in labels[i]
  }

  lemma {:induction false} SplitDotted(labels: seq<Bytes>)
    requires labels != [] && DotFree(labels)
    ensures Split(Dotted(labels)) == labels
    decreases |labels|
  {
    if |labels| == 1 {
      SplitOne(labels[0]);
    } else {
      SplitDotted(labels[1..]);
      SplitFirst(labels[0], Dotted(labels[1..]));
    }
  }

  lemma {:induction false} SplitIsDotFree(s: Bytes)
    ensures DotFree(Split(s))
    decreases |s|
  {
    if s != [] {
      SplitIsDotFree(s[1..]);
    }
  }

  // ----- encoding

  /** bytes.strip(b'.') */
  function Strip(s: Bytes): Bytes {
    StripRight(StripLeft(s))
  }

  function StripLeft(s: Bytes): Bytes {
    if s != [] && s[0] == DOT then StripLeft(s[1..]) else s
  }

  function StripRight(s: Bytes): Bytes {
    if s != [] && s[|s| - 1] == DOT then StripRight(s[..|s| - 1]) else s
  }

  ghost predicate Dots(s: Bytes) {
    forall i :: 0 <= i < |s| ==> s[i] == '.' as int
  }

  /** What is left has no dot at either end, and only dots were taken off. */
  lemma {:induction false} StripExactly(s: Bytes) returns (before: Bytes, after: Bytes)
    ensures Dots(before) && Dots(after) && s == before + Strip(s) + after
    ensures Strip(s) != [] ==> Strip(s)[0] != '.' as int && Strip(s)[|Strip(s)| - 1] != '.' as int
  {
    before := StripLeftExactly(s);
    var t := StripLeft(s);
    after := StripRightExactly(t);
    assert before + (Strip(s) + after) == before + Strip(s) + after;
    if Strip(s) != [] {
      assert Strip(s)[0] == t[0];
    }
  }

  lemma {:induction false} StripLeftExactly(s: Bytes) returns (before: Bytes)
    ensures Dots(before) && s == before + StripLeft(s)
    ensures StripLeft(s) != [] ==> StripLeft(s)[0] != '.' as int
    decreases |s|
  {
    before := [];
    if s != [] && s[0] == DOT {
      var rest := StripLeftExactly(s[1..]);
      before := [s[0]] + rest;
      assert s == [s[0]] + s[1..];
    }
  }

  lemma {:induction false} StripRightExactly(s: Bytes) returns (after: Bytes)
    ensures Dots(after) && s == StripRight(s) + after
    ensures StripRight(s) != [] ==> StripRight(s)[|StripRight(s)| - 1] != '.' as int
    decreases |s|
  {
    after := [];
    var n := |s| - 1;
    if s != [] && s[n] == DOT {
      var rest := StripRightExactly(s[..n]);
      after := rest + [s[n]];
      assert s == s[..n] + [s[n]];
    }
  }

  ghost predicate Short(labels: seq<Bytes>) {
    forall i :: 0 <= i < |labels| ==> |labels[i]| <= 63
  }

  /** Every label preceded by its length, and a zero at the end. */
  function Encoded(labels: seq<Bytes>): (r: Bytes)
    requires Short(labels)
    ensures |r| >= 1
  {
    if labels == [] then [0] else [|labels[0]|] + labels[0] + Encoded(labels[1..])
  }

  /** What the loop has written after `i` labels. */
  function Written(labels: seq<Bytes>, i: nat): Bytes
    requires i <= |labels| && Short(labels[..i])
  {
    if i == 0 then [] else
      assert labels[..i][i - 1] == labels[i - 1] && Short(labels[..i - 1]) by {
        assert forall k :: 0 <= k < i ==> labels[..i][k] == labels[k];
      }
      Written(labels, i - 1) + [|labels[i - 1]|] + labels[i - 1]
  }

  lemma {:induction false} WrittenEncodes(labels: seq<Bytes>, i: nat)
    requires i <= |labels| && Short(labels)
    ensures Short(labels[..i]) && Short(labels[i..])
    ensures Encoded(labels) == Written(labels, i) + Encoded(labels[i..])
  {
    if i == 0 {
      assert labels[0..] == labels;
    } else {
      WrittenEncodes(labels, i - 1);
      var tail := labels[i - 1..];
      assert tail[1..] == labels[i..] && tail[0] == labels[i - 1];
      var before, l := Written(labels, i - 1), labels[i - 1];
      assert Encoded(tail) == [|l|] + l + Encoded(labels[i..]);
      assert Written(labels, i) == before + [|l|] + l;
      hide Encoded, Written;
      assert before + ([|l|] + l + Encoded(labels[i..])) == before + [|l|] + l + Encoded(labels[i..]);
    }
  }

  /** build_address: no result if a label is longer than 63 bytes. */
  method BuildAddress(address: Bytes) returns (r: Option<Bytes>)
    ensures r.Some? <==> Short(Split(Strip(address)))
    ensures r.Some? ==> r.value == Encoded(Split(Strip(address)))
  {
    hide Split, Strip;
    var labels := Split(Strip(address));
    var results: Bytes := [];
    for i := 0 to |labels|
      invariant Short(labels[..i])
      invariant results == Written(labels, i)
    {
      var piece := labels[i];
      if |piece| > 63 {
        return None;
      }
      assert labels[..i + 1] == labels[..i] + [piece];
      results := results + [|piece|] + piece;
    }
    assert labels[..|labels|] == labels && labels[|labels|..] == [];
    WrittenEncodes(labels, |labels|);
    assert Encoded([]) == [0];
    r := Some(results + [0]);
  }

  // ----- decoding, as the code does it

  datatype Name = Name(consumed: nat, text: Bytes)

  /** Python's slice, cut off at the end of the data. */
  function Clipped(data: Bytes, from: nat, to: nat): Bytes
    requires from <= to
  {
    if |data| <= from then [] else if |data| < to then data[from..] else data[from..to]
  }

  /** The labels collected from position `p` on, and where the name ends. `depth` is how many more
      recursive calls the interpreter allows; running off the data or out of depth is an exception. */
  function Labels(data: Bytes, p: nat, depth: nat): Option<(seq<Bytes>, nat)>
    decreases depth, |data| - p
  {
    if p >= |data| then None
    else if data[p] == 0 then Some(([], p + 1))
    else if data[p] >= 192 then
      if p + 2 > |data| || depth == 0 then None
      else
        match ParseName(data, U16be(data[p..p + 2]) % 0x4000, depth - 1)
        case None => None
        case Some(name) => Some(([name.text], p + 2))
    else
      match Labels(data, p + 1 + data[p], depth)
      case None => None
      case Some(r) => Some(([Clipped(data, p + 1, p + 1 + data[p])] + r.0, r.1))
  }

  function ParseName(data: Bytes, offset: nat, depth: nat): Option<Name>
    decreases depth, |data| + 1
  {
    match Labels(data, offset, depth)
    case None => None
    case Some(r) => if r.1 >= offset then Some(Name(r.1 - offset, Dotted(r.0))) else None
  }

  lemma {:induction false} LabelsAdvance(data: Bytes, p: nat, depth: nat)
    ensures Labels(data, p, depth).Some? ==> p < Labels(data, p, depth).value.1 <= |data|
    decreases |data| - p
  {
    if p < |data| && 0 < data[p] < 192 {
      LabelsAdvance(data, p + 1 + data[p], depth);
    }
  }

  // ----- decoding, as RFC 1035 means it

  /** The labels of the name at `p`, where the current name or suffix starts at `start`: labels of 1 to 63
      bytes, and pointers only strictly backwards and only to names that have a label. */
  function Resolve(data: Bytes, p: nat, start: nat): Option<(seq<Bytes>, nat)>
    decreases start, |data| - p
  {
    if p >= |data| then None
    else if data[p] == 0 then Some(([], p + 1))
    else if data[p] >= 192 then
      if p + 2 > |data| then None
      else
        var target := U16be(data[p..p + 2]) % 0x4000;
        if target >= start then None
        else
          match Resolve(data, target, target)
          case None => None
          case Some(r) => if r.0 == [] then None else Some((r.0, p + 2))
    else if data[p] > 63 || p + 1 + data[p] > |data| then None
    else
      match Resolve(data, p + 1 + data[p], start)
      case None => None
      case Some(r) => Some(([data[p + 1..p + 1 + data[p]]] + r.0, r.1))
  }

  /** How many pointers are followed to the end of a resolvable name. */
  function Hops(data: Bytes, p: nat, start: nat): (h: nat)
    requires Resolve(data, p, start).Some?
    ensures h <= start
    decreases start, |data| - p
  {
    if data[p] == 0 then 0
    else if data[p] >= 192 then
      var target := U16be(data[p..p + 2]) % 0x4000;
      1 + Hops(data, target, target)
    else Hops(data, p + 1 + data[p], start)
  }

  /** Whatever RFC 1035 can resolve, the code decodes to the same text and the same end, exactly when the
      interpreter allows as many nested calls as there are pointers. */
  lemma {:induction false} LabelsResolve(data: Bytes, p: nat, start: nat, depth: nat)
    requires Resolve(data, p, start).Some?
    ensures p < Resolve(data, p, start).value.1 <= |data|
    ensures Labels(data, p, depth).Some? <==> depth >= Hops(data, p, start)
    ensures Labels(data, p, depth).Some? ==>
              var l, r := Labels(data, p, depth).value, Resolve(data, p, start).value;
              l.1 == r.1 && Dotted(l.0) == Dotted(r.0) && (l.0 == [] <==> r.0 == [])
    decreases start, |data| - p
  {
    if data[p] == 0 {
    } else if data[p] >= 192 {
      var target := U16be(data[p..p + 2]) % 0x4000;
      if depth > 0 {
        LabelsResolve(data, target, target, depth - 1);
      }
    } else {
      var next := p + 1 + data[p];
      LabelsResolve(data, next, start, depth);
      if depth >= Hops(data, p, start) {
        DottedCons(data[p + 1..next], Labels(data, next, depth).value.0, Resolve(data, next, start).value.0);
      }
    }
  }

  lemma {:induction false} DottedCons(piece: Bytes, a: seq<Bytes>, b: seq<Bytes>)
    requires Dotted(a) == Dotted(b) && (a == [] <==> b == [])
    ensures Dotted([piece] + a) == Dotted([piece] + b)
  {
    assert ([piece] + a)[1..] == a && ([piece] + b)[1..] == b;
  }

  lemma {:induction false} PointerAt(data: Bytes, p: nat, target: nat)
    requires target < 0x4000 && p + 2 <= |data|
    requires data[p..p + 2] == [192 + target / 0x100, target % 0x100]
    ensures data[p] >= 192 && U16be(data[p..p + 2]) % 0x4000 == target
  {
    var two := data[p..p + 2];
    assert data[p] == two[0] && data[p + 1] == two[1];
    assert U16be(two) == (192 + target / 0x100) * 0x100 + target % 0x100;
  }

  lemma {:induction false} PointerIsFollowed(data: Bytes, p: nat, start: nat, target: nat)
    requires target < start && p + 2 <= |data| && data[p] >= 192 && U16be(data[p..p + 2]) % 0x4000 == target
    requires Resolve(data, target, target).Some? && Resolve(data, target, target).value.0 != []
    ensures Resolve(data, p, start) == Some((Resolve(data, target, target).value.0, p + 2))
  {
    hide U16be;
  }

  lemma {:induction false} LabelIsPut(data: Bytes, p: nat, start: nat, l: Bytes)
    requires 1 <= |l| <= 63 && p + 1 + |l| <= |data| && data[p] == |l| && data[p + 1..p + 1 + |l|] == l
    requires Resolve(data, p + 1 + |l|, start).Some?
    ensures var r := Resolve(data, p + 1 + |l|, start).value; Resolve(data, p, start) == Some(([l] + r.0, r.1))
  {
  }

  /** Labels in front of a pointer to an earlier name that has labels stand for both together. */
  lemma {:induction false} PointerResolves(data: Bytes, p: nat, start: nat, labels: seq<Bytes>, target: nat)
    requires Proper(labels) && target < start && target < 0x4000
    requires Resolve(data, target, target).Some? && Resolve(data, target, target).value.0 != []
    requires Standing(data, p, labels, [192 + target / 0x100, target % 0x100])
    ensures Resolve(data, p, start).Some?
    ensures Resolve(data, p, start).value.0 == labels + Resolve(data, target, target).value.0
    decreases |labels|
  {
    hide U16be, Resolve;
    var named := Resolve(data, target, target).value.0;
    if labels == [] {
      PointerAt(data, p, target);
      PointerIsFollowed(data, p, start, target);
      assert labels + named == named;
    } else {
      var l, rest := labels[0], labels[1..];
      PointerResolves(data, p + 1 + |l|, start, rest, target);
      LabelIsPut(data, p, start, l);
      assert labels + named == [l] + (rest + named);
    }
  }

  /** At `p` stand these labels, each behind its length, and then `tail`. */
  ghost predicate Standing(data: Bytes, p: nat, labels: seq<Bytes>, tail: Bytes)
    decreases |labels|
  {
    if labels == [] then p + |tail| <= |data| && data[p..p + |tail|] == tail
    else
      var l := labels[0];
      && p + 1 + |l| <= |data| && data[p] == |l| && data[p + 1..p + 1 + |l|] == l
      && Standing(data, p + 1 + |l|, labels[1..], tail)
  }

  /** parse_name returns the name and the number of bytes that RFC 1035 gives it, if and only if the chain
      of pointers is no longer than the recursion allowed; the chain is never longer than the offset. */
  lemma {:induction false} ParseNameResolves(data: Bytes, offset: nat, depth: nat)
    requires Resolve(data, offset, offset).Some?
    ensures offset < Resolve(data, offset, offset).value.1 <= |data|
    ensures Hops(data, offset, offset) <= offset
    ensures var r := Resolve(data, offset, offset).value;
            ParseName(data, offset, depth) ==
            if depth >= Hops(data, offset, offset) then Some(Name(r.1 - offset, Dotted(r.0))) else None
  {
    LabelsResolve(data, offset, offset, depth);
  }

  /** A pointer to itself exhausts every stack. */
  lemma {:induction false} PointerLoopFails(data: Bytes, offset: nat, depth: nat)
    requires offset + 2 <= |data| && data[offset] >= 192 && U16be(data[offset..offset + 2]) % 0x4000 == offset
    ensures ParseName(data, offset, depth) == None
    decreases depth
  {
    if depth > 0 {
      PointerLoopFails(data, offset, depth - 1);
    }
  }

  /** The loop of parse_name: labels are collected until a zero byte or a pointer. */
  method ReadName(data: Bytes, offset: nat, depth: nat) returns (r: Option<Name>)
    ensures r == ParseName(data, offset, depth)
    decreases depth
  {
    hide Labels, ParseName, Clipped, Dotted, U16be;
    var p, labels: seq<Bytes> := offset, [];
    ghost var all := Labels(data, offset, depth);
    NameOfLabels(data, offset, depth);
    LabelsAdvance(data, offset, depth);
    LabelsStep(data, p, depth);
    if p >= |data| {
      return None;
    }
    OnwardNothing(all);
    while data[p] > 0
      invariant offset <= p < |data| && all == Onward(labels, Labels(data, p, depth))
      decreases |data| - p
    {
      LabelsStep(data, p, depth);
      if data[p] >= 192 {
        if p + 2 > |data| || depth == 0 {
          return None;
        }
        var rest := ReadName(data, U16be(data[p..p + 2]) % 0x4000, depth - 1);
        if rest == None {
          return None;
        }
        return Some(Name(p + 2 - offset, Dotted(labels + [rest.value.text])));
      }
      var piece, next := Clipped(data, p + 1, p + 1 + data[p]), p + 1 + data[p];
      OnwardStep(labels, piece, Labels(data, next, depth));
      labels, p := labels + [piece], next;
      LabelsStep(data, p, depth);
      if p >= |data| {
        return None;
      }
    }
    LabelsStep(data, p, depth);
    assert labels + [] == labels;
    r := Some(Name(p - offset + 1, Dotted(labels)));
  }

  lemma {:induction false} NameOfLabels(data: Bytes, offset: nat, depth: nat)
    ensures var l, n := Labels(data, offset, depth), ParseName(data, offset, depth);
            && (l.None? ==> n.None?)
            && (l.Some? && l.value.1 >= offset ==> n == Some(Name(l.value.1 - offset, Dotted(l.value.0))))
  {
  }

  /** One turn of the loop. */
  lemma {:induction false} LabelsStep(data: Bytes, p: nat, depth: nat)
    ensures p >= |data| ==> Labels(data, p, depth).None?
    ensures p < |data| && data[p] == 0 ==>
              Labels(data, p, depth).Some? && Labels(data, p, depth).value.0 == [] && Labels(data, p, depth).value.1 == p + 1
    ensures p < |data| && data[p] >= 192 && (p + 2 > |data| || depth == 0) ==> Labels(data, p, depth).None?
    ensures p + 2 <= |data| && data[p] >= 192 && depth > 0 ==>
              var rest := ParseName(data, U16be(data[p..p + 2]) % 0x4000, depth - 1);
              var l := Labels(data, p, depth);
              if rest.None? then l.None? else l.Some? && l.value.0 == [rest.value.text] && l.value.1 == p + 2
    ensures p < |data| && 0 < data[p] < 192 ==>
              Labels(data, p, depth) ==
              Onward([Clipped(data, p + 1, p + 1 + data[p])], Labels(data, p + 1 + data[p], depth))
  {
    hide ParseName, Clipped, U16be;
  }

  /** Labels already collected, in front of those still to come. */
  function Onward(seen: seq<Bytes>, rest: Option<(seq<Bytes>, nat)>): Option<(seq<Bytes>, nat)> {
    if rest.None? then None else Some((seen + rest.value.0, rest.value.1))
  }

  lemma {:induction false} OnwardNothing(rest: Option<(seq<Bytes>, nat)>)
    ensures Onward([], rest) == rest
  {
    if rest.Some? {
      assert [] + rest.value.0 == rest.value.0;
    }
  }

  lemma {:induction false} OnwardStep(seen: seq<Bytes>, piece: Bytes, rest: Option<(seq<Bytes>, nat)>)
    ensures Onward(seen, Onward([piece], rest)) == Onward(seen + [piece], rest)
  {
    if rest.Some? {
      assert seen + ([piece] + rest.value.0) == seen + [piece] + rest.value.0;
    }
  }

  // ----- round trip of uncompressed names

  ghost predicate Proper(labels: seq<Bytes>) {
    forall i :: 0 <= i < |labels| ==> 1 <= |labels[i]| <= 63
  }

  /** The code reads encoded labels back up to the first empty one. */
  function UpToEmpty(labels: seq<Bytes>): seq<Bytes> {
    if labels == [] || labels[0] == [] then [] else [labels[0]] + UpToEmpty(labels[1..])
  }

  lemma {:induction false} ShortUpToEmpty(labels: seq<Bytes>)
    requires Short(labels)
    ensures Short(UpToEmpty(labels))
    decreases |labels|
  {
    if labels != [] && labels[0] != [] {
      ShortUpToEmpty(labels[1..]);
    }
  }

  /** Where the first encoded label stands, and the rest behind it. */
  lemma {:induction false} FirstEncoded(pre: Bytes, labels: seq<Bytes>, post: Bytes)
    requires Short(labels)
    ensures var data, p := pre + Encoded(labels) + post, |pre|;
            if labels == [] then data[p] == 0 && |Encoded(labels)| == 1
            else
              var l := labels[0];
              && data[p] == |l| && p + 1 + |l| < |data| && data[p + 1..p + 1 + |l|] == l
              && data == (pre + [|l|] + l) + Encoded(labels[1..]) + post
              && |Encoded(labels)| == 1 + |l| + |Encoded(labels[1..])|
  {
    var data, p := pre + Encoded(labels) + post, |pre|;
    assert data[p] == Encoded(labels)[0];
    if labels != [] {
      var l := labels[0];
      assert data == (pre + [|l|] + l) + Encoded(labels[1..]) + post;
    }
  }

  lemma {:induction false} LabelsEncoded(pre: Bytes, labels: seq<Bytes>, post: Bytes, depth: nat)
    requires Short(labels)
    ensures Short(UpToEmpty(labels))
    ensures var data, got := pre + Encoded(labels) + post, UpToEmpty(labels);
            Labels(data, |pre|, depth) == Some((got, |pre| + |Encoded(got)|))
    decreases |labels|
  {
    hide Encoded;
    FirstEncoded(pre, labels, post);
    ShortUpToEmpty(labels);
    FirstEncoded([], UpToEmpty(labels), []);
    if labels != [] && labels[0] != [] {
      LabelsEncoded(pre + [|labels[0]|] + labels[0], labels[1..], post, depth);
      assert UpToEmpty(labels)[1..] == UpToEmpty(labels[1..]);
    }
  }

  lemma {:induction false} UpToEmptyProper(labels: seq<Bytes>)
    ensures Proper(labels) ==> UpToEmpty(labels) == labels
    ensures forall i :: 0 <= i < |UpToEmpty(labels)| ==> UpToEmpty(labels)[i] != []
    ensures DotFree(labels) ==> DotFree(UpToEmpty(labels))
    decreases |labels|
  {
    if labels != [] && labels[0] != [] {
      UpToEmptyProper(labels[1..]);
    }
  }

  /** The name survives encoding and decoding, wherever it is placed in a message. */
  ghost predicate RoundTrips(address: Bytes, pre: Bytes, post: Bytes, depth: nat) {
    var labels := Split(Strip(address));
    Short(labels) && ParseName(pre + Encoded(labels) + post, |pre|, depth) == Some(Name(|Encoded(labels)|, address))
  }

  lemma {:induction false} StripKeepsProper(s: Bytes)
    requires Proper(Split(s))
    ensures Strip(s) == s
  {
    assert Split(s)[0] != [];
    if s != [] && s[|s| - 1] == DOT {
      SplitLast(s);
      assert false;
    }
    assert StripLeft(s) == s;
  }

  lemma {:induction false} SplitLast(s: Bytes)
    requires s != [] && s[|s| - 1] == DOT
    ensures var r := Split(s); r[|r| - 1] == []
    decreases |s|
  {
    if |s| == 1 {
      assert s[1..] == [];
      assert Split(s) == [[], []];
    } else {
      SplitLast(s[1..]);
      var rest := Split(s[1..]);
      if s[0] != DOT {
        assert |rest| > 1 by {
          SplitHasTwo(s[1..]);
        }
      }
    }
  }

  lemma {:induction false} SplitHasTwo(s: Bytes)
    requires s != [] && s[|s| - 1] == DOT
    ensures |Split(s)| >= 2
    decreases |s|
  {
    if |s| > 1 && s[0] != DOT {
      SplitHasTwo(s[1..]);
    }
  }

  /** Exactly the names whose labels all have 1 to 63 bytes survive. */
  lemma {:induction false} RoundTripExactly(address: Bytes, pre: Bytes, post: Bytes, depth: nat)
    ensures RoundTrips(address, pre, post, depth) <==> Proper(Split(address))
  {
    var labels := Split(Strip(address));
    if Proper(Split(address)) {
      StripKeepsProper(address);
      LabelsEncoded(pre, labels, post, depth);
      UpToEmptyProper(labels);
      DottedSplit(address);
    } else if RoundTrips(address, pre, post, depth) {
      LabelsEncoded(pre, labels, post, depth);
      UpToEmptyProper(labels);
      SplitIsDotFree(Strip(address));
      var got := UpToEmpty(labels);
      if got == [] {
        assert false;
      } else {
        SplitDotted(got);
        ProperGot(got);
        assert false;
      }
    }
  }

  lemma {:induction false} ProperGot(got: seq<Bytes>)
    requires Short(got) && forall i :: 0 <= i < |got| ==> got[i] != []
    ensures Proper(got)
  {
  }
}
