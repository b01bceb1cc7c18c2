/** The walk over the records of a DNS response (section 4.1 of RFC 1035). */
module DnsMessages {
  import opened Binary
  import opened Containers
  import opened DnsCodec

  const A: Word16 := 1
  const NS: Word16 := 2
  const CNAME: Word16 := 5
  const AAAA: Word16 := 28
  const IN: Word16 := 1

  /** What a record carries. Addresses are kept as bytes rather than as text. */
  datatype Payload = Nothing | Address(bytes: Bytes) | Alias(name: Bytes) | Other(raw: Bytes)

  datatype Entry = Entry(payload: Payload, kind: Word16, class_: Word16)

  datatype Response = Response(hostname: Option<Bytes>, questions: seq<Entry>, answers: seq<Entry>)

  datatype Parsed = Parsed(size: nat, name: Bytes, entry: Entry)

  // ----- as the code does it; None is an exception

  function ParseIp(kind: Word16, data: Bytes, size: nat, offset: nat, depth: nat): Option<Payload> {
    var raw := Clipped(data, offset, offset + size);
    if kind == A then (if |raw| == 4 then Some(Address(raw)) else None)
    else if kind == AAAA then (if |raw| == 16 then Some(Address(raw)) else None)
    else if kind == CNAME || kind == NS then
      match ParseName(data, offset, depth)
      case None => None
      case Some(n) => Some(Alias(n.text))
    else Some(Other(raw))
  }

  function ParseRecord(data: Bytes, offset: nat, question: bool, depth: nat): Option<Parsed> {
    match ParseName(data, offset, depth)
    case None => None
    case Some(n) =>
      var at := offset + n.consumed;
      if question then
        if at + 4 > |data| then None
        else Some(Parsed(n.consumed + 4, n.text, Entry(Nothing, U16be(data[at..at + 2]), U16be(data[at + 2..at + 4]))))
      else if at + 10 > |data| then None
      else
        var kind, class_, size := U16be(data[at..at + 2]), U16be(data[at + 2..at + 4]), U16be(data[at + 8..at + 10]);
        match ParseIp(kind, data, size, at + 10, depth)
        case None => None
        case Some(payload) => Some(Parsed(n.consumed + 10 + size, n.text, Entry(payload, kind, class_)))
  }

  /** `count` records in a row: what they hold, and the offset behind them. */
  function ParseRecords(data: Bytes, offset: nat, count: nat, question: bool, depth: nat)
    : (r: Option<(seq<Parsed>, nat)>)
    ensures r.Some? ==> |r.value.0| == count
  {
    if count == 0 then Some(([], offset))
    else
      match ParseRecords(data, offset, count - 1, question, depth)
      case None => None
      case Some(before) =>
        match ParseRecord(data, before.1, question, depth)
        case None => None
        case Some(r) => Some((before.0 + [r], before.1 + r.size))
  }

  function Count(data: Bytes, section: nat): Word16
    requires section < 4 && |data| >= 12
  {
    U16be(data[4 + 2 * section..6 + 2 * section])
  }

  function Entries(records: seq<Parsed>): (r: seq<Entry>)
    ensures |r| == |records|
  {
    seq(|records|, i requires 0 <= i < |records| => records[i].entry)
  }

  /** The records of a message, section after section: questions, answers, authorities, additional. */
  function Sections(data: Bytes, depth: nat): Option<(seq<Parsed>, seq<Parsed>)>
    requires |data| >= 12
  {
    var q := ParseRecords(data, 12, Count(data, 0), true, depth);
    if q == None then None else
    var a := ParseRecords(data, q.value.1, Count(data, 1), false, depth);
    if a == None then None else
    var n := ParseRecords(data, a.value.1, Count(data, 2), false, depth);
    if n == None then None else
    var r := ParseRecords(data, n.value.1, Count(data, 3), false, depth);
    if r == None then None else Some((q.value.0, a.value.0))
  }

  function Answered(questions: seq<Parsed>, answers: seq<Parsed>): Response {
    Response(if questions == [] then None else Some(questions[0].name), Entries(questions), Entries(answers))
  }

  /** One of the four loops of parse_response. */
  method ReadRecords(data: Bytes, start: nat, count: nat, question: bool, depth: nat)
    returns (r: Option<(seq<Parsed>, nat)>)
    ensures r == ParseRecords(data, start, count, question, depth)
  {
    hide ParseRecord;
    var offset, list: seq<Parsed> := start, [];
    for i := 0 to count
      invariant ParseRecords(data, start, i, question, depth) == Some((list, offset))
    {
      var record := ParseRecord(data, offset, question, depth);
      if record == None {
        FailsOn(data, start, i + 1, count, question, depth);
        return None;
      }
      list := list + [record.value];
      offset := offset + record.value.size;
    }
    r := Some((list, offset));
  }

  lemma {:induction false} FailsOn(data: Bytes, start: nat, i: nat, count: nat, question: bool, depth: nat)
    requires i <= count && ParseRecords(data, start, i, question, depth) == None
    ensures ParseRecords(data, start, count, question, depth) == None
    decreases count - i
  {
    if i < count {
      FailsOn(data, start, i + 1, count, question, depth);
    }
  }

  /** parse_response: nothing for a message that is too short or raises an exception. */
  method ParseResponse(data: Bytes, depth: nat) returns (r: Option<Response>)
    ensures r.Some? <==> |data| >= 12 && Sections(data, depth).Some?
    ensures r.Some? ==> r.value == Answered(Sections(data, depth).value.0, Sections(data, depth).value.1)
  {
    hide ParseRecords;
    if |data| < 12 {
      return None;
    }
    var q := ReadRecords(data, 12, Count(data, 0), true, depth);
    if q == None {
      return None;
    }
    var a := ReadRecords(data, q.value.1, Count(data, 1), false, depth);
    if a == None {
      return None;
    }
    var n := ReadRecords(data, a.value.1, Count(data, 2), false, depth);
    if n == None {
      return None;
    }
    var d := ReadRecords(data, n.value.1, Count(data, 3), false, depth);
    if d == None {
      return None;
    }
    r := Some(Answered(q.value.0, a.value.0));
  }

  // ----- as RFC 1035 means it

  ghost predicate NameAt(data: Bytes, offset: nat) {
    Resolve(data, offset, offset).Some?
  }

  ghost function NameText(data: Bytes, offset: nat): Bytes
    requires NameAt(data, offset)
  {
    Dotted(Resolve(data, offset, offset).value.0)
  }

  /** The first byte behind the name. */
  ghost function NameEnd(data: Bytes, offset: nat): nat
    requires NameAt(data, offset)
  {
    Resolve(data, offset, offset).value.1
  }

  ghost predicate QuestionAt(data: Bytes, offset: nat) {
    NameAt(data, offset) && NameEnd(data, offset) + 4 <= |data|
  }

  ghost predicate RecordAt(data: Bytes, offset: nat) {
    NameAt(data, offset) && NameEnd(data, offset) + 10 <= |data| &&
    var kind, size, rdata := U16At(data, NameEnd(data, offset)), U16At(data, NameEnd(data, offset) + 8), NameEnd(data, offset) + 10;
    rdata + size <= |data| &&
    (kind == 1 ==> size == 4) && (kind == 28 ==> size == 16) &&
    (kind == 5 || kind == 2 ==> NameAt(data, rdata))
  }

  ghost function U16At(data: Bytes, at: nat): Word16
    requires at + 2 <= |data|
  {
    U16be(data[at..at + 2])
  }

  ghost predicate ItemAt(data: Bytes, offset: nat, question: bool) {
    if question then QuestionAt(data, offset) else RecordAt(data, offset)
  }

  ghost function ItemEnd(data: Bytes, offset: nat, question: bool): nat
    requires ItemAt(data, offset, question)
  {
    var at := NameEnd(data, offset);
    if question then at + 4 else at + 10 + U16At(data, at + 8)
  }

  ghost function ItemEntry(data: Bytes, offset: nat, question: bool): Entry
    requires ItemAt(data, offset, question)
  {
    var at := NameEnd(data, offset);
    var kind, class_ := U16At(data, at), U16At(data, at + 2);
    if question then Entry(Nothing, kind, class_)
    else
      var rdata, size := at + 10, U16At(data, at + 8);
      Entry(if kind == 1 || kind == 28 then Address(data[rdata..rdata + size])
            else if kind == 5 || kind == 2 then Alias(NameText(data, rdata))
            else Other(data[rdata..rdata + size]),
            kind, class_)
  }

  /** The longest chain of pointers that reading the item follows. */
  ghost function ItemHops(data: Bytes, offset: nat, question: bool): nat
    requires ItemAt(data, offset, question)
  {
    var hops, at := Hops(data, offset, offset), NameEnd(data, offset);
    if question || !(U16At(data, at) == 5 || U16At(data, at) == 2) then hops
    else
      var more := Hops(data, at + 10, at + 10);
      if hops < more then more else hops
  }

  /** One record is read as it stands, and the next one is looked for exactly where it starts, if and only if
      the call stack admits its pointers. */
  lemma {:induction false} RecordIsRead(data: Bytes, offset: nat, question: bool, depth: nat)
    requires ItemAt(data, offset, question)
    ensures ItemEnd(data, offset, question) >= offset
    ensures ParseRecord(data, offset, question, depth) ==
            if depth >= ItemHops(data, offset, question)
            then Some(Parsed(ItemEnd(data, offset, question) - offset, NameText(data, offset), ItemEntry(data, offset, question)))
            else None
  {
    hide Resolve, ParseName, Hops, Dotted, U16be;
    ParseNameResolves(data, offset, depth);
    var at := NameEnd(data, offset);
    if !question {
      var kind, rdata, size := U16At(data, at), at + 10, U16At(data, at + 8);
      assert Clipped(data, rdata, rdata + size) == data[rdata..rdata + size];
      if kind == CNAME || kind == NS {
        ParseNameResolves(data, at + 10, depth);
      }
    }
  }

  /** Whatever stands behind a name that can be read: a question needs four more bytes, a record ten; an IPv4
      address must have four bytes and an IPv6 address sixteen, an alias must be a readable name, and anything
      else is taken as it comes, cut off at the end of the message. In every other case the message fails. */
  lemma {:induction false} RecordExactly(data: Bytes, offset: nat, question: bool, depth: nat)
    requires NameAt(data, offset) && Hops(data, offset, offset) <= depth
    ensures question ==> (ParseRecord(data, offset, question, depth).Some? <==> NameEnd(data, offset) + 4 <= |data|)
    ensures !question ==>
              var at := NameEnd(data, offset);
              ParseRecord(data, offset, question, depth).Some? <==>
              (at + 10 <= |data| &&
               var kind, size, left := U16At(data, at), U16At(data, at + 8), |data| - (at + 10);
               && (kind == 1 ==> size == 4 <= left || size > 4 == left)
               && (kind == 28 ==> size == 16 <= left || size > 16 == left)
               && (kind == 5 || kind == 2 ==> ParseName(data, at + 10, depth).Some?))
    ensures !question && ParseRecord(data, offset, question, depth).Some? ==>
              var at, r := NameEnd(data, offset), ParseRecord(data, offset, question, depth).value;
              var rdata, size := at + 10, U16At(data, at + 8);
              && offset + r.size == rdata + size && r.name == NameText(data, offset)
              && r.entry.kind == U16At(data, at) && r.entry.class_ == U16At(data, at + 2)
              && (r.entry.payload.Other? ==>
                    r.entry.payload.raw == (if rdata + size <= |data| then data[rdata..rdata + size] else data[rdata..]))
  {
    hide Resolve, ParseName, Hops, Dotted, U16be;
    ParseNameResolves(data, offset, depth);
    if !question {
      var at := NameEnd(data, offset);
      if at + 10 <= |data| {
        var rdata, size := at + 10, U16At(data, at + 8);
        ClippedSize(data, rdata, rdata + size);
      }
    }
  }

  lemma {:induction false} ClippedSize(data: Bytes, from: nat, to: nat)
    requires from <= to && from <= |data|
    ensures |Clipped(data, from, to)| == if to <= |data| then to - from else |data| - from
    ensures Clipped(data, from, to) == if to <= |data| then data[from..to] else data[from..]
  {
  }

  /** `starts` lists where `|starts| - 1` items begin, and last the byte behind them. */
  ghost predicate Laid(data: Bytes, starts: seq<nat>, question: bool) {
    starts != [] &&
    forall i :: 0 <= i < |starts| - 1 ==>
      ItemAt(data, starts[i], question) && starts[i + 1] == ItemEnd(data, starts[i], question)
  }

  /** None of the first `count` items needs a deeper stack. */
  ghost predicate Shallow(data: Bytes, starts: seq<nat>, question: bool, count: nat, depth: nat)
    requires Laid(data, starts, question) && count < |starts|
  {
    forall i :: 0 <= i < count ==> ItemHops(data, starts[i], question) <= depth
  }

  lemma {:induction false} RecordsAreRead(data: Bytes, starts: seq<nat>, question: bool, count: nat, depth: nat)
    requires Laid(data, starts, question) && count < |starts|
    ensures var r := ParseRecords(data, starts[0], count, question, depth);
            && (r.Some? <==> Shallow(data, starts, question, count, depth))
            && (r.Some? ==>
                  && r.value.1 == starts[count]
                  && forall i :: 0 <= i < count ==>
                       r.value.0[i].name == NameText(data, starts[i]) &&
                       r.value.0[i].entry == ItemEntry(data, starts[i], question))
    decreases count
  {
    hide ParseRecord, ItemAt, ItemEnd, ItemEntry, ItemHops, NameText, NameEnd;
    if count > 0 {
      RecordsAreRead(data, starts, question, count - 1, depth);
      RecordIsRead(data, starts[count - 1], question, depth);
    }
  }

  /** The layout of a whole message: the four sections follow each other. */
  datatype Layout = Layout(questions: seq<nat>, answers: seq<nat>, authorities: seq<nat>, additional: seq<nat>)

  ghost predicate WellFormed(data: Bytes, l: Layout) {
    && |data| >= 12
    && Laid(data, l.questions, true) && Laid(data, l.answers, false)
    && Laid(data, l.authorities, false) && Laid(data, l.additional, false)
    && |l.questions| == Count(data, 0) + 1 && |l.answers| == Count(data, 1) + 1
    && |l.authorities| == Count(data, 2) + 1 && |l.additional| == Count(data, 3) + 1
    && l.questions[0] == 12
    && l.answers[0] == l.questions[Count(data, 0)]
    && l.authorities[0] == l.answers[Count(data, 1)]
    && l.additional[0] == l.authorities[Count(data, 2)]
  }

  /** Every well-formed message is parsed, if and only if the call stack admits its pointers: question and
      answer number i are the ones that start where the layout says, and the host name is that of the first
      question. */
  lemma {:induction false} WellFormedIsParsed(data: Bytes, l: Layout, depth: nat)
    requires WellFormed(data, l)
    ensures Sections(data, depth).Some? <==>
            && Shallow(data, l.questions, true, Count(data, 0), depth)
            && Shallow(data, l.answers, false, Count(data, 1), depth)
            && Shallow(data, l.authorities, false, Count(data, 2), depth)
            && Shallow(data, l.additional, false, Count(data, 3), depth)
    ensures Sections(data, depth).Some? ==>
              var s := Sections(data, depth).value;
              var r := Answered(s.0, s.1);
              && |r.questions| == Count(data, 0) && |r.answers| == Count(data, 1)
              && r.hostname == (if Count(data, 0) == 0 then None else Some(NameText(data, 12)))
              && (forall i :: 0 <= i < |r.questions| ==> r.questions[i] == ItemEntry(data, l.questions[i], true))
              && (forall i :: 0 <= i < |r.answers| ==> r.answers[i] == ItemEntry(data, l.answers[i], false))
  {
    hide ParseRecords, ItemAt, ItemEnd, ItemEntry, NameText, NameEnd, Shallow;
    RecordsAreRead(data, l.questions, true, Count(data, 0), depth);
    RecordsAreRead(data, l.answers, false, Count(data, 1), depth);
    RecordsAreRead(data, l.authorities, false, Count(data, 2), depth);
    RecordsAreRead(data, l.additional, false, Count(data, 3), depth);
  }

  // ----- the usual reply: one question, and answers that point back at it

  /** An address record that names the question by a pointer to byte 12. */
  function AnswerBytes(kind: Word16, ttl: Bytes, address: Bytes): (r: Bytes)
    requires |ttl| == 4 && |address| < 0x1_0000
    ensures |r| == 12 + |address|
  {
    [0xC0, 12] + Be16(kind) + Be16(IN) + ttl + Be16(|address|) + address
  }

  ghost predicate Uniform(addresses: seq<Bytes>, size: nat) {
    forall i :: 0 <= i < |addresses| ==> |addresses[i]| == size
  }

  function AnswersBytes(kind: Word16, ttl: Bytes, addresses: seq<Bytes>, size: Word16): (r: Bytes)
    requires |ttl| == 4 && Uniform(addresses, size)
    ensures |r| == |addresses| * (12 + size)
  {
    if addresses == [] then []
    else
      var n := |addresses| - 1;
      AnswersBytes(kind, ttl, addresses[..n], size) + AnswerBytes(kind, ttl, addresses[n])
  }

  lemma {:induction false} AnswerSlice(kind: Word16, ttl: Bytes, addresses: seq<Bytes>, size: Word16, i: nat)
    requires |ttl| == 4 && Uniform(addresses, size) && i < |addresses|
    ensures 0 <= i * (12 + size) <= (i + 1) * (12 + size) <= |AnswersBytes(kind, ttl, addresses, size)|
    ensures AnswersBytes(kind, ttl, addresses, size)[i * (12 + size)..(i + 1) * (12 + size)] ==
            AnswerBytes(kind, ttl, addresses[i])
    decreases |addresses|
  {
    hide AnswerBytes;
    var n, w := |addresses| - 1, 12 + size as int;
    var before := AnswersBytes(kind, ttl, addresses[..n], size);
    var last := AnswerBytes(kind, ttl, addresses[n]);
    assert |before| == n * w && |last| == w;
    assert (i + 1) * w == i * w + w && (n + 1) * w == n * w + w;
    if i == n {
      assert (before + last)[n * w..n * w + w] == last;
    } else {
      AnswerSlice(kind, ttl, addresses[..n], size, i);
      assert (before + last)[i * w..(i + 1) * w] == before[i * w..(i + 1) * w];
    }
  }

  /** Uncompressed labels resolve to themselves, wherever they stand. */
  lemma {:induction false} ResolveEncoded(pre: Bytes, labels: seq<Bytes>, post: Bytes, start: nat)
    requires Proper(labels)
    ensures Short(labels)
    ensures Resolve(pre + Encoded(labels) + post, |pre|, start) == Some((labels, |pre| + |Encoded(labels)|))
    ensures Hops(pre + Encoded(labels) + post, |pre|, start) == 0
    decreases |labels|
  {
    hide Encoded;
    FirstEncoded(pre, labels, post);
    if labels != [] {
      ResolveEncoded(pre + [|labels[0]|] + labels[0], labels[1..], post, start);
      assert labels == [labels[0]] + labels[1..];
    }
  }

  /** Identifier and flags, one question, and `addresses` as its answers. */
  function Reply(top: Bytes, labels: seq<Bytes>, kind: Word16, ttl: Bytes, addresses: seq<Bytes>, size: Word16): Bytes
    requires |top| == 4 && Short(labels) && |ttl| == 4 && Uniform(addresses, size) && |addresses| < 0x1_0000
  {
    ReplyHead(top, labels, kind, |addresses|) + AnswersBytes(kind, ttl, addresses, size)
  }

  function ReplyHead(top: Bytes, labels: seq<Bytes>, kind: Word16, count: Word16): (r: Bytes)
    requires |top| == 4 && Short(labels)
    ensures |r| == 16 + |Encoded(labels)|
  {
    top + Be16(1) + Be16(count) + Be16(0) + Be16(0) + Encoded(labels) + Be16(kind) + Be16(IN)
  }

  lemma {:induction false} U16beOfBe16(n: Word16)
    ensures U16be(Be16(n)) == n
  {
  }

  /** The counts of the header, and the question behind it. */
  lemma {:induction false} HeadReads(top: Bytes, labels: seq<Bytes>, kind: Word16, count: Word16, rest: Bytes)
    requires |top| == 4 && Proper(labels)
    ensures Short(labels)
    ensures var data := ReplyHead(top, labels, kind, count) + rest;
            && |data| >= 12 && Count(data, 0) == 1 && Count(data, 1) == count
            && Count(data, 2) == 0 && Count(data, 3) == 0
            && Resolve(data, 12, 12) == Some((labels, 12 + |Encoded(labels)|))
            && ItemAt(data, 12, true) && ItemEnd(data, 12, true) == |ReplyHead(top, labels, kind, count)|
            && ItemEntry(data, 12, true) == Entry(Nothing, kind, IN) && ItemHops(data, 12, true) == 0 == Hops(data, 12, 12)
  {
    hide Encoded, Resolve, Be16, U16be, Hops;
    var data := ReplyHead(top, labels, kind, count) + rest;
    var pre := top + Be16(1) + Be16(count) + Be16(0) + Be16(0);
    var name := Encoded(labels);
    var post := Be16(kind) + Be16(IN) + rest;
    assert data == pre + name + post;
    ResolveEncoded(pre, labels, post, 12);
    U16beOfBe16(1);
    U16beOfBe16(0);
    U16beOfBe16(count);
    U16beOfBe16(kind);
    assert data[4..6] == Be16(1) && data[6..8] == Be16(count) && data[8..10] == Be16(0) && data[10..12] == Be16(0);
    var at := 12 + |name|;
    assert data[at..at + 2] == Be16(kind) && data[at + 2..at + 4] == Be16(IN);
  }

  /** An answer that stands at `at` and points at byte 12 is read as one. */
  lemma {:induction false} AnswerReads(data: Bytes, at: nat, kind: Word16, ttl: Bytes, address: Bytes)
    requires |ttl| == 4 && |address| == (if kind == A then 4 else 16) && (kind == A || kind == AAAA)
    requires 12 < at && at + 12 + |address| <= |data|
    requires data[at..at + 12 + |address|] == AnswerBytes(kind, ttl, address)
    requires NameAt(data, 12) && Resolve(data, 12, 12).value.0 != []
    ensures ItemAt(data, at, false) && ItemEnd(data, at, false) == at + 12 + |address|
    ensures ItemEntry(data, at, false) == Entry(Address(address), kind, IN)
    ensures ItemHops(data, at, false) == 1 + Hops(data, 12, 12)
  {
    hide Be16, Dotted;
    var bytes := AnswerBytes(kind, ttl, address);
    assert forall k :: 0 <= k < |bytes| ==> data[at + k] == bytes[k] by {
      assert forall k :: 0 <= k < |bytes| ==> data[at..at + 12 + |address|][k] == bytes[k];
    }
    assert data[at] == bytes[0] && data[at + 1] == bytes[1];
    assert U16be(data[at..at + 2]) % 0x4000 == 12;
    assert Resolve(data, at, at).value.1 == at + 2;
    U16beOfBe16(kind);
    U16beOfBe16(IN);
    U16beOfBe16(|address|);
    assert data[at + 2..at + 4] == bytes[2..4] == Be16(kind);
    assert data[at + 4..at + 6] == bytes[4..6] == Be16(IN);
    assert data[at + 10..at + 12] == bytes[10..12] == Be16(|address|);
    assert data[at + 12..at + 12 + |address|] == bytes[12..] == address;
  }

  function StartsFrom(first: nat, width: nat, count: nat): (r: seq<nat>)
    ensures |r| == count + 1
  {
    seq(count + 1, i requires 0 <= i <= count => first + i * width)
  }

  /** At these positions stand answers with these addresses, each one pointer away from its name. */
  ghost predicate AnswersLaid(data: Bytes, starts: seq<nat>, kind: Word16, addresses: seq<Bytes>) {
    && |starts| == |addresses| + 1 && Laid(data, starts, false)
    && (forall i :: 0 <= i < |addresses| ==> ItemEntry(data, starts[i], false) == Entry(Address(addresses[i]), kind, IN))
    && (forall i :: 0 <= i < |addresses| ==> ItemHops(data, starts[i], false) == 1)
  }

  lemma {:induction false} AnswersAreLaid(head: Bytes, kind: Word16, ttl: Bytes, addresses: seq<Bytes>)
    requires |head| > 12 && |ttl| == 4 && (kind == A || kind == AAAA)
    requires Uniform(addresses, if kind == A then 4 else 16)
    requires var data := head + AnswersBytes(kind, ttl, addresses, if kind == A then 4 else 16);
             NameAt(data, 12) && Resolve(data, 12, 12).value.0 != [] && Hops(data, 12, 12) == 0
    ensures var size := if kind == A then 4 else 16;
            var data, starts := head + AnswersBytes(kind, ttl, addresses, size), StartsFrom(|head|, 12 + size, |addresses|);
            AnswersLaid(data, starts, kind, addresses)
  {
    hide AnswerBytes, Resolve, ItemAt, ItemEntry, ItemEnd, ItemHops, Hops;
    var size := if kind == A then 4 else 16;
    var body := AnswersBytes(kind, ttl, addresses, size);
    var data, starts := head + body, StartsFrom(|head|, 12 + size, |addresses|);
    forall i | 0 <= i < |addresses|
      ensures ItemAt(data, starts[i], false) && starts[i + 1] == ItemEnd(data, starts[i], false)
      ensures ItemEntry(data, starts[i], false) == Entry(Address(addresses[i]), kind, IN)
      ensures ItemHops(data, starts[i], false) == 1
    {
      AnswerSlice(kind, ttl, addresses, size, i);
      assert starts[i + 1] == |head| + (i + 1) * (12 + size) == starts[i] + 12 + size;
      assert data[starts[i]..starts[i + 1]] == body[i * (12 + size)..(i + 1) * (12 + size)];
      AnswerReads(data, starts[i], kind, ttl, addresses[i]);
    }
  }

  /** The usual reply says what it was built from: the queried name, its question, and every address. One
      nested call is enough, and needed for any answer. */
  lemma {:induction false} ReplyIsUnderstood(
      top: Bytes, labels: seq<Bytes>, kind: Word16, ttl: Bytes, addresses: seq<Bytes>, depth: nat)
    requires |top| == 4 && labels != [] && Proper(labels) && |ttl| == 4 && |addresses| < 0x1_0000
    requires kind == A || kind == AAAA
    requires Uniform(addresses, if kind == A then 4 else 16)
    requires Short(labels)
    ensures var data := Reply(top, labels, kind, ttl, addresses, if kind == A then 4 else 16);
            && |data| >= 12 && (Sections(data, depth).Some? <==> depth >= 1 || addresses == [])
            && (Sections(data, depth).Some? ==>
                  var s := Sections(data, depth).value;
                  Answered(s.0, s.1) ==
                  Response(Some(Dotted(labels)), [Entry(Nothing, kind, IN)],
                           seq(|addresses|, i requires 0 <= i < |addresses| => Entry(Address(addresses[i]), kind, IN))))
  {
    hide Resolve, ItemAt, ItemEntry, ItemEnd, ItemHops, Hops, Dotted, Sections, AnswersBytes, ReplyHead;
    var size := if kind == A then 4 else 16;
    var head, body := ReplyHead(top, labels, kind, |addresses|), AnswersBytes(kind, ttl, addresses, size);
    var data := Reply(top, labels, kind, ttl, addresses, size);
    HeadReads(top, labels, kind, |addresses|, body);
    AnswersAreLaid(head, kind, ttl, addresses);
    var l := Layout([12, |head|], StartsFrom(|head|, 12 + size, |addresses|), [|data|], [|data|]);
    assert l.questions[0 + 1] == |head|;
    assert Laid(data, l.questions, true);
    WellFormedIsParsed(data, l, depth);
    assert NameText(data, 12) == Dotted(labels);
    assert |l.answers| == |addresses| + 1;
    if addresses != [] {
      assert ItemHops(data, l.answers[0], false) == 1;
    }
    if Sections(data, depth).Some? {
      var s := Sections(data, depth).value;
      assert Answered(s.0, s.1).questions == [Entry(Nothing, kind, IN)];
    }
  }
}
