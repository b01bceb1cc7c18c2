/**
  Flow control of one relayed TCP connection in server mode with the plain plugins: stages, the two
  wait statuses, the registered poll masks, and the data waiting for each socket.
*/
module RelayFlow {
  import opened Binary

  datatype Stage = Init | Dns | Connecting | Stream | Destroyed

  /** WAIT_STATUS_*: two independent bits. */
  datatype Wait = Wait(reading: bool, writing: bool)

  const WAIT_INIT := Wait(false, false)
  const WAIT_READING := Wait(true, false)
  const WAIT_WRITING := Wait(false, true)
  const WAIT_READWRITING := Wait(true, true)

  /** A registered poll mask; POLL_ERR is always part of it. */
  datatype Mask = Unregistered | Mask(pollIn: bool, pollOut: bool)

  datatype Direction = Up | Down

  /** What the kernel did with a send: took some bytes, would block, or failed. */
  datatype Sent = Took(n: nat) | WouldBlock | Error

  /** A handler: control state, pending data, and what has passed in either direction so far. */
  datatype Relay = Relay(
    stage: Stage, up: Wait, down: Wait, localMask: Mask, remoteMask: Mask,
    toRemote: seq<Bytes>, toLocal: seq<Bytes>,
    fromClient: Bytes, sentRemote: Bytes, fromTarget: Bytes, sentLocal: Bytes,
    transferred: nat, recounted: nat)

  const START := Relay(Init, WAIT_READING, WAIT_INIT, Mask(true, false), Unregistered, [], [], [], [], [], [], 0, 0)

  // ----- the handlers

  function LocalMask(up: Wait, down: Wait): Mask {
    Mask(up.reading, down.writing)
  }

  function RemoteMask(up: Wait, down: Wait): Mask {
    Mask(down.reading, up.writing)
  }

  /** _update_stream: the masks are registered anew only if the status changed. */
  function UpdateStream(s: Relay, dir: Direction, status: Wait): Relay {
    if (if dir.Up? then s.up else s.down) == status then s
    else
      var up := if dir.Up? then status else s.up;
      var down := if dir.Down? then status else s.down;
      s.(up := up, down := down,
         localMask := LocalMask(up, down),
         remoteMask := if s.remoteMask.Unregistered? then Unregistered else RemoteMask(up, down))
  }

  function Destroy(s: Relay): Relay {
    s.(stage := Destroyed, localMask := Unregistered, remoteMask := Unregistered)
  }

  /** The bytes of `data` that a send did not take. */
  function Unsent(data: Bytes, sent: Sent): Bytes {
    match sent
    case Took(n) => if n < |data| then data[n..] else []
    case _ => data
  }

  function WriteToRemote(s: Relay, data: Bytes, sent: Sent): Relay {
    var s1 := s.(transferred := s.transferred + |data|);
    if data == [] then s1
    else if sent.Error? then Destroy(s1)
    else
      var rest := Unsent(data, sent);
      var s2 := s1.(sentRemote := s1.sentRemote + data[..|data| - |rest|]);
      if rest != [] then UpdateStream(s2.(toRemote := s2.toRemote + [rest]), Up, WAIT_WRITING)
      else UpdateStream(s2, Up, WAIT_READING)
  }

  function WriteToLocal(s: Relay, data: Bytes, sent: Sent): Relay {
    if data == [] then s
    else if sent.Error? then Destroy(s)
    else
      var rest := Unsent(data, sent);
      var s1 := s.(sentLocal := s.sentLocal + data[..|data| - |rest|]);
      if rest != [] then UpdateStream(s1.(toLocal := s1.toLocal + [rest]), Down, WAIT_WRITING)
      else UpdateStream(s1, Down, WAIT_READING)
  }

  /** _on_local_read. `header` is the length of the address header, absent if it cannot be parsed. */
  function OnLocalRead(s: Relay, data: Bytes, header: int, sent: Sent): Relay {
    if data == [] then Destroy(s)
    else
      match s.stage
      case Stream => WriteToRemote(s.(fromClient := s.fromClient + data), data, sent)
      case Connecting => s.(fromClient := s.fromClient + data, toRemote := s.toRemote + [data])
      case Init =>
        if header < 0 || header > |data| then Destroy(s)
        else
          var s1 := UpdateStream(s, Up, WAIT_WRITING).(stage := Dns);
          if |data| > header
          then s1.(toRemote := s1.toRemote + [data[header..]], fromClient := s1.fromClient + data[header..])
          else s1
      case Dns => s
      case Destroyed => s
  }

  /** _handle_dns_resolved: register the new socket, then wait for both. */
  function OnDnsResolved(s: Relay, resolved: bool): Relay {
    if !resolved then Destroy(s)
    else
      var s1 := s.(stage := Connecting, remoteMask := Mask(false, true));
      UpdateStream(UpdateStream(s1, Up, WAIT_READWRITING), Down, WAIT_READING)
  }

  function OnRemoteRead(s: Relay, data: Bytes, sent: Sent): Relay {
    if data == [] then Destroy(s)
    else WriteToLocal(s.(fromTarget := s.fromTarget + data), data, sent)
  }

  function OnLocalWrite(s: Relay, sent: Sent): Relay {
    if s.toLocal == [] then UpdateStream(s, Down, WAIT_READING)
    else WriteToLocal(s.(toLocal := []), Join(s.toLocal), sent)
  }

  function OnRemoteWrite(s: Relay, sent: Sent): Relay {
    var again := if s.stage.Stream? then |Join(s.toRemote)| else 0;
    var s1 := s.(stage := Stream, recounted := s.recounted + again);
    if s1.toRemote == [] then UpdateStream(s1, Up, WAIT_READING)
    else WriteToRemote(s1.(toRemote := []), Join(s1.toRemote), sent)
  }

  // ----- the invariant

  ghost predicate NonEmpty(chunks: seq<Bytes>) {
    forall i :: 0 <= i < |chunks| ==> chunks[i] != []
  }

  /** The registered masks are what the two statuses prescribe, despite the dirty check. */
  ghost predicate MasksRight(s: Relay) {
    && s.localMask == LocalMask(s.up, s.down)
    && (s.remoteMask.Unregistered? || s.remoteMask == RemoteMask(s.up, s.down))
  }

  /** Nothing is lost, repeated or reordered: what was sent and what is pending make up what arrived. */
  ghost predicate Conserved(s: Relay) {
    && s.fromClient == s.sentRemote + Join(s.toRemote)
    && s.fromTarget == s.sentLocal + Join(s.toLocal)
    && NonEmpty(s.toRemote) && NonEmpty(s.toLocal)
  }

  /** In each stage, who is waited for; while piping, a direction with pending data is not reading. */
  ghost predicate Waiting(s: Relay) {
    match s.stage
    case Init => s.up == WAIT_READING && s.down == WAIT_INIT && s.remoteMask.Unregistered? && s.toRemote == [] && s.toLocal == []
    case Dns => s.up == WAIT_WRITING && s.down == WAIT_INIT && s.remoteMask.Unregistered? && s.toLocal == []
    case Connecting =>
      && s.up == WAIT_READWRITING && s.remoteMask.Mask?
      && s.down == (if s.toLocal == [] then WAIT_READING else WAIT_WRITING)
    case Stream =>
      && s.remoteMask.Mask?
      && s.up == (if s.toRemote == [] then WAIT_READING else WAIT_WRITING)
      && s.down == (if s.toLocal == [] then WAIT_READING else WAIT_WRITING)
    case Destroyed => true
  }

  /** The upstream counter: nothing before piping, then every byte once plus what was flushed again. */
  ghost predicate Counted(s: Relay) {
    match s.stage
    case Stream => s.transferred == |s.fromClient| + s.recounted
    case Destroyed => true
    case _ => s.transferred == 0 && s.recounted == 0 && s.sentRemote == []
  }

  ghost predicate Inv(s: Relay) {
    s.stage != Destroyed ==> MasksRight(s) && Conserved(s) && Waiting(s) && Counted(s)
  }

  /** What the event loop can deliver; reads and writes only where the registered mask asks for them. */
  datatype Event =
    | LocalRead(data: Bytes, header: int, sent: Sent)
    | Resolved(ok: bool)
    | RemoteRead(data: Bytes, sent: Sent)
    | LocalWrite(sent: Sent)
    | RemoteWrite(sent: Sent)
    | Throttled
    | Failure

  predicate Enabled(s: Relay, ev: Event) {
    s.stage != Destroyed &&
    match ev
    case LocalRead(_, _, _) => s.localMask.Mask? && s.localMask.pollIn
    case Resolved(_) => s.stage.Dns?
    case RemoteRead(_, _) => s.remoteMask.Mask? && s.remoteMask.pollIn
    case LocalWrite(_) => s.localMask.Mask? && s.localMask.pollOut
    case RemoteWrite(_) => s.remoteMask.Mask? && s.remoteMask.pollOut
    case Throttled => true
    case Failure => true
  }

  /** A read that exceeds the speed limit is put off; an error or a removed user ends the connection. */
  function Handle(s: Relay, ev: Event): Relay {
    match ev
    case LocalRead(data, header, sent) => OnLocalRead(s, data, header, sent)
    case Resolved(ok) => OnDnsResolved(s, ok)
    case RemoteRead(data, sent) => OnRemoteRead(s, data, sent)
    case LocalWrite(sent) => OnLocalWrite(s, sent)
    case RemoteWrite(sent) => OnRemoteWrite(s, sent)
    case Throttled => s
    case Failure => Destroy(s)
  }

  lemma {:induction false} JoinOne(data: Bytes)
    ensures Join([data]) == data && Join([]) == []
  {
    assert [data][1..] == [];
  }

  /** A send splits the data into a sent part and a rest. */
  lemma {:induction false} UnsentSplits(data: Bytes, sent: Sent)
    ensures |Unsent(data, sent)| <= |data|
    ensures data == data[..|data| - |Unsent(data, sent)|] + Unsent(data, sent)
  {
  }

  /** The dirty check makes no difference once the masks are right. */
  lemma {:induction false} UpdateStreamIs(s: Relay, dir: Direction, status: Wait)
    requires MasksRight(s) && s.remoteMask.Mask?
    ensures var up, down := if dir.Up? then status else s.up, if dir.Down? then status else s.down;
            UpdateStream(s, dir, status) ==
            s.(up := up, down := down, localMask := LocalMask(up, down), remoteMask := RemoteMask(up, down))
  {
  }

  /** What a send leaves of the data is pending behind what it took. */
  lemma {:induction false} PendingRest(before: Bytes, data: Bytes, sent: Sent)
    ensures var rest := Unsent(data, sent);
            && |rest| <= |data| && Join([]) == []
            && before + data == before + data[..|data| - |rest|] + Join([rest])
            && (rest == [] ==> before + data == before + data[..|data| - |rest|] + [])
            && [] + [rest] == [rest]
  {
    var rest := Unsent(data, sent);
    UnsentSplits(data, sent);
    JoinOne(rest);
    var taken := data[..|data| - |rest|];
    assert before + (taken + rest) == before + taken + rest;
  }

  /** Writing to the remote side when nothing is pending keeps the invariant. */
  lemma {:induction false} WriteToRemoteKeeps(s: Relay, data: Bytes, sent: Sent)
    requires s.stage.Stream? && data != [] && s.toRemote == [] && s.remoteMask.Mask? && MasksRight(s)
    requires s.fromClient == s.sentRemote + data && s.fromTarget == s.sentLocal + Join(s.toLocal)
    requires NonEmpty(s.toLocal) && s.down == (if s.toLocal == [] then WAIT_READING else WAIT_WRITING)
    requires s.transferred + |data| == |s.fromClient| + s.recounted
    ensures Inv(WriteToRemote(s, data, sent))
  {
    hide Join, UpdateStream, Unsent;
    var rest := Unsent(data, sent);
    PendingRest(s.sentRemote, data, sent);
    if !sent.Error? {
      var s2 := s.(transferred := s.transferred + |data|, sentRemote := s.sentRemote + data[..|data| - |rest|]);
      UpdateStreamIs(s2, Up, WAIT_READING);
      UpdateStreamIs(s2.(toRemote := s2.toRemote + [rest]), Up, WAIT_WRITING);
      var t := WriteToRemote(s, data, sent);
      assert t.fromClient == s.fromClient && t.toRemote == (if rest == [] then [] else [rest]);
      assert Conserved(t);
      assert MasksRight(t);
    }
  }

  lemma {:induction false} WriteToLocalKeeps(s: Relay, data: Bytes, sent: Sent)
    requires (s.stage.Stream? || s.stage.Connecting?) && data != [] && s.toLocal == [] && MasksRight(s)
    requires s.fromTarget == s.sentLocal + data && s.fromClient == s.sentRemote + Join(s.toRemote)
    requires NonEmpty(s.toRemote) && s.remoteMask.Mask? && Counted(s)
    requires s.up == (if s.stage.Connecting? then WAIT_READWRITING else if s.toRemote == [] then WAIT_READING else WAIT_WRITING)
    ensures Inv(WriteToLocal(s, data, sent))
  {
    hide Join, UpdateStream, Unsent;
    var rest := Unsent(data, sent);
    PendingRest(s.sentLocal, data, sent);
    if !sent.Error? {
      var s1 := s.(sentLocal := s.sentLocal + data[..|data| - |rest|]);
      UpdateStreamIs(s1, Down, WAIT_READING);
      UpdateStreamIs(s1.(toLocal := s1.toLocal + [rest]), Down, WAIT_WRITING);
      var t := WriteToLocal(s, data, sent);
      assert t.fromTarget == s.fromTarget && t.toLocal == (if rest == [] then [] else [rest]);
      assert Conserved(t);
      assert MasksRight(t);
    }
  }

  lemma {:induction false} LocalReadKeeps(s: Relay, data: Bytes, header: int, sent: Sent)
    requires Inv(s) && Enabled(s, LocalRead(data, header, sent))
    ensures Inv(OnLocalRead(s, data, header, sent))
  {
    hide Join, WriteToRemote;
    JoinOne(data);
    if data != [] {
      match s.stage
      case Stream =>
        WriteToRemoteKeeps(s.(fromClient := s.fromClient + data), data, sent);
      case Connecting =>
        JoinAppends(s.toRemote, [data]);
      case Init =>
        if 0 <= header < |data| {
          JoinOne(data[header..]);
          assert [] + [data[header..]] == [data[header..]];
        }
      case Dns =>
    }
  }

  lemma {:induction false} RemoteReadKeeps(s: Relay, data: Bytes, sent: Sent)
    requires Inv(s) && Enabled(s, RemoteRead(data, sent))
    ensures Inv(OnRemoteRead(s, data, sent))
  {
    hide Join, WriteToLocal;
    JoinOne(data);
    if data != [] {
      WriteToLocalKeeps(s.(fromTarget := s.fromTarget + data), data, sent);
    }
  }

  lemma {:induction false} JoinNonEmpty(chunks: seq<Bytes>)
    requires NonEmpty(chunks) && chunks != []
    ensures Join(chunks) != []
  {
    assert chunks[0] != [];
  }

  lemma {:induction false} LocalWriteKeeps(s: Relay, sent: Sent)
    requires Inv(s) && Enabled(s, LocalWrite(sent))
    ensures Inv(OnLocalWrite(s, sent))
  {
    hide Join, WriteToLocal;
    JoinNonEmpty(s.toLocal);
    JoinOne([]);
    WriteToLocalKeeps(s.(toLocal := []), Join(s.toLocal), sent);
  }

  lemma {:induction false} RemoteWriteKeeps(s: Relay, sent: Sent)
    requires Inv(s) && Enabled(s, RemoteWrite(sent))
    ensures Inv(OnRemoteWrite(s, sent))
  {
    hide Join, WriteToRemote;
    JoinOne([]);
    var again := if s.stage.Stream? then |Join(s.toRemote)| else 0;
    var s1 := s.(stage := Stream, recounted := s.recounted + again);
    if s.toRemote != [] {
      JoinNonEmpty(s.toRemote);
      WriteToRemoteKeeps(s1.(toRemote := []), Join(s.toRemote), sent);
    }
  }

  /** Every enabled event keeps the invariant. */
  lemma {:induction false} HandleKeeps(s: Relay, ev: Event)
    requires Inv(s) && Enabled(s, ev)
    ensures Inv(Handle(s, ev))
  {
    hide OnLocalRead, OnRemoteRead, OnLocalWrite, OnRemoteWrite;
    match ev
    case LocalRead(data, header, sent) => LocalReadKeeps(s, data, header, sent);
    case Resolved(_) =>
    case RemoteRead(data, sent) => RemoteReadKeeps(s, data, sent);
    case LocalWrite(sent) => LocalWriteKeeps(s, sent);
    case RemoteWrite(sent) => RemoteWriteKeeps(s, sent);
    case _ =>
  }

  // ----- whole runs

  ghost predicate EnabledRun(s: Relay, evs: seq<Event>)
    decreases |evs|
  {
    evs == [] || (Enabled(s, evs[0]) && EnabledRun(Handle(s, evs[0]), evs[1..]))
  }

  function RunEnd(s: Relay, evs: seq<Event>): Relay
    decreases |evs|
  {
    if evs == [] then s else RunEnd(Handle(s, evs[0]), evs[1..])
  }

  lemma {:induction false} RunKeeps(s: Relay, evs: seq<Event>)
    requires Inv(s) && EnabledRun(s, evs)
    ensures Inv(RunEnd(s, evs))
    decreases |evs|
  {
    hide Handle, Enabled;
    if evs != [] {
      HandleKeeps(s, evs[0]);
      RunKeeps(Handle(s, evs[0]), evs[1..]);
    }
  }

  // ----- what the events carried

  /** All bytes that the client's reads delivered, without the address header in front of the first. */
  function ClientBytes(evs: seq<Event>, first: bool): Bytes {
    if evs == [] then []
    else
      match evs[0]
      case LocalRead(data, header, _) =>
        (if first && 0 <= header <= |data| then data[header..] else data) + ClientBytes(evs[1..], false)
      case _ => ClientBytes(evs[1..], first)
  }

  /** All bytes that the target's reads delivered. */
  function TargetBytes(evs: seq<Event>): Bytes {
    if evs == [] then []
    else
      match evs[0]
      case RemoteRead(data, _) => data + TargetBytes(evs[1..])
      case _ => TargetBytes(evs[1..])
  }

  /** Every enabled event that does not end the connection takes over all of its data, and nothing else. */
  lemma {:induction false} HandleTakesOver(s: Relay, ev: Event)
    requires Inv(s) && Enabled(s, ev) && Handle(s, ev).stage != Destroyed
    ensures var t := Handle(s, ev);
            && t.fromClient == s.fromClient + ClientBytes([ev], s.stage.Init?)
            && t.fromTarget == s.fromTarget + TargetBytes([ev])
            && (t.stage.Init? <==> s.stage.Init? && !ev.LocalRead?)
  {
    hide Join, Unsent, WriteToRemote, WriteToLocal, UpdateStream;
    OneEvent(ev, s.stage.Init?);
    hide ClientBytes, TargetBytes;
    assert s.fromClient + [] == s.fromClient && s.fromTarget + [] == s.fromTarget;
    WritesKeepBytes();
    StreamKeepsBytes();
  }

  lemma {:induction false} OneEvent(ev: Event, first: bool)
    ensures ClientBytes([ev], first) ==
            if ev.LocalRead? then (if first && 0 <= ev.header <= |ev.data| then ev.data[ev.header..] else ev.data) else []
    ensures TargetBytes([ev]) == if ev.RemoteRead? then ev.data else []
  {
    assert [ev][1..] == [];
  }

  /** Writing leaves what was received alone, and the stage too unless it fails. */
  lemma {:induction false} WritesKeepBytes()
    ensures forall t, data, sent :: WriteToRemote(t, data, sent).fromClient == t.fromClient
    ensures forall t, data, sent :: WriteToRemote(t, data, sent).fromTarget == t.fromTarget
    ensures forall t, data, sent :: WriteToLocal(t, data, sent).fromClient == t.fromClient
    ensures forall t, data, sent :: WriteToLocal(t, data, sent).fromTarget == t.fromTarget
    ensures forall t, data, sent :: WriteToRemote(t, data, sent).stage == t.stage || WriteToRemote(t, data, sent).stage == Destroyed
    ensures forall t, data, sent :: WriteToLocal(t, data, sent).stage == t.stage || WriteToLocal(t, data, sent).stage == Destroyed
  {
    hide Unsent;
  }

  /** Updating a stream leaves all bytes alone. */
  lemma {:induction false} StreamKeepsBytes()
    ensures forall t, dir, status :: UpdateStream(t, dir, status).stage == t.stage
    ensures forall t, dir, status :: UpdateStream(t, dir, status).fromClient == t.fromClient
    ensures forall t, dir, status :: UpdateStream(t, dir, status).fromTarget == t.fromTarget
  {
  }

  lemma {:induction false} DestroyedStays(s: Relay, evs: seq<Event>)
    requires s.stage == Destroyed && EnabledRun(s, evs)
    ensures evs == [] && RunEnd(s, evs) == s
  {
  }

  lemma {:induction false} BytesCons(ev: Event, evs: seq<Event>, first: bool)
    ensures ClientBytes([ev] + evs, first) == ClientBytes([ev], first) + ClientBytes(evs, first && !ev.LocalRead?)
    ensures TargetBytes([ev] + evs) == TargetBytes([ev]) + TargetBytes(evs)
  {
    assert ([ev] + evs)[0] == ev && ([ev] + evs)[1..] == evs && [ev][1..] == [];
  }

  lemma {:induction false} RunTakesOver(s: Relay, evs: seq<Event>)
    requires Inv(s) && EnabledRun(s, evs) && RunEnd(s, evs).stage != Destroyed
    ensures RunEnd(s, evs).fromClient == s.fromClient + ClientBytes(evs, s.stage.Init?)
    ensures RunEnd(s, evs).fromTarget == s.fromTarget + TargetBytes(evs)
    decreases |evs|
  {
    hide Handle, Enabled, Inv;
    if evs == [] {
      assert s.fromClient + [] == s.fromClient && s.fromTarget + [] == s.fromTarget;
    } else {
      var t, later := Handle(s, evs[0]), evs[1..];
      if t.stage == Destroyed {
        DestroyedStays(t, later);
        assert false;
      }
      HandleKeeps(s, evs[0]);
      HandleTakesOver(s, evs[0]);
      RunTakesOver(t, later);
      hide RunEnd, EnabledRun, ClientBytes, TargetBytes;
      assert evs == [evs[0]] + later;
      BytesCons(evs[0], later, s.stage.Init?);
    }
  }

  /** Over every run of enabled events, until the handler is destroyed: what was sent to each side, followed
      by what is pending, is what the other side's reads delivered; the masks are as prescribed; and while
      piping a direction with pending data is not read from. */
  lemma {:induction false} EveryRunConserves(evs: seq<Event>)
    requires EnabledRun(START, evs) && RunEnd(START, evs).stage != Destroyed
    ensures var s := RunEnd(START, evs);
            && ClientBytes(evs, true) == s.sentRemote + Join(s.toRemote) && TargetBytes(evs) == s.sentLocal + Join(s.toLocal)
            && s.fromClient == ClientBytes(evs, true) && s.fromTarget == TargetBytes(evs)
            && MasksRight(s) && (s.stage.Stream? ==> s.remoteMask.Mask?)
            && (s.stage.Stream? && s.toRemote != [] ==> !s.localMask.pollIn && s.remoteMask.pollOut)
            && (s.stage.Stream? && s.toLocal != [] ==> !s.remoteMask.pollIn && s.localMask.pollOut)
            && (s.stage.Stream? ==> s.transferred == |s.fromClient| + s.recounted)
  {
    hide RunEnd, EnabledRun, ClientBytes, TargetBytes;
    JoinOne([]);
    RunKeeps(START, evs);
    RunTakesOver(START, evs);
    assert [] + ClientBytes(evs, true) == ClientBytes(evs, true) && [] + TargetBytes(evs) == TargetBytes(evs);
  }

  // ----- what is sent, and when a connection ends

  /** How many of `n` offered bytes the kernel took. */
  function KernelTook(sent: Sent, n: nat): nat {
    match sent
    case Took(k) => if k < n then k else n
    case _ => 0
  }

  /** What an event hands to the target's socket, and what to the client's. */
  function OfferedUp(s: Relay, ev: Event): (Bytes, Sent) {
    match ev
    case LocalRead(data, _, sent) => (if s.stage.Stream? then data else [], sent)
    case RemoteWrite(sent) => (Join(s.toRemote), sent)
    case _ => ([], WouldBlock)
  }

  function OfferedDown(s: Relay, ev: Event): (Bytes, Sent) {
    match ev
    case RemoteRead(data, sent) => (data, sent)
    case LocalWrite(sent) => (Join(s.toLocal), sent)
    case _ => ([], WouldBlock)
  }

  /** The bytes sent are just those the kernel took, from the front of what was offered. */
  lemma {:induction false} SendsExactly(s: Relay, ev: Event)
    requires Inv(s) && Enabled(s, ev) && Handle(s, ev).stage != Destroyed
    ensures var (up, sentUp), (down, sentDown) := OfferedUp(s, ev), OfferedDown(s, ev);
            && Handle(s, ev).sentRemote == s.sentRemote + up[..KernelTook(sentUp, |up|)]
            && Handle(s, ev).sentLocal == s.sentLocal + down[..KernelTook(sentDown, |down|)]
  {
    hide Join, WriteToRemote, WriteToLocal, UpdateStream;
    JoinOne([]);
    assert s.sentRemote + [] == s.sentRemote && s.sentLocal + [] == s.sentLocal;
    StreamKeepsSent();
    match ev
    case LocalRead(data, _, sent) => WriteSends(s.(fromClient := s.fromClient + data), data, sent);
    case RemoteRead(data, sent) => WriteSends(s.(fromTarget := s.fromTarget + data), data, sent);
    case RemoteWrite(sent) =>
      var again := if s.stage.Stream? then |Join(s.toRemote)| else 0;
      WriteSends(s.(stage := Stream, recounted := s.recounted + again, toRemote := []), Join(s.toRemote), sent);
    case LocalWrite(sent) => WriteSends(s.(toLocal := []), Join(s.toLocal), sent);
    case _ =>
  }

  lemma {:induction false} StreamKeepsSent()
    ensures forall t, dir, status :: UpdateStream(t, dir, status).sentRemote == t.sentRemote
    ensures forall t, dir, status :: UpdateStream(t, dir, status).sentLocal == t.sentLocal
  {
  }

  lemma {:induction false} WriteSends(s: Relay, data: Bytes, sent: Sent)
    ensures var t := WriteToRemote(s, data, sent);
            t.stage != Destroyed ==> t.sentRemote == s.sentRemote + data[..KernelTook(sent, |data|)] && t.sentLocal == s.sentLocal
    ensures var t := WriteToLocal(s, data, sent);
            t.stage != Destroyed ==> t.sentLocal == s.sentLocal + data[..KernelTook(sent, |data|)] && t.sentRemote == s.sentRemote
  {
    hide UpdateStream;
    StreamKeepsSent();
    TakenExactly(data, sent);
    assert s.sentRemote + [] == s.sentRemote && s.sentLocal + [] == s.sentLocal;
  }

  lemma {:induction false} TakenExactly(data: Bytes, sent: Sent)
    ensures !sent.Error? ==> |data| - |Unsent(data, sent)| == KernelTook(sent, |data|)
  {
  }

  /** A connection ends exactly when a side closes, a send fails, the header cannot be parsed, the name cannot
      be resolved, or an error is reported. */
  lemma {:induction false} EndsExactly(s: Relay, ev: Event)
    requires Inv(s) && Enabled(s, ev)
    ensures Handle(s, ev).stage == Destroyed <==>
            || (ev.LocalRead? && ev.data == []) || (ev.RemoteRead? && ev.data == [])
            || (ev.LocalRead? && s.stage.Init? && !(0 <= ev.header <= |ev.data|))
            || (OfferedUp(s, ev).0 != [] && OfferedUp(s, ev).1.Error?)
            || (OfferedDown(s, ev).0 != [] && OfferedDown(s, ev).1.Error?)
            || (ev.Resolved? && !ev.ok) || ev.Failure?
    ensures Handle(s, ev).stage == Destroyed ==> Handle(s, ev).localMask.Unregistered? && Handle(s, ev).remoteMask.Unregistered?
  {
    hide Join, Unsent;
    JoinOne([]);
  }

  /** Otherwise the stages follow each other: the header, the name, the connection, and piping. */
  lemma {:induction false} StagesFollow(s: Relay, ev: Event)
    requires Inv(s) && Enabled(s, ev) && Handle(s, ev).stage != Destroyed
    ensures Handle(s, ev).stage ==
            match ev
            case LocalRead(_, _, _) => if s.stage.Init? then Dns else s.stage
            case Resolved(_) => Connecting
            case RemoteWrite(_) => Stream
            case _ => s.stage
  {
    hide Join, Unsent;
  }

  // ----- reads that the masks did not ask for

  /** The part of `data` that a send took. */
  function Taken(data: Bytes, sent: Sent): Bytes {
    UnsentSplits(data, sent);
    data[..|data| - |Unsent(data, sent)|]
  }

  ghost predicate UpInOrder(s: Relay) {
    s.fromClient == s.sentRemote + Join(s.toRemote)
  }

  ghost predicate DownInOrder(s: Relay) {
    s.fromTarget == s.sentLocal + Join(s.toLocal)
  }

  /** A read handled while data is pending (reported before the mask changed, or with a hang-up) sends its
      bytes ahead of the pending ones. The order is kept if and only if the two commute. */
  lemma {:induction false} ReadKeepsOrderExactly(s: Relay, data: Bytes, sent: Sent)
    requires Inv(s) && s.stage.Stream? && data != [] && !sent.Error?
    ensures var x, pending := Taken(data, sent), Join(s.toRemote);
            UpInOrder(OnLocalRead(s, data, 0, sent)) <==> pending + x == x + pending
  {
    hide Join, UpdateStream, Unsent;
    var rest, x, pending := Unsent(data, sent), Taken(data, sent), Join(s.toRemote);
    UnsentSplits(data, sent);
    var t := OnLocalRead(s, data, 0, sent);
    StreamUntouched(s.(fromClient := s.fromClient + data, transferred := s.transferred + |data|,
                       sentRemote := s.sentRemote + x), Up, rest);
    PendingBehind(s.toRemote, rest);
    assert t.fromClient == s.fromClient + data && t.sentRemote == s.sentRemote + x;
    assert Join(t.toRemote) == pending + rest;
    Commutes(s.sentRemote, pending, x, rest);
    assert s.fromClient + data == s.sentRemote + pending + (x + rest);
  }

  /** The same towards the client. */
  lemma {:induction false} TargetReadKeepsOrderExactly(s: Relay, data: Bytes, sent: Sent)
    requires Inv(s) && s.stage != Destroyed && data != [] && !sent.Error?
    ensures var x, pending := Taken(data, sent), Join(s.toLocal);
            DownInOrder(OnRemoteRead(s, data, sent)) <==> pending + x == x + pending
  {
    hide Join, UpdateStream, Unsent;
    var rest, x, pending := Unsent(data, sent), Taken(data, sent), Join(s.toLocal);
    UnsentSplits(data, sent);
    var t := OnRemoteRead(s, data, sent);
    StreamUntouched(s.(fromTarget := s.fromTarget + data, sentLocal := s.sentLocal + x), Down, rest);
    PendingBehind(s.toLocal, rest);
    assert t.fromTarget == s.fromTarget + data && t.sentLocal == s.sentLocal + x;
    assert Join(t.toLocal) == pending + rest;
    Commutes(s.sentLocal, pending, x, rest);
    assert s.fromTarget + data == s.sentLocal + pending + (x + rest);
  }

  /** Updating a stream moves statuses and masks only. */
  lemma {:induction false} StreamUntouched(s: Relay, dir: Direction, rest: Bytes)
    ensures forall status {:trigger UpdateStream(s, dir, status)} ::
              var t := UpdateStream(s, dir, status);
              t == s.(up := t.up, down := t.down, localMask := t.localMask, remoteMask := t.remoteMask)
    ensures forall status {:trigger UpdateStream(s.(toRemote := s.toRemote + [rest]), dir, status)} ::
              var r := s.(toRemote := s.toRemote + [rest]);
              var t := UpdateStream(r, dir, status);
              t == r.(up := t.up, down := t.down, localMask := t.localMask, remoteMask := t.remoteMask)
    ensures forall status {:trigger UpdateStream(s.(toLocal := s.toLocal + [rest]), dir, status)} ::
              var r := s.(toLocal := s.toLocal + [rest]);
              var t := UpdateStream(r, dir, status);
              t == r.(up := t.up, down := t.down, localMask := t.localMask, remoteMask := t.remoteMask)
  {
  }

  lemma {:induction false} PendingBehind(chunks: seq<Bytes>, rest: Bytes)
    ensures Join(chunks + [rest]) == Join(chunks) + rest && Join(chunks) + [] == Join(chunks)
  {
    JoinAppends(chunks, [rest]);
    JoinOne(rest);
  }

  lemma {:induction false} Commutes(before: Bytes, pending: Bytes, x: Bytes, rest: Bytes)
    ensures before + pending + (x + rest) == before + x + (pending + rest) <==> pending + x == x + pending
  {
    var l, r := before + pending + (x + rest), before + x + (pending + rest);
    assert l == before + (pending + x) + rest && r == before + (x + pending) + rest;
    if l == r {
      var n := |before|;
      assert l[n..n + |pending + x|] == pending + x && r[n..n + |pending + x|] == x + pending;
    }
  }

  /** What a caller can see beforehand: every read, whatever the kernel then takes of it, keeps the order if
      and only if nothing is pending, which is when the mask asks for reads. */
  lemma {:induction false} ReadsAreSafeExactly(s: Relay)
    requires Inv(s) && s.stage.Stream?
    ensures (forall data: Bytes, sent: Sent :: data != [] && !sent.Error? ==> UpInOrder(OnLocalRead(s, data, 0, sent)))
            <==> s.toRemote == []
    ensures (forall data: Bytes, sent: Sent :: data != [] && !sent.Error? ==> DownInOrder(OnRemoteRead(s, data, sent)))
            <==> s.toLocal == []
    ensures s.localMask.pollIn <==> s.toRemote == []
    ensures s.remoteMask.pollIn <==> s.toLocal == []
  {
    hide Join, OnLocalRead, OnRemoteRead;
    JoinOne([]);
    forall data: Bytes, sent: Sent | data != [] && !sent.Error?
      ensures s.toRemote == [] ==> UpInOrder(OnLocalRead(s, data, 0, sent))
      ensures s.toLocal == [] ==> DownInOrder(OnRemoteRead(s, data, sent))
    {
      ReadKeepsOrderExactly(s, data, sent);
      TargetReadKeepsOrderExactly(s, data, sent);
      assert [] + Taken(data, sent) == Taken(data, sent) + [];
    }
    if s.toRemote != [] {
      JoinNonEmpty(s.toRemote);
      var other := Overtaker(Join(s.toRemote));
      ReadKeepsOrderExactly(s, [other], Took(1));
      OvertakerDiffers(Join(s.toRemote));
      assert !UpInOrder(OnLocalRead(s, [other], 0, Took(1)));
    }
    if s.toLocal != [] {
      JoinNonEmpty(s.toLocal);
      var other := Overtaker(Join(s.toLocal));
      TargetReadKeepsOrderExactly(s, [other], Took(1));
      OvertakerDiffers(Join(s.toLocal));
      assert !DownInOrder(OnRemoteRead(s, [other], Took(1)));
    }
  }

  /** A byte that does not commute with what is pending. */
  function Overtaker(pending: Bytes): Byte
    requires pending != []
  {
    if pending[0] == 0 then 1 else 0
  }

  lemma {:induction false} OvertakerDiffers(pending: Bytes)
    requires pending != []
    ensures Taken([Overtaker(pending)], Took(1)) == [Overtaker(pending)]
    ensures pending + [Overtaker(pending)] != [Overtaker(pending)] + pending
  {
    assert (pending + [Overtaker(pending)])[0] == pending[0];
  }

  lemma {:induction false} RunCons(s: Relay, e: Event, rest: seq<Event>)
    ensures RunEnd(s, [e] + rest) == RunEnd(Handle(s, e), rest)
    ensures EnabledRun(s, [e] + rest) <==> Enabled(s, e) && EnabledRun(Handle(s, e), rest)
  {
    assert ([e] + rest)[1..] == rest;
  }

  /** And such a state is reachable: connect, flush one byte of two, then handle the old read event. */
  lemma {:induction false} StaleReadCounterexample()
    ensures var connect := [LocalRead([7, 1, 2], 1, WouldBlock)] + ([Resolved(true)] + []);
            var flushed := Handle(RunEnd(START, connect), RemoteWrite(Took(1)));
            var stale := LocalRead([3], 0, Took(1));
            && EnabledRun(START, connect) && Enabled(RunEnd(START, connect), RemoteWrite(Took(1)))
            && Enabled(RunEnd(START, connect), stale) && !Enabled(flushed, stale)
            && Handle(flushed, stale).sentRemote == [1, 3] && Handle(flushed, stale).fromClient == [1, 2, 3]
  {
    hide RunEnd, EnabledRun;
    var e0, e1 := LocalRead([7, 1, 2], 1, WouldBlock), Resolved(true);
    TwoBytesPending();
    var s1 := Handle(START, e0);
    var s2 := Handle(s1, e1);
    RunCons(START, e0, [e1] + []);
    RunCons(s1, e1, []);
    NoEvents(s2);
    FirstByteSent(s2);
    hide Handle;
    StaleByteSent(Handle(s2, RemoteWrite(Took(1))));
  }

  lemma {:induction false} StaleByteSent(s: Relay)
    requires s == Relay(Stream, WAIT_WRITING, WAIT_READING, Mask(false, false), Mask(true, true),
                        [[2]], [], [1, 2], [1], [], [], 2, 0)
    ensures var stale := LocalRead([3], 0, Took(1));
            !Enabled(s, stale) && Handle(s, stale).sentRemote == [1, 3] && Handle(s, stale).fromClient == [1, 2, 3]
  {
    hide Join;
    assert [3][..1] == [3] && [1] + [3] == [1, 3] && [1, 2] + [3] == [1, 2, 3];
  }

  // ----- the upstream counter

  /** Some event of the run flushes pending bytes once more after the connection has been established. */
  ghost predicate FlushesAgain(s: Relay, evs: seq<Event>)
    decreases |evs|
  {
    evs != [] && ((s.stage.Stream? && evs[0].RemoteWrite?) || FlushesAgain(Handle(s, evs[0]), evs[1..]))
  }

  lemma {:induction false} RecountedStep(s: Relay, ev: Event)
    requires Inv(s) && Enabled(s, ev)
    ensures Handle(s, ev).recounted >= s.recounted
    ensures Handle(s, ev).recounted > s.recounted <==> s.stage.Stream? && ev.RemoteWrite?
  {
    hide Join, Unsent;
    if s.stage.Stream? && ev.RemoteWrite? {
      JoinNonEmpty(s.toRemote);
    }
  }

  /** Over every run, bytes are counted again if and only if there is a second flush. */
  lemma {:induction false} RecountedExactly(s: Relay, evs: seq<Event>)
    requires Inv(s) && EnabledRun(s, evs)
    ensures RunEnd(s, evs).recounted >= s.recounted
    ensures RunEnd(s, evs).recounted == s.recounted <==> !FlushesAgain(s, evs)
    decreases |evs|
  {
    hide Handle, Enabled, Inv;
    if evs != [] {
      RecountedStep(s, evs[0]);
      HandleKeeps(s, evs[0]);
      RecountedExactly(Handle(s, evs[0]), evs[1..]);
    }
  }

  /** The server's counter shows exactly the bytes the client sent if and only if no pending bytes had to be
      flushed a second time; otherwise it shows more. */
  lemma {:induction false} CounterIsExactly(evs: seq<Event>)
    requires EnabledRun(START, evs) && RunEnd(START, evs).stage.Stream?
    ensures var s := RunEnd(START, evs);
            && s.transferred >= |s.fromClient|
            && (s.transferred == |s.fromClient| <==> !FlushesAgain(START, evs))
  {
    hide RunEnd, EnabledRun, FlushesAgain;
    JoinOne([]);
    RunKeeps(START, evs);
    RecountedExactly(START, evs);
  }

  /** Two bytes, sent one at a time: the counter shows three. */
  lemma {:induction false} CounterCounterexample()
    ensures var evs := [LocalRead([7, 1, 2], 1, WouldBlock)] + ([Resolved(true)] +
                       ([RemoteWrite(Took(1))] + ([RemoteWrite(Took(1))] + [])));
            && EnabledRun(START, evs) && RunEnd(START, evs).stage.Stream?
            && RunEnd(START, evs).sentRemote == [1, 2] == RunEnd(START, evs).fromClient
            && RunEnd(START, evs).transferred == 3
  {
    hide RunEnd, EnabledRun;
    var e0, e1, e2 := LocalRead([7, 1, 2], 1, WouldBlock), Resolved(true), RemoteWrite(Took(1));
    TwoBytesPending();
    var s1 := Handle(START, e0);
    var s2 := Handle(s1, e1);
    RunCons(START, e0, [e1] + ([e2] + ([e2] + [])));
    RunCons(s1, e1, [e2] + ([e2] + []));
    FirstByteSent(s2);
    var s3 := Handle(s2, e2);
    SecondByteSent(s3);
    var s4 := Handle(s3, e2);
    hide Handle, Enabled;
    RunCons(s2, e2, [e2] + []);
    RunCons(s3, e2, []);
    NoEvents(s4);
  }

  /** A client that sent a header and two bytes, before the target's socket is writable. */
  lemma {:induction false} TwoBytesPending()
    ensures var e0, e1 := LocalRead([7, 1, 2], 1, WouldBlock), Resolved(true);
            && Enabled(START, e0) && Enabled(Handle(START, e0), e1)
            && Handle(Handle(START, e0), e1) ==
               Relay(Connecting, WAIT_READWRITING, WAIT_READING, Mask(true, false), Mask(true, true),
                     [[1, 2]], [], [1, 2], [], [], [], 0, 0)
  {
    assert [7, 1, 2][1..] == [1, 2];
    assert [] + [[1, 2]] == [[1, 2]] && [] + [1, 2] == [1, 2];
  }

  lemma {:induction false} FirstByteSent(s: Relay)
    requires s == Relay(Connecting, WAIT_READWRITING, WAIT_READING, Mask(true, false), Mask(true, true),
                        [[1, 2]], [], [1, 2], [], [], [], 0, 0)
    ensures Enabled(s, RemoteWrite(Took(1)))
    ensures Handle(s, RemoteWrite(Took(1))) ==
            Relay(Stream, WAIT_WRITING, WAIT_READING, Mask(false, false), Mask(true, true),
                  [[2]], [], [1, 2], [1], [], [], 2, 0)
  {
    JoinOne([1, 2]);
    hide Join;
    assert [1, 2][1..] == [2] && [1, 2][..1] == [1];
    assert [] + [[2]] == [[2]] && [] + [1] == [1];
  }

  lemma {:induction false} SecondByteSent(s: Relay)
    requires s == Relay(Stream, WAIT_WRITING, WAIT_READING, Mask(false, false), Mask(true, true),
                        [[2]], [], [1, 2], [1], [], [], 2, 0)
    ensures Enabled(s, RemoteWrite(Took(1)))
    ensures var t := Handle(s, RemoteWrite(Took(1)));
            t.stage == Stream && t.sentRemote == [1, 2] && t.fromClient == [1, 2] && t.transferred == 3
  {
    JoinOne([2]);
    hide Join;
    assert [2][..1] == [2] && [1] + [2] == [1, 2];
  }

  lemma {:induction false} NoEvents(s: Relay)
    ensures RunEnd(s, []) == s && EnabledRun(s, [])
  {
  }
}
