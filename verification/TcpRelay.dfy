/** The relay handler object: its fields change handler by handler, as RelayFlow prescribes. */
module TcpRelay {
  import opened Binary
  import opened Flow = RelayFlow

  class TCPRelayHandler {
    var stage: Stage
    var upstreamStatus: Wait
    var downstreamStatus: Wait
    var localMask: Mask  // what the event loop has registered for the local socket
    var remoteMask: Mask  // and for the remote socket, once there is one
    var dataToWriteToRemote: seq<Bytes>
    var dataToWriteToLocal: seq<Bytes>
    var transferred: nat  // the server's upstream counter

    ghost var fromClient: Bytes
    ghost var sentRemote: Bytes
    ghost var fromTarget: Bytes
    ghost var sentLocal: Bytes
    ghost var recounted: nat

    constructor ()
      ensures State() == START
    {
      stage, upstreamStatus, downstreamStatus := Init, WAIT_READING, WAIT_INIT;
      localMask, remoteMask := Mask(true, false), Unregistered;
      dataToWriteToRemote, dataToWriteToLocal, transferred := [], [], 0;
      fromClient, sentRemote, fromTarget, sentLocal, recounted := [], [], [], [], 0;
    }

    ghost function State(): Relay
      reads this
    {
      Relay(stage, upstreamStatus, downstreamStatus, localMask, remoteMask, dataToWriteToRemote, dataToWriteToLocal,
            fromClient, sentRemote, fromTarget, sentLocal, transferred, recounted)
    }

    method UpdateStream(dir: Direction, status: Wait)
      modifies `upstreamStatus, `downstreamStatus, `localMask, `remoteMask
      ensures State() == Flow.UpdateStream(old(State()), dir, status)
    {
      var dirty := false;
      if dir.Down? {
        if downstreamStatus != status {
          downstreamStatus := status;
          dirty := true;
        }
      } else if upstreamStatus != status {
        upstreamStatus := status;
        dirty := true;
      }
      if dirty {
        localMask := Mask(upstreamStatus.reading, downstreamStatus.writing);
        if remoteMask.Mask? {
          remoteMask := Mask(downstreamStatus.reading, upstreamStatus.writing);
        }
      }
    }

    method Destroy()
      modifies `stage, `localMask, `remoteMask
      ensures State() == Flow.Destroy(old(State()))
    {
      stage, localMask, remoteMask := Destroyed, Unregistered, Unregistered;
    }

    /** _write_to_sock for the remote socket: the whole of `data` is counted before it is sent. */
    method WriteToRemote(data: Bytes, sent: Sent)
      modifies this
      ensures State() == Flow.WriteToRemote(old(State()), data, sent)
    {
      hide Flow.UpdateStream, Flow.Destroy;
      transferred := transferred + |data|;
      if |data| == 0 {
        return;
      }
      if sent.Error? {
        Destroy();
        return;
      }
      var rest := Unsent(data, sent);
      sentRemote := sentRemote + data[..|data| - |rest|];
      if |rest| > 0 {
        dataToWriteToRemote := dataToWriteToRemote + [rest];
        UpdateStream(Up, WAIT_WRITING);
      } else {
        UpdateStream(Up, WAIT_READING);
      }
    }

    /** _write_to_sock for the local socket. */
    method WriteToLocal(data: Bytes, sent: Sent)
      modifies this
      ensures State() == Flow.WriteToLocal(old(State()), data, sent)
    {
      hide Flow.UpdateStream, Flow.Destroy;
      if |data| == 0 {
        return;
      }
      if sent.Error? {
        Destroy();
        return;
      }
      var rest := Unsent(data, sent);
      sentLocal := sentLocal + data[..|data| - |rest|];
      if |rest| > 0 {
        dataToWriteToLocal := dataToWriteToLocal + [rest];
        UpdateStream(Down, WAIT_WRITING);
      } else {
        UpdateStream(Down, WAIT_READING);
      }
    }

    method OnLocalRead(data: Bytes, header: int, sent: Sent)
      modifies this
      ensures State() == Flow.OnLocalRead(old(State()), data, header, sent)
    {
      hide Flow.WriteToRemote, Flow.WriteToLocal, Flow.UpdateStream, Flow.Destroy;
      if |data| == 0 {
        Destroy();
        return;
      }
      match stage {
        case Stream =>
          fromClient := fromClient + data;
          WriteToRemote(data, sent);
        case Connecting =>
          fromClient := fromClient + data;
          dataToWriteToRemote := dataToWriteToRemote + [data];
        case Init =>
          if header < 0 || header > |data| {
            Destroy();
            return;
          }
          UpdateStream(Up, WAIT_WRITING);
          stage := Dns;
          if |data| > header {
            dataToWriteToRemote := dataToWriteToRemote + [data[header..]];
            fromClient := fromClient + data[header..];
          }
        case Dns =>
        case Destroyed =>
      }
    }

    method OnDnsResolved(resolved: bool)
      modifies this
      ensures State() == Flow.OnDnsResolved(old(State()), resolved)
    {
      if !resolved {
        Destroy();
        return;
      }
      stage := Connecting;
      remoteMask := Mask(false, true);
      UpdateStream(Up, WAIT_READWRITING);
      UpdateStream(Down, WAIT_READING);
    }

    method OnRemoteRead(data: Bytes, sent: Sent)
      modifies this
      ensures State() == Flow.OnRemoteRead(old(State()), data, sent)
    {
      hide Flow.WriteToRemote, Flow.WriteToLocal, Flow.UpdateStream, Flow.Destroy;
      if |data| == 0 {
        Destroy();
        return;
      }
      fromTarget := fromTarget + data;
      WriteToLocal(data, sent);
    }

    method OnLocalWrite(sent: Sent)
      modifies this
      ensures State() == Flow.OnLocalWrite(old(State()), sent)
    {
      hide Flow.WriteToRemote, Flow.WriteToLocal, Flow.UpdateStream, Join;
      if |dataToWriteToLocal| > 0 {
        var data := Join(dataToWriteToLocal);
        dataToWriteToLocal := [];
        WriteToLocal(data, sent);
      } else {
        UpdateStream(Down, WAIT_READING);
      }
    }

    method OnRemoteWrite(sent: Sent)
      modifies this
      ensures State() == Flow.OnRemoteWrite(old(State()), sent)
    {
      hide Flow.WriteToRemote, Flow.WriteToLocal, Flow.UpdateStream, Join;
      recounted := recounted + if stage.Stream? then |Join(dataToWriteToRemote)| else 0;
      stage := Stream;
      if |dataToWriteToRemote| > 0 {
        var data := Join(dataToWriteToRemote);
        dataToWriteToRemote := [];
        WriteToRemote(data, sent);
      } else {
        UpdateStream(Up, WAIT_READING);
      }
    }

    /** The dispatch of handle_event. */
    method HandleEvent(ev: Event)
      modifies this
      ensures State() == Handle(old(State()), ev)
      ensures old(Inv(State())) && Enabled(old(State()), ev) ==> Inv(State())
    {
      hide Inv, Enabled, Flow.OnLocalRead, Flow.OnRemoteRead, Flow.OnLocalWrite, Flow.OnRemoteWrite;
      if Inv(State()) && Enabled(State(), ev) {
        HandleKeeps(State(), ev);
      }
      match ev {
        case LocalRead(data, header, sent) => OnLocalRead(data, header, sent);
        case Resolved(ok) => OnDnsResolved(ok);
        case RemoteRead(data, sent) => OnRemoteRead(data, sent);
        case LocalWrite(sent) => OnLocalWrite(sent);
        case RemoteWrite(sent) => OnRemoteWrite(sent);
        case Throttled =>
        case Failure => Destroy();
      }
    }

    /** A whole run on a new object, each event enabled when it is handled: until the handler is destroyed,
        the bytes sent followed by the pending ones are the bytes that the reads delivered, in both directions,
        and the registered masks are what the statuses prescribe. */
    method HandleEvents(evs: seq<Event>)
      requires State() == START && EnabledRun(START, evs)
      modifies this
      ensures State() == RunEnd(START, evs)
      ensures stage != Destroyed ==>
                && ClientBytes(evs, true) == sentRemote + Join(dataToWriteToRemote)
                && TargetBytes(evs) == sentLocal + Join(dataToWriteToLocal)
                && localMask == LocalMask(upstreamStatus, downstreamStatus)
                && (remoteMask.Mask? ==> remoteMask == RemoteMask(upstreamStatus, downstreamStatus))
      ensures stage == Stream ==> (transferred == |ClientBytes(evs, true)| <==> !FlushesAgain(START, evs))
    {
      hide Handle, Enabled, Inv, FlushesAgain;
      assert evs[0..] == evs;
      for i := 0 to |evs|
        invariant RunEnd(State(), evs[i..]) == RunEnd(START, evs) && EnabledRun(State(), evs[i..])
      {
        assert evs[i..][0] == evs[i] && evs[i..][1..] == evs[i + 1..];
        HandleEvent(evs[i]);
      }
      assert evs[|evs|..] == [];
      hide RunEnd, EnabledRun;
      if stage != Destroyed {
        EveryRunConserves(evs);
      }
      if stage == Stream {
        CounterIsExactly(evs);
      }
    }
  }
}
