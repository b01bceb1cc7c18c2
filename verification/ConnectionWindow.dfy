/**
  The sliding window of connection ids (client_queue of auth.py and auth_chain.py): which ids are
  accepted, and what the window's three fields are in terms of the accepted ids alone.
*/
module ConnectionWindow {

  const REACH := 0x4000
  const SPAN := 0x1000

  /** The fields front, back and alloc. */
  datatype Window = Window(front: int, back: int, alloc: set<int>)

  /** The window after re_enable. */
  function FreshAt(begin: int): Window {
    Window(begin - 64, begin + 1, {})
  }

  ghost predicate Bounded(w: Window) {
    forall x :: x in w.alloc ==> x < w.back
  }

  /** The effect of the compacting loop. */
  function Compact(w: Window): Window
    requires Bounded(w)
    decreases w.back - w.front
  {
    if w.front in w.alloc then Compact(Window(w.front + 1, w.back, w.alloc - {w.front}))
    else if w.front + SPAN < w.back then Compact(Window(w.front + 1, w.back, w.alloc))
    else w
  }

  /** What the window admits. */
  predicate Admits(w: Window, id: int) {
    w.front <= id <= w.front + REACH && id !in w.alloc
  }

  /** The window after admitting `id`. */
  function Inserted(w: Window, id: int): Window
    requires Bounded(w)
  {
    Compact(Window(w.front, if w.back <= id then id + 1 else w.back, w.alloc + {id}))
  }

  // ----- the closed form

  /** The lowest id that can still be accepted. */
  function Low(begin: int, back: int): int {
    if begin - 64 < back - SPAN then back - SPAN else begin - 64
  }

  /** The window enabled at `begin` that has accepted exactly the ids `acc`. */
  ghost predicate Closed(w: Window, begin: int, acc: set<int>) {
    && begin < w.back && (forall x :: x in acc ==> x < w.back)
    && (w.back == begin + 1 || w.back - 1 in acc)
    && Low(begin, w.back) <= w.front && w.front !in acc
    && (forall x :: Low(begin, w.back) <= x < w.front ==> x in acc)
    && w.alloc == (set x | x in acc && w.front <= x)
  }

  /** The closed form determines the window: it depends on what was accepted, not on the order. */
  lemma {:induction false} ClosedIsUnique(w1: Window, w2: Window, begin: int, acc: set<int>)
    requires Closed(w1, begin, acc) && Closed(w2, begin, acc)
    ensures w1 == w2
  {
    assert w1.back == w2.back;
    assert w1.front == w2.front;
  }

  lemma {:induction false} FreshIsClosed(begin: int)
    ensures Closed(FreshAt(begin), begin, {})
  {
  }

  /** The compacting loop moves the front to the first id that is neither accepted nor too old. */
  lemma {:induction false} CompactCloses(w: Window, begin: int, acc: set<int>)
    requires Bounded(w) && begin < w.back && (forall x :: x in acc ==> x < w.back)
    requires w.back == begin + 1 || w.back - 1 in acc
    requires begin - 64 <= w.front
    requires forall x :: Low(begin, w.back) <= x < w.front ==> x in acc
    requires w.alloc == (set x | x in acc && w.front <= x)
    ensures Closed(Compact(w), begin, acc)
    decreases w.back - w.front
  {
    if w.front in w.alloc {
      var next := Window(w.front + 1, w.back, w.alloc - {w.front});
      assert next.alloc == (set x | x in acc && next.front <= x);
      CompactCloses(next, begin, acc);
    } else if w.front + SPAN < w.back {
      var next := Window(w.front + 1, w.back, w.alloc);
      assert next.alloc == (set x | x in acc && next.front <= x);
      CompactCloses(next, begin, acc);
    } else {
      assert w.front !in acc;
    }
  }

  lemma {:induction false} ClosedIsBounded(w: Window, begin: int, acc: set<int>)
    requires Closed(w, begin, acc)
    ensures Bounded(w)
  {
  }

  /** An insertion keeps the closed form, with the id added exactly when it was admitted. */
  lemma {:induction false} InsertCloses(w: Window, begin: int, acc: set<int>, id: int)
    requires Closed(w, begin, acc) && Admits(w, id)
    ensures Bounded(w) && Closed(Inserted(w, id), begin, acc + {id})
  {
    ClosedIsBounded(w, begin, acc);
    var next := Window(w.front, if w.back <= id then id + 1 else w.back, w.alloc + {id});
    assert next.alloc == (set x | x in acc + {id} && next.front <= x);
    CompactCloses(next, begin, acc + {id});
  }

  /** In terms of the accepted ids, an id is admitted exactly when it is new, not too old and in reach. */
  lemma {:induction false} AdmitsExactly(w: Window, begin: int, acc: set<int>, id: int)
    requires Closed(w, begin, acc)
    ensures Admits(w, id) <==> id !in acc && Low(begin, w.back) <= id <= w.front + 0x4000
    ensures Admits(w, id) ==> begin - 64 <= id && w.back - 0x1000 <= id
  {
  }

  /** Every unaccepted id from the low bound up to 0x3000 past the back is admitted. */
  lemma {:induction false} AdmitsNearby(w: Window, begin: int, acc: set<int>, id: int)
    requires Closed(w, begin, acc)
    requires id !in acc && Low(begin, w.back) <= id <= w.back + 0x3000
    ensures Admits(w, id)
  {
    AdmitsExactly(w, begin, acc, id);
    ClosedShape(w, begin, acc);
  }

  /** The window is at most 0x1000 wide, and what it remembers lies strictly inside. */
  lemma {:induction false} ClosedShape(w: Window, begin: int, acc: set<int>)
    requires Closed(w, begin, acc)
    ensures w.back - w.front <= 0x1000
    ensures forall x :: x in w.alloc ==> w.front < x < w.back
  {
  }

  // ----- whole runs

  /** The ids accepted by a window that is offered `ids` one after another, as a list of verdicts. */
  function Verdicts(w: Window, ids: seq<int>): seq<bool>
    requires Bounded(w)
    decreases |ids|
  {
    if ids == [] then []
    else if Admits(w, ids[0]) then [true] + Verdicts(KeepBounded(w, ids[0]), ids[1..])
    else [false] + Verdicts(w, ids[1..])
  }

  /** Inserted, with the bound that makes further insertions meaningful. */
  function KeepBounded(w: Window, id: int): (r: Window)
    requires Bounded(w)
    ensures Bounded(r) && r == Inserted(w, id)
  {
    CompactIsBounded(Window(w.front, if w.back <= id then id + 1 else w.back, w.alloc + {id}));
    Inserted(w, id)
  }

  lemma {:induction false} CompactIsBounded(w: Window)
    requires Bounded(w)
    ensures Bounded(Compact(w))
    decreases w.back - w.front
  {
    if w.front in w.alloc {
      CompactIsBounded(Window(w.front + 1, w.back, w.alloc - {w.front}));
    } else if w.front + SPAN < w.back {
      CompactIsBounded(Window(w.front + 1, w.back, w.alloc));
    }
  }

  function RunEnd(w: Window, ids: seq<int>): Window
    requires Bounded(w)
    decreases |ids|
  {
    if ids == [] then w
    else RunEnd(if Admits(w, ids[0]) then KeepBounded(w, ids[0]) else w, ids[1..])
  }

  /** The ids accepted in a run. */
  function Accepted(w: Window, ids: seq<int>): set<int>
    requires Bounded(w)
    decreases |ids|
  {
    if ids == [] then {}
    else if Admits(w, ids[0]) then {ids[0]} + Accepted(KeepBounded(w, ids[0]), ids[1..])
    else Accepted(w, ids[1..])
  }

  lemma {:induction false} RunCloses(w: Window, begin: int, acc: set<int>, ids: seq<int>)
    requires Closed(w, begin, acc)
    ensures Bounded(w) && Closed(RunEnd(w, ids), begin, acc + Accepted(w, ids))
    decreases |ids|
  {
    ClosedIsBounded(w, begin, acc);
    if ids == [] {
      assert acc + Accepted(w, ids) == acc;
    } else if Admits(w, ids[0]) {
      InsertCloses(w, begin, acc, ids[0]);
      RunCloses(KeepBounded(w, ids[0]), begin, acc + {ids[0]}, ids[1..]);
      assert acc + {ids[0]} + Accepted(KeepBounded(w, ids[0]), ids[1..]) == acc + Accepted(w, ids);
    } else {
      RunCloses(w, begin, acc, ids[1..]);
    }
  }

  /** Two runs from the same start that accepted the same ids end in the same window, whatever the
      order of arrival and whatever was refused in between. */
  lemma {:induction false} OrderDoesNotMatter(begin: int, ids1: seq<int>, ids2: seq<int>)
    requires Bounded(FreshAt(begin))
    requires Accepted(FreshAt(begin), ids1) == Accepted(FreshAt(begin), ids2)
    ensures RunEnd(FreshAt(begin), ids1) == RunEnd(FreshAt(begin), ids2)
  {
    var w := FreshAt(begin);
    FreshIsClosed(begin);
    RunCloses(w, begin, {}, ids1);
    RunCloses(w, begin, {}, ids2);
    ClosedIsUnique(RunEnd(w, ids1), RunEnd(w, ids2), begin, {} + Accepted(w, ids1));
  }

  lemma {:induction false} AcceptedIsRefused(w: Window, begin: int, acc: set<int>, ids: seq<int>, j: nat)
    requires Closed(w, begin, acc) && j < |ids| && ids[j] in acc
    ensures Bounded(w) && |Verdicts(w, ids)| == |ids| && !Verdicts(w, ids)[j]
    decreases |ids|
  {
    ClosedIsBounded(w, begin, acc);
    VerdictCount(w, ids);
    if Admits(w, ids[0]) {
      AdmitsExactly(w, begin, acc, ids[0]);
      InsertCloses(w, begin, acc, ids[0]);
      AcceptedIsRefused(KeepBounded(w, ids[0]), begin, acc + {ids[0]}, ids[1..], j - 1);
    } else if j > 0 {
      AcceptedIsRefused(w, begin, acc, ids[1..], j - 1);
    }
  }

  lemma {:induction false} VerdictCount(w: Window, ids: seq<int>)
    requires Bounded(w)
    ensures |Verdicts(w, ids)| == |ids|
    decreases |ids|
  {
    if ids != [] {
      VerdictCount(if Admits(w, ids[0]) then KeepBounded(w, ids[0]) else w, ids[1..]);
    }
  }

  /** In every run an id is accepted exactly if it was not accepted before and lies in the window that the ids
      before it have left. */
  lemma {:induction false} VerdictsExactly(w: Window, begin: int, acc: set<int>, ids: seq<int>, j: nat)
    requires Closed(w, begin, acc) && j < |ids|
    ensures Bounded(w) && |Verdicts(w, ids)| == |ids|
    ensures var v := RunEnd(w, ids[..j]);
            Verdicts(w, ids)[j] <==>
            && ids[j] !in acc && (forall i :: 0 <= i < j && ids[i] == ids[j] ==> !Verdicts(w, ids)[i])
            && Low(begin, v.back) <= ids[j] <= v.front + 0x4000
    decreases |ids|
  {
    hide Closed, Compact, Low;
    ClosedIsBounded(w, begin, acc);
    VerdictCount(w, ids);
    AdmitsExactly(w, begin, acc, ids[0]);
    if j == 0 {
      assert ids[..0] == [];
    } else {
      var next := if Admits(w, ids[0]) then KeepBounded(w, ids[0]) else w;
      if Admits(w, ids[0]) {
        InsertCloses(w, begin, acc, ids[0]);
      }
      VerdictsExactly(next, begin, if Admits(w, ids[0]) then acc + {ids[0]} else acc, ids[1..], j - 1);
      assert ids[..j][1..] == ids[1..][..j - 1];
      var vs, later := Verdicts(w, ids), Verdicts(next, ids[1..]);
      assert vs == [Admits(w, ids[0])] + later;
      assert forall i :: 0 < i < |ids| ==> vs[i] == later[i - 1] && ids[i] == ids[1..][i - 1];
    }
  }

  /** In every run each id is accepted at most once. */
  lemma {:induction false} AcceptedOnce(w: Window, begin: int, acc: set<int>, ids: seq<int>, i: nat, j: nat)
    requires Closed(w, begin, acc) && i < j < |ids| && ids[i] == ids[j]
    ensures Bounded(w) && |Verdicts(w, ids)| == |ids| && !(Verdicts(w, ids)[i] && Verdicts(w, ids)[j])
    decreases |ids|
  {
    ClosedIsBounded(w, begin, acc);
    VerdictCount(w, ids);
    if Admits(w, ids[0]) {
      InsertCloses(w, begin, acc, ids[0]);
      var next := KeepBounded(w, ids[0]);
      if i == 0 {
        AcceptedIsRefused(next, begin, acc + {ids[0]}, ids[1..], j - 1);
      } else {
        AcceptedOnce(next, begin, acc + {ids[0]}, ids[1..], i - 1, j - 1);
      }
    } else if i > 0 {
      AcceptedOnce(w, begin, acc, ids[1..], i - 1, j - 1);
    }
  }

  // ----- the object

  class ClientQueue {
    const counted: bool  // auth_chain also requires a live connection, auth.py does not
    const lifetime: real  // 600 seconds in auth_chain, 180 in auth.py

    var front: int
    var back: int
    var alloc: set<int>
    var enable: bool
    var lastUpdate: real
    var refs: nat

    // when the window was last enabled, and what it has accepted since
    ghost var begin: int
    ghost var accepted: set<int>

    constructor (counted: bool, lifetime: real, beginId: int, now: real)
      ensures this.counted == counted && this.lifetime == lifetime
      ensures Valid() && enable && refs == 0 && lastUpdate == now && begin == beginId && accepted == {}
    {
      this.counted, this.lifetime := counted, lifetime;
      front, back, alloc := beginId - 64, beginId + 1, {};
      enable, lastUpdate, refs := true, now, 0;
      begin, accepted := beginId, {};
    }

    function Now(): Window
      reads this
    {
      Window(front, back, alloc)
    }

    ghost predicate Valid()
      reads this
    {
      Closed(Now(), begin, accepted)
    }

    predicate IsActive(now: real)
      reads this
    {
      (counted ==> refs > 0) && now - lastUpdate < lifetime
    }

    method DelRef()
      modifies `refs
      ensures refs == if old(refs) > 0 then old(refs) - 1 else 0
    {
      if refs > 0 {
        refs := refs - 1;
      }
    }

    method ReEnable(id: int)
      modifies this
      ensures Valid() && enable && begin == id && accepted == {} && Now() == FreshAt(id)
      ensures lastUpdate == old(lastUpdate) && refs == old(refs)
    {
      enable := true;
      front, back, alloc := id - 64, id + 1, {};
      begin, accepted := id, {};
    }

    /** An insertion decides on the accepted ids since the window was last enabled, where an inactive
        window is enabled afresh at the offered id. */
    method Insert(id: int, now: real) returns (ok: bool)
      requires Valid()
      modifies this
      ensures Valid() && enable == old(enable)
      ensures !old(enable) ==>
                && !ok && Now() == old(Now()) && begin == old(begin) && accepted == old(accepted)
                && lastUpdate == old(lastUpdate) && refs == old(refs)
      ensures old(enable) ==>
                var was := if old(IsActive(now)) then old(accepted) else {};
                var w := if old(IsActive(now)) then old(Now()) else FreshAt(id);
                && begin == (if old(IsActive(now)) then old(begin) else id)
                && (ok <==> id !in was && Low(begin, w.back) <= id <= w.front + 0x4000)
                && accepted == (if ok then was + {id} else was)
                && lastUpdate == now && refs == (if ok && counted then old(refs) + 1 else old(refs))
    {
      hide Closed, Compact;
      if !enable {
        return false;
      }
      if !IsActive(now) {
        ReEnable(id);
      }
      lastUpdate := now;
      AdmitsExactly(Now(), begin, accepted, id);
      if id < front || id > front + REACH || id in alloc {
        return false;
      }
      InsertCloses(Now(), begin, accepted, id);
      if back <= id {
        back := id + 1;
      }
      alloc := alloc + {id};
      Slide();
      accepted := accepted + {id};
      if counted {
        refs := refs + 1;
      }
      ok := true;
    }

    /** The compacting loop. */
    method Slide()
      requires Bounded(Now())
      modifies `front, `alloc
      ensures Now() == Compact(old(Now()))
    {
      ghost var goal := Compact(Now());
      while front in alloc || front + SPAN < back
        invariant Bounded(Now()) && Compact(Now()) == goal
        decreases back - front
      {
        if front in alloc {
          alloc := alloc - {front};
        }
        front := front + 1;
      }
    }
  }

  /** While a connection holds the window, a replayed id is refused for ten minutes; after a longer pause, or
      once the only connection is released, the window counts as inactive, and the same id is accepted again. */
  method ReplayAfterRelease(id: int, now: real, pause: real) returns (first: bool, held: bool, later: bool, released: bool)
    requires pause >= 0.0
    ensures first && !held && released && (later <==> pause >= 600.0)
  {
    var q := new ClientQueue(true, 600.0, id, now);
    first := q.Insert(id, now);
    held := q.Insert(id, now);
    var r := new ClientQueue(true, 600.0, id, now);
    var first' := r.Insert(id, now);
    later := r.Insert(id, now + pause);
    q.DelRef();
    released := q.Insert(id, now);
  }
}
