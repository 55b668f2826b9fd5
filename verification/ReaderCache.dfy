/** What the daemon remembers of a renderer's events: the bound buffers, the recent acquire fences and the latest
    frame. `src/renderer_manager.rs`, `src/display/endpoint.rs`. */
module ReaderCache {
  import opened Common
  import opened BufferPool
  import BufferAgreement
  import Framing

  const SYNC_FD_RETENTION := 16

  datatype Snapshot = Snapshot(
    generation: nat, count: nat, fourcc: nat, width: nat, height: nat, modifier: nat, planes: nat,
    stride: seq<nat>, offset: seq<nat>, size: seq<nat>, fds: seq<int>)

  datatype FrameSnapshot = FrameSnapshot(generation: nat, index: nat, frame: nat, point: nat)

  /** A frame_ready event with the fence that came along. */
  datatype Arrival = Arrival(index: nat, frame: nat, point: nat, fence: int)

  // ---------------------------------------------------------------
  // Reference: the whole history since the cached bind

  datatype History = History(bound: Option<Snapshot>, arrived: seq<Arrival>)

  const START := History(None, [])

  predicate Consistent(s: Snapshot) {
    |s.stride| == |s.offset| == |s.size| == |s.fds| == s.count * s.planes
  }

  function SnapshotOf(e: Event): Snapshot
    requires e.BindBuffers?
  {
    Snapshot(e.generation, e.count, e.fourcc, e.width, e.height, e.modifier, e.planes, e.stride, e.offset, e.size,
             e.fds)
  }

  predicate Usable(e: Event)
    requires e.BindBuffers?
  {
    Consistent(SnapshotOf(e)) && e.fds != []
  }

  /** A usable bind starts a new history; a frame extends it; nothing else matters here. */
  function Step(h: History, e: Event, fence: int): History {
    match e
    case BindBuffers(_, _, _, _, _, _, _, _, _, _, _, _) =>
      if Usable(e) then History(Some(SnapshotOf(e)), []) else h
    case FrameReady(i, f, p) => h.(arrived := h.arrived + [Arrival(i, f, p, fence)])
    case BindFailed(_, _, _) => h
  }

  function Run(wire: seq<Event>, fences: seq<int>): History
    requires |fences| == |wire|
  {
    if wire == [] then START
    else
      var n := |wire| - 1;
      Step(Run(wire[..n], fences[..n]), wire[n], fences[n])
  }

  /** The fences worth keeping: the last sixteen. */
  function Recent(arrived: seq<Arrival>): seq<Arrival> {
    if |arrived| <= SYNC_FD_RETENTION then arrived else arrived[|arrived| - SYNC_FD_RETENTION..]
  }

  /** The latest frame for a display: the newest arrival, under the cached bind's generation. */
  function Newest(h: History): Option<FrameSnapshot> {
    if h.bound.None? || h.arrived == [] then None
    else
      var a := h.arrived[|h.arrived| - 1];
      Some(FrameSnapshot(h.bound.value.generation, a.index, a.frame, a.point))
  }

  function FencesOf(arrived: seq<Arrival>): seq<(nat, int)> {
    seq(|arrived|, i requires 0 <= i < |arrived| => (arrived[i].frame, arrived[i].fence))
  }

  predicate Kept(fences: seq<(nat, int)>, frame: nat) {
    exists i :: 0 <= i < |fences| && fences[i].0 == frame
  }

  ghost predicate Finds(fences: seq<(nat, int)>, frame: nat, r: Option<int>) {
    match r
    case None => !Kept(fences, frame)
    case Some(fd) =>
      exists i :: 0 <= i < |fences| && fences[i] == (frame, fd) && forall j | 0 <= j < i :: fences[j].0 != frame
  }

  /** The display's copy of a snapshot, refused when the parallel arrays disagree with the counts. */
  method BuildBindEvent(s: Snapshot) returns (e: Option<Event>)
    ensures e.Some? <==> Consistent(s)
    ensures e.Some? ==> e.value.BindBuffers? && SnapshotOf(e.value) == s
    ensures e.Some? ==>
      && e.value.generation == s.generation && e.value.count == s.count && e.value.fourcc == s.fourcc
      && e.value.width == s.width && e.value.height == s.height && e.value.modifier == s.modifier
      && e.value.planes == s.planes && e.value.stride == s.stride && e.value.offset == s.offset
      && e.value.size == s.size && e.value.fds == s.fds
  {
    var n := s.count * s.planes;
    if |s.stride| != n || |s.offset| != n || |s.size| != n || |s.fds| != n { return None; }
    return Some(BindBuffers(s.generation, false, s.count, s.fourcc, s.width, s.height, s.modifier, s.planes,
                            s.stride, s.offset, s.size, s.fds));
  }

  // ---------------------------------------------------------------
  // The cache

  class Handle {
    var bindSnapshot: Option<Snapshot>
    var syncFds: seq<(nat, int)>
    var latestFrame: Option<FrameSnapshot>
    var pendingConfigure: Option<nat>
    ghost var history: History

    /** The bounded cache says exactly what the whole history would say. */
    ghost predicate Valid()
      reads this
    {
      && bindSnapshot == history.bound
      && syncFds == FencesOf(Recent(history.arrived))
      && latestFrame == Newest(history)
      && (bindSnapshot.Some? ==> Consistent(bindSnapshot.value) && bindSnapshot.value.fds != [])
    }

    constructor ()
      ensures Valid() && history == START
    {
      bindSnapshot, syncFds, latestFrame, pendingConfigure, history := None, [], None, None, START;
    }

    method CacheSnapshot(s: Snapshot)
      modifies this`bindSnapshot
      ensures bindSnapshot == Some(s)
    {
      bindSnapshot := Some(s);
    }

    method RetireFences()
      modifies this`syncFds
      ensures syncFds == []
    {
      syncFds := [];
    }

    /** What a display asking for the latest frame gets: the frame, but only while its fence is kept. */
    ghost function Served(): Option<FrameSnapshot>
      reads this`latestFrame, this`syncFds
    {
      if latestFrame.Some? && Kept(syncFds, latestFrame.value.frame) then latestFrame else None
    }

    /** Handles a bind_buffers event, one lock at a time. A display that asks after the snapshot was replaced and
        before the fences were dropped (`early`) still gets the newest frame of the old buffers, under their
        generation; one that asks between the fences and the frame (`late`) gets none. */
    method OnBindBuffers(e: Event) returns (ghost early: Option<FrameSnapshot>, ghost late: Option<FrameSnapshot>)
      requires Valid() && e.BindBuffers?
      modifies this
      ensures Valid() && history == Step(old(history), e, 0)
      ensures var n := e.count * e.planes;
        n == 0 || n != |e.stride| || n != |e.offset| || n != |e.size| || n != |e.fds| ==>
        && bindSnapshot == old(bindSnapshot) && latestFrame == old(latestFrame) && syncFds == old(syncFds)
        && pendingConfigure == old(pendingConfigure)
      ensures var n := e.count * e.planes; n != 0 && n == |e.stride| == |e.offset| == |e.size| == |e.fds| ==>
        && latestFrame.None? && syncFds == [] && pendingConfigure.None? && bindSnapshot.Some?
        && bindSnapshot.value.fds == e.fds && bindSnapshot.value.generation == e.generation
      ensures bindSnapshot.Some? && bindSnapshot != old(bindSnapshot) ==>
        var s := bindSnapshot.value;
        && s.generation == e.generation && s.count == e.count && s.fourcc == e.fourcc && s.width == e.width
        && s.height == e.height && s.modifier == e.modifier && s.planes == e.planes && s.stride == e.stride
        && s.offset == e.offset && s.size == e.size && s.fds == e.fds
      ensures early == Newest(old(history)) && late == if Usable(e) then None else early
      ensures early.Some? ==> old(bindSnapshot).Some?
      ensures Replayed(early, e.generation) ==
                if early.Some? && old(bindSnapshot).value.generation == e.generation then early else None
    {
      NewestIsKept(history);
      early, late := Served(), Served();
      var expected := e.count * e.planes;
      if |e.stride| != expected || |e.offset| != expected || |e.size| != expected || |e.fds| != expected { return; }
      if |e.fds| == 0 { return; }
      CacheSnapshot(SnapshotOf(e));
      early := Served();
      RetireFences();
      late := Served();
      latestFrame := None;
      pendingConfigure := None;
      history := Step(history, e, 0);
    }

    method OnFrameReady(e: Event, fence: int)
      requires Valid() && e.FrameReady?
      modifies this
      ensures Valid() && history == Step(old(history), e, fence) && pendingConfigure == old(pendingConfigure)
      ensures bindSnapshot == old(bindSnapshot)
      ensures bindSnapshot.Some? ==>
        latestFrame == Some(FrameSnapshot(bindSnapshot.value.generation, e.index, e.frame, e.point))
      ensures bindSnapshot.None? ==> latestFrame == old(latestFrame)
      ensures 0 < |syncFds| <= 16 && syncFds[|syncFds| - 1] == (e.frame, fence)
    {
      ghost var before := syncFds;
      while |syncFds| >= SYNC_FD_RETENTION
        invariant syncFds == before || (|before| == SYNC_FD_RETENTION && syncFds == before[1..])
        invariant |before| < SYNC_FD_RETENTION ==> syncFds == before
        decreases |syncFds|
        modifies this`syncFds
      {
        syncFds := syncFds[1..];
      }
      syncFds := syncFds + [(e.frame, fence)];
      if bindSnapshot.Some? {
        latestFrame := Some(FrameSnapshot(bindSnapshot.value.generation, e.index, e.frame, e.point));
      }
      history := Step(history, e, fence);
      OneMoreFence(old(history).arrived, history.arrived[|history.arrived| - 1]);
    }

    /** The latest frame, but only when its fence is still kept. */
    method LatestFrame() returns (r: Option<FrameSnapshot>)
      ensures r == Served()
      ensures r.None? <==> latestFrame.None? || forall i | 0 <= i < |syncFds| :: syncFds[i].0 != latestFrame.value.frame
      ensures r.Some? ==> r == latestFrame
      ensures Valid() ==> r == Newest(history)
    {
      NewestIsKept(history);
      if latestFrame.None? { return None; }
      for i := 0 to |syncFds|
        invariant forall j | 0 <= j < i :: syncFds[j].0 != latestFrame.value.frame
      {
        if syncFds[i].0 == latestFrame.value.frame { return latestFrame; }
      }
      return None;
    }

    /** The first kept fence with a sequence number. */
    method CloneSyncFd(frame: nat) returns (r: Option<int>)
      ensures Finds(syncFds, frame, r)
    {
      for i := 0 to |syncFds|
        invariant forall j | 0 <= j < i :: syncFds[j].0 != frame
      {
        if syncFds[i].0 == frame { return Some(syncFds[i].1); }
      }
      return None;
    }

    /** Announcing the cached buffers to a display: its consistency check cannot fail. */
    method AnnounceCached() returns (e: Option<Event>)
      requires Valid()
      ensures e.Some? <==> bindSnapshot.Some?
      ensures e.Some? ==> e.value.BindBuffers? && SnapshotOf(e.value) == bindSnapshot.value
    {
      if bindSnapshot.None? { return None; }
      e := BuildBindEvent(bindSnapshot.value);
    }

    /** The reader thread: one event after the other. */
    method RunReader(wire: seq<Event>, fences: seq<int>)
      requires |fences| == |wire| && Valid() && history == START
      modifies this
      ensures Valid() && history == Run(wire, fences)
    {
      for n := 0 to |wire|
        invariant Valid() && history == Run(wire[..n], fences[..n])
      {
        assert wire[..n + 1][..n] == wire[..n] && fences[..n + 1][..n] == fences[..n];
        match wire[n] {
          case BindBuffers(_, _, _, _, _, _, _, _, _, _, _, _) => ghost var _, _ := OnBindBuffers(wire[n]);
          case FrameReady(_, _, _) => OnFrameReady(wire[n], fences[n]);
          case BindFailed(_, _, _) =>
        }
      }
      assert wire[..|wire|] == wire && fences[..|wire|] == fences;
    }
  }

  lemma OneMoreFence(arrived: seq<Arrival>, a: Arrival)
    ensures var kept := FencesOf(Recent(arrived));
            var room := if |kept| < SYNC_FD_RETENTION then kept else kept[1..];
            FencesOf(Recent(arrived + [a])) == room + [(a.frame, a.fence)]
  {
  }

  /** The membership filter never hides the newest frame. */
  lemma NewestIsKept(h: History)
    ensures Newest(h).Some? ==> Kept(FencesOf(Recent(h.arrived)), Newest(h).value.frame)
  {
    if Newest(h).Some? {
      var fences := FencesOf(Recent(h.arrived));
      assert fences[|fences| - 1].0 == Newest(h).value.frame;
    }
  }

  // ---------------------------------------------------------------
  // Fed by a pool

  /** Whatever a pool announces is usable. */
  lemma PoolBindsAreUsable(e: Event)
    requires e.BindBuffers? && WellPacked(e)
    ensures Usable(e) && |e.fds| <= Framing.MAX_FDS
  {
    OneMoreRow(e.count - 1, e.planes);
    if e.count < 8 { LaterRows(e.count, 8, e.planes); }
    assert e.count * e.planes >= e.planes;
  }

  lemma RisingPrefix(wire: seq<Event>, g: nat, p: nat, n: nat)
    requires Rising(wire, g, p) && n <= |wire|
    ensures Rising(wire[..n], g, p)
  {
    hide WellPacked;
  }

  /** The position of the last bind on the wire. */
  function LastBind(wire: seq<Event>): (r: Option<nat>)
    ensures r.Some? ==> r.value < |wire| && wire[r.value].BindBuffers?
  {
    if wire == [] then None
    else if wire[|wire| - 1].BindBuffers? then Some(|wire| - 1)
    else LastBind(wire[..|wire| - 1])
  }

  /** Sequence numbers of a history rise, and none exceeds the latest on the wire. */
  ghost predicate FramesRise(arrived: seq<Arrival>) {
    forall i, j | 0 <= i < j < |arrived| :: arrived[i].frame < arrived[j].frame
  }

  ghost predicate Sent(wire: seq<Event>, frame: nat) {
    exists k :: 0 <= k < |wire| && wire[k].FrameReady? && wire[k].frame == frame
  }

  ghost predicate OnWire(arrived: seq<Arrival>, wire: seq<Event>) {
    forall i | 0 <= i < |arrived| :: Sent(wire, arrived[i].frame)
  }

  lemma OnWireLonger(arrived: seq<Arrival>, wire: seq<Event>, n: nat)
    requires n <= |wire| && OnWire(arrived, wire[..n])
    ensures OnWire(arrived, wire)
  {
    forall i | 0 <= i < |arrived| ensures Sent(wire, arrived[i].frame) {
      var k :| 0 <= k < n && wire[..n][k].FrameReady? && wire[..n][k].frame == arrived[i].frame;
      assert wire[k] == wire[..n][k];
    }
  }

  lemma OneMoreArrival(arrived: seq<Arrival>, wire: seq<Event>, g: nat, p: nat, a: Arrival)
    requires wire != [] && Rising(wire, g, p)
    requires var n := |wire| - 1; wire[n].FrameReady? && wire[n].frame == a.frame && OnWire(arrived, wire[..n])
    requires FramesRise(arrived)
    ensures FramesRise(arrived + [a]) && OnWire(arrived + [a], wire)
  {
    hide WellPacked;
    var n := |wire| - 1;
    OnWireLonger(arrived, wire, n);
    forall i | 0 <= i < |arrived| ensures arrived[i].frame < a.frame {
      var k :| 0 <= k < n && wire[..n][k].FrameReady? && wire[..n][k].frame == arrived[i].frame;
      assert wire[k] == wire[..n][k];
      assert wire[k].frame == wire[k].point < wire[n].point == wire[n].frame;
    }
    var longer := arrived + [a];
    assert Sent(wire, a.frame);
    forall i | 0 <= i < |longer| ensures Sent(wire, longer[i].frame) {
      assert longer[i] == if i < |arrived| then arrived[i] else a;
    }
  }

  lemma BindIsPacked(wire: seq<Event>, g: nat, p: nat, n: nat)
    requires Rising(wire, g, p) && n < |wire| && wire[n].BindBuffers?
    ensures WellPacked(wire[n])
  {
  }

  /** Fed with what a pool sends, the cache holds the last announced buffers, and the arrivals since then carry
      strictly rising sequence numbers. */
  lemma {:induction false} PoolHistory(wire: seq<Event>, fences: seq<int>, g: nat, p: nat)
    requires |fences| == |wire| && Rising(wire, g, p)
    ensures var h := Run(wire, fences);
      && h.bound == (match LastBind(wire) case None => None case Some(i) => Some(SnapshotOf(wire[i])))
      && FramesRise(h.arrived) && OnWire(h.arrived, wire)
    decreases |wire|
  {
    hide WellPacked, Rising, FramesRise, OnWire, Usable, Sent;
    if wire == [] {
      NothingArrived();
    } else {
      var n := |wire| - 1;
      RisingPrefix(wire, g, p, n);
      PoolHistory(wire[..n], fences[..n], g, p);
      var before := Run(wire[..n], fences[..n]);
      match wire[n] {
        case BindBuffers(_, _, _, _, _, _, _, _, _, _, _, _) =>
          BindIsPacked(wire, g, p, n);
          PoolBindsAreUsable(wire[n]);
          NothingArrived();
          OnWireLonger([], wire, 0);
        case FrameReady(i, f, q) => OneMoreArrival(before.arrived, wire, g, p, Arrival(i, f, q, fences[n]));
        case BindFailed(_, _, _) => OnWireLonger(before.arrived, wire, n);
      }
    }
  }

  /** The router shows a stored frame only under the generation it is binding. */
  function Replayed(frame: Option<FrameSnapshot>, generation: nat): Option<FrameSnapshot> {
    if frame.Some? && frame.value.generation == generation then frame else None
  }

  /** At a rebind by a pool the frame that is still served belongs to an older generation, and the router's
      filter stops it; without the filter it would be shown under the new buffers. */
  lemma StaleFrameIsFiltered(wire: seq<Event>, fences: seq<int>, g: nat, p: nat)
    requires |fences| == |wire| && wire != [] && Rising(wire, g, p) && wire[|wire| - 1].BindBuffers?
    ensures var n := |wire| - 1; var stale := Newest(Run(wire[..n], fences[..n]));
      && (stale.Some? ==> stale.value.generation < wire[n].generation)
      && Replayed(stale, wire[n].generation) == None
  {
    hide WellPacked;
    var n := |wire| - 1;
    RisingPrefix(wire, g, p, n);
    PoolHistory(wire[..n], fences[..n], g, p);
  }

  lemma NothingArrived()
    ensures FramesRise([]) && OnWire([], [])
  {
  }

  /** Looking a fence up by sequence number returns the one that came with that frame, as long as it is among
      the last sixteen, and nothing afterwards. */
  lemma FenceBySequence(arrived: seq<Arrival>, k: nat, r: Option<int>)
    requires FramesRise(arrived) && k < |arrived| && Finds(FencesOf(Recent(arrived)), arrived[k].frame, r)
    ensures r == if k + SYNC_FD_RETENTION >= |arrived| then Some(arrived[k].fence) else None
  {
    var skipped := if |arrived| <= SYNC_FD_RETENTION then 0 else |arrived| - SYNC_FD_RETENTION;
    var fences := FencesOf(Recent(arrived));
    assert forall i | 0 <= i < |fences| :: fences[i] == (arrived[skipped + i].frame, arrived[skipped + i].fence);
    if k >= skipped {
      assert fences[k - skipped].0 == arrived[k].frame;
    }
  }

  // ---------------------------------------------------------------
  // The fence of a frame, from the pool's wire to the lookup

  predicate BoundAgain(wire: seq<Event>, i: nat) {
    exists j :: i < j < |wire| && wire[j].BindBuffers?
  }

  function FramesAfter(wire: seq<Event>, i: nat): nat
    requires i < |wire|
  {
    if i == |wire| - 1 then 0
    else FramesAfter(wire[..|wire| - 1], i) + if wire[|wire| - 1].FrameReady? then 1 else 0
  }

  function ArrivalOf(e: Event, fence: int): Arrival
    requires e.FrameReady?
  {
    Arrival(e.index, e.frame, e.point, fence)
  }

  /** Until the next bind a frame's arrival is remembered as many places from the end as frames came after it. */
  ghost predicate Remembered(h: History, wire: seq<Event>, fences: seq<int>, i: nat)
    requires i < |wire| == |fences| && wire[i].FrameReady?
  {
    var back := FramesAfter(wire, i);
    back < |h.arrived| && h.arrived[|h.arrived| - 1 - back] == ArrivalOf(wire[i], fences[i])
  }

  lemma {:induction false} FrameIsRemembered(wire: seq<Event>, fences: seq<int>, g: nat, p: nat, i: nat)
    requires |fences| == |wire| && Rising(wire, g, p) && i < |wire| && wire[i].FrameReady?
    ensures if BoundAgain(wire, i) then forall a | a in Run(wire, fences).arrived :: a.frame != wire[i].frame
            else Remembered(Run(wire, fences), wire, fences, i)
    decreases |wire|
  {
    var n := |wire| - 1;
    if i < n {
      RisingPrefix(wire, g, p, n);
      FrameIsRemembered(wire[..n], fences[..n], g, p, i);
      NextIsRemembered(wire, fences, g, p, i);
    }
  }

  lemma NextIsRemembered(wire: seq<Event>, fences: seq<int>, g: nat, p: nat, i: nat)
    requires |fences| == |wire| && Rising(wire, g, p) && i < |wire| - 1 && wire[i].FrameReady?
    requires var n := |wire| - 1; var h := Run(wire[..n], fences[..n]);
      if BoundAgain(wire[..n], i) then forall a | a in h.arrived :: a.frame != wire[i].frame
      else Remembered(h, wire[..n], fences[..n], i)
    ensures if BoundAgain(wire, i) then forall a | a in Run(wire, fences).arrived :: a.frame != wire[i].frame
            else Remembered(Run(wire, fences), wire, fences, i)
  {
    hide WellPacked, Usable, Run, BoundAgain, Rising, Remembered;
    var n := |wire| - 1;
    OneMoreStep(wire, fences);
    OneMoreBind(wire, i);
    if wire[n].BindBuffers? {
      BindIsPacked(wire, g, p, n);
      PoolBindsAreUsable(wire[n]);
    } else if BoundAgain(wire[..n], i) {
      FramesDiffer(wire, g, p, i);
    } else {
      StillRemembered(Run(wire[..n], fences[..n]), wire, fences, i);
    }
  }

  lemma FramesDiffer(wire: seq<Event>, g: nat, p: nat, i: nat)
    requires Rising(wire, g, p) && i < |wire| - 1 && wire[i].FrameReady?
    ensures wire[|wire| - 1].FrameReady? ==> wire[|wire| - 1].frame != wire[i].frame
  {
    hide WellPacked;
  }

  lemma StillRemembered(h: History, wire: seq<Event>, fences: seq<int>, i: nat)
    requires |fences| == |wire| && i < |wire| - 1 && wire[i].FrameReady? && !wire[|wire| - 1].BindBuffers?
    requires var n := |wire| - 1; Remembered(h, wire[..n], fences[..n], i)
    ensures var n := |wire| - 1; Remembered(Step(h, wire[n], fences[n]), wire, fences, i)
  {
  }

  lemma OneMoreStep(wire: seq<Event>, fences: seq<int>)
    requires |fences| == |wire| && wire != []
    ensures var n := |wire| - 1; Run(wire, fences) == Step(Run(wire[..n], fences[..n]), wire[n], fences[n])
  {
    hide Step;
  }

  lemma OneMoreBind(wire: seq<Event>, i: nat)
    requires i < |wire| - 1
    ensures var n := |wire| - 1; BoundAgain(wire, i) <==> BoundAgain(wire[..n], i) || wire[n].BindBuffers?
  {
    var n := |wire| - 1;
    if BoundAgain(wire[..n], i) {
      var j :| i < j < n && wire[..n][j].BindBuffers?;
      assert wire[j].BindBuffers?;
    }
    if BoundAgain(wire, i) && !wire[n].BindBuffers? {
      var j :| i < j < |wire| && wire[j].BindBuffers?;
      assert wire[..n][j].BindBuffers?;
    }
  }

  /** A frame is announced by a pool with a fence; the reader then handles all the pool has sent. Looking the
      frame's number up returns the fence that came with it, as long as there was no rebind and fewer than
      sixteen frames since, and nothing afterwards. */
  method FenceOfFrame(h: Handle, wire: seq<Event>, fences: seq<int>, i: nat, ghost g: nat, ghost p: nat)
    returns (r: Option<int>)
    requires h.Valid() && h.history == START && |fences| == |wire| && Rising(wire, g, p)
    requires i < |wire| && wire[i].FrameReady?
    modifies h
    ensures r == if !BoundAgain(wire, i) && FramesAfter(wire, i) < 16 then Some(fences[i]) else None
  {
    hide Rising, Run, BoundAgain, FramesAfter, OnWire, FramesRise;
    h.RunReader(wire, fences);
    r := h.CloneSyncFd(wire[i].frame);
    FrameIsRemembered(wire, fences, g, p, i);
    PoolHistory(wire, fences, g, p);
    if BoundAgain(wire, i) {
      NotFound(h.history.arrived, wire[i].frame, r);
    } else {
      FenceBySequence(h.history.arrived, |h.history.arrived| - 1 - FramesAfter(wire, i), r);
    }
  }

  lemma NotFound(arrived: seq<Arrival>, frame: nat, r: Option<int>)
    requires (forall a | a in arrived :: a.frame != frame) && Finds(FencesOf(Recent(arrived)), frame, r)
    ensures r == None
  {
    assert forall i | 0 <= i < |arrived| :: arrived[i] in arrived;
  }

  // ---------------------------------------------------------------
  // Frames of slots that the daemon was never told about

  lemma {:induction false} GenerationOfLastBind(wire: seq<Event>)
    ensures LastGeneration(wire) == (match LastBind(wire) case None => 0 case Some(i) => wire[i].generation)
    decreases |wire|
  {
    if wire != [] { GenerationOfLastBind(wire[..|wire| - 1]); }
  }

  /** The frame a pool has just announced is cached under the generation of the slots it was drawn into exactly
      when no announcement has failed since the last one that was sent. */
  lemma FrameGenerationIff(log: seq<Happening>, wire: seq<Event>, fences: seq<int>, g: nat, p: nat)
    requires Rising(wire, g, p) && Linked(log, wire, g)
    requires |fences| == |wire| && wire != [] && wire[|wire| - 1].FrameReady?
    ensures var f := Newest(Run(wire, fences)); var e := wire[|wire| - 1];
      && (f.None? <==> LastBind(wire).None?)
      && (f.Some? ==> f.value == FrameSnapshot(f.value.generation, e.index, e.frame, e.point))
      && (f.Some? ==> f.value.generation <= g && (f.value.generation == g <==> !Missed(log)))
  {
    PoolHistory(wire, fences, g, p);
    GenerationOfLastBind(wire);
    KnownIffNotMissed(log);
    hide Rising, Missed, Attempts, Current, LastGeneration, FramesRise, OnWire, LastBind, Usable;
  }

  /** The same as it runs: a submit, and then the daemon's reader over all it was sent. */
  method SubmitThenRead(pool: Pool, slot: nat, fence: int, fences: seq<int>)
    returns (rc: int, frame: Option<FrameSnapshot>)
    requires pool.Valid() && |fences| == |pool.wire| + 1
    modifies pool, pool.lastReleasePoint
    ensures pool.Valid() && pool.bindGeneration == old(pool.bindGeneration)
    ensures rc == BufferAgreement.WW_OK ==> (frame.None? <==> LastBind(pool.wire).None?)
    ensures rc == BufferAgreement.WW_OK && frame.Some? ==>
      && frame.value.index == slot && frame.value.point == pool.releasePoint
      && (frame.value.generation == pool.bindGeneration <==> !Missed(pool.log))
  {
    hide Rising, Linked, Missed, Run, LastBind, Newest;
    frame := None;
    rc := pool.SubmitSlot(slot, fence);
    if rc != BufferAgreement.WW_OK { return; }
    var h := new Handle();
    h.RunReader(pool.wire, fences);
    frame := h.LatestFrame();
    FrameGenerationIff(pool.log, pool.wire, fences, pool.bindGeneration, pool.releasePoint);
  }

  /** It does happen: slots announced once, then others in vain, then a frame; the daemon takes it for one of the
      first generation. */
  lemma FrameOfUnknownSlots()
    ensures var wire := [FirstBind()] + [FrameReady(0, 1, 1)];
      var log := [] + [Announced(true)] + [Announced(false)] + [Submit(0, 1)];
      Rising(wire, 2, 1) && Linked(log, wire, 2) && Newest(Run(wire, [0, 6])) == Some(FrameSnapshot(1, 0, 1, 1))
  {
    var wire := [FirstBind()] + [FrameReady(0, 1, 1)];
    LinkedAgain([], [], 0, [FirstBind()], true);
    LinkedAgain([] + [Announced(true)], [FirstBind()], 1, [FirstBind()], false);
    StaysLinked([] + [Announced(true)] + [Announced(false)], [FirstBind()], 2, Submit(0, 1));
    StaysLinkedOnWire([] + [Announced(true)] + [Announced(false)] + [Submit(0, 1)], [FirstBind()], 2,
      FrameReady(0, 1, 1));
    hide Linked;
    OneMoreStep(wire, [0, 6]);
    assert wire[..1] == [FirstBind()] && [0, 6][..1] == [0];
    OneMoreStep([FirstBind()], [0]);
    assert Usable(FirstBind());
  }

  function FirstBind(): Event {
    BindBuffers(1, false, 1, 1, 1, 1, 0, 1, [4], [0], [4], [5])
  }
}
