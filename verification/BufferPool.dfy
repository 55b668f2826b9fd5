/** The producer's buffer pool: slots and their file descriptors, bind generations and release points, over a
    backend that may fail at any call. `bridge/src/pool.c`, `bridge/src/pool_internal.h`. */
module BufferPool {
  import opened Common
  import opened Errno
  import opened BufferAgreement

  const MAX_PLANES := 4

  /** One slot as the backend fills it; an unused plane holds -1. */
  datatype Layout = Layout(planes: nat, fds: seq<int>, strides: seq<nat>, offsets: seq<nat>, sizes: seq<nat>,
                           modifier: nat)

  const UNUSED := [-1, -1, -1, -1]
  const ZEROS: seq<nat> := [0, 0, 0, 0]

  function Unset(): Layout {
    Layout(0, UNUSED, ZEROS, ZEROS, ZEROS, 0)
  }

  predicate Shaped(l: Layout) {
    |l.fds| == |l.strides| == |l.offsets| == |l.sizes| == MAX_PLANES
  }

  /** One open descriptor, or none for a negative number. */
  function Handle(fd: int): multiset<int> {
    if fd < 0 then multiset{} else multiset{fd}
  }

  function FdsIn(fds: seq<int>): multiset<int> {
    if fds == [] then multiset{} else Handle(fds[0]) + FdsIn(fds[1..])
  }

  function LiveFds(slots: seq<Layout>): multiset<int> {
    if slots == [] then multiset{} else FdsIn(slots[0].fds) + LiveFds(slots[1..])
  }

  /** What the daemon is sent. */
  datatype Event =
    | BindBuffers(generation: nat, hostVisible: bool, count: nat, fourcc: nat, width: nat, height: nat, modifier: nat,
                  planes: nat, stride: seq<nat>, offset: seq<nat>, size: seq<nat>, fds: seq<int>)
    | BindFailed(badFourcc: nat, badModifier: nat, reason: nat)
    | FrameReady(index: nat, frame: nat, point: nat)

  /** Everything that happened to the slots, for the specification. */
  datatype Happening = Teardown | Announced(sent: bool) | Submit(slot: nat, at: nat)

  /** The point of a slot's latest submit since the slots were last torn down, or 0. */
  function LatestSubmit(log: seq<Happening>, slot: nat): nat {
    if log == [] then 0
    else
      match log[|log| - 1]
      case Teardown => 0
      case Announced(_) => LatestSubmit(log[..|log| - 1], slot)
      case Submit(s, p) => if s == slot then p else LatestSubmit(log[..|log| - 1], slot)
  }

  // ---------------------------------------------------------------
  // Generations, as the pool and the daemon count them

  /** How often the pool announced slots, in vain or not: the generation of the slots in use. */
  function Attempts(log: seq<Happening>): nat {
    if log == [] then 0
    else Attempts(log[..|log| - 1]) + if log[|log| - 1].Announced? then 1 else 0
  }

  /** The generation of the last announcement that was sent, or 0. */
  function Current(log: seq<Happening>): nat {
    if log == [] then 0
    else if log[|log| - 1] == Announced(true) then Attempts(log)
    else Current(log[..|log| - 1])
  }

  /** The generation that the daemon goes by. */
  function LastGeneration(wire: seq<Event>): nat {
    if wire == [] then 0
    else
      match wire[|wire| - 1]
      case BindBuffers(g, _, _, _, _, _, _, _, _, _, _, _) => g
      case _ => LastGeneration(wire[..|wire| - 1])
  }

  /** An announcement has failed since the last one that was sent. */
  ghost predicate Missed(log: seq<Happening>) {
    exists i :: 0 <= i < |log| && log[i] == Announced(false) && forall j | i < j < |log| :: log[j] != Announced(true)
  }

  ghost predicate Linked(log: seq<Happening>, wire: seq<Event>, generation: nat) {
    generation == Attempts(log) && LastGeneration(wire) == Current(log)
  }

  /** The slots in use are those the daemon knows exactly when no announcement has failed since. */
  lemma {:induction false} KnownIffNotMissed(log: seq<Happening>)
    ensures Current(log) <= Attempts(log)
    ensures Current(log) == Attempts(log) <==> !Missed(log)
    decreases |log|
  {
    if log != [] {
      var init, last := log[..|log| - 1], log[|log| - 1];
      KnownIffNotMissed(init);
      hide Attempts, Current;
      if Missed(init) && last != Announced(true) {
        var i :| 0 <= i < |init| && init[i] == Announced(false)
              && forall j | i < j < |init| :: init[j] != Announced(true);
        assert log[i] == Announced(false) && forall j | i < j < |log| :: log[j] != Announced(true);
      }
      if Missed(log) && last != Announced(false) {
        var i :| 0 <= i < |log| && log[i] == Announced(false) && forall j | i < j < |log| :: log[j] != Announced(true);
        assert init[i] == Announced(false) && forall j | i < j < |init| :: init[j] != Announced(true);
      }
      if last == Announced(false) { assert log[|log| - 1] == Announced(false); }
    }
  }

  lemma NothingSent()
    ensures Rising([], 0, 0) && Linked([], [], 0) && forall i :: LatestSubmit([], i) == 0
  {
  }

  lemma StaysLinked(log: seq<Happening>, wire: seq<Event>, g: nat, h: Happening)
    requires Linked(log, wire, g) && !h.Announced?
    ensures Linked(log + [h], wire, g)
  {
    assert (log + [h])[..|log|] == log;
  }

  lemma StaysLinkedOnWire(log: seq<Happening>, wire: seq<Event>, g: nat, e: Event)
    requires Linked(log, wire, g) && !e.BindBuffers?
    ensures Linked(log, wire + [e], g)
  {
    assert (wire + [e])[..|wire|] == wire;
  }

  /** An announcement spends a generation, and is on the wire if it was sent. */
  lemma LinkedAgain(log: seq<Happening>, was: seq<Event>, g: nat, wire: seq<Event>, sent: bool)
    requires Linked(log, was, g)
    requires if sent then wire != [] && wire[|wire| - 1].BindBuffers? && wire[|wire| - 1].generation == g + 1
      else wire == was
    ensures Linked(log + [Announced(sent)], wire, g + 1)
  {
    assert (log + [Announced(sent)])[..|log|] == log;
  }

  // ---------------------------------------------------------------
  // Flattening planes

  function Flat(slot: nat, plane: nat, planes: nat): nat {
    slot * planes + plane
  }

  lemma OneMoreRow(a: nat, planes: nat)
    ensures (a + 1) * planes == a * planes + planes
  {
  }

  lemma {:induction false} LaterRows(s: nat, t: nat, planes: nat)
    requires s < t
    ensures s * planes + planes <= t * planes
    decreases t
  {
    if s + 1 < t {
      LaterRows(s, t - 1, planes);
      OneMoreRow(t - 1, planes);
    } else {
      OneMoreRow(s, planes);
    }
  }

  /** Slot and plane are recoverable from the flat index, which stays below count * planes. */
  lemma FlatInjective(s: nat, p: nat, t: nat, q: nat, planes: nat)
    requires p < planes && q < planes && Flat(s, p, planes) == Flat(t, q, planes)
    ensures s == t && p == q
  {
    if s < t {
      LaterRows(s, t, planes);
    } else if t < s {
      LaterRows(t, s, planes);
    }
  }

  lemma FlatBound(s: nat, p: nat, n: nat, planes: nat)
    requires s < n && p < planes
    ensures Flat(s, p, planes) < n * planes
  {
    LaterRows(s, n, planes);
  }

  lemma FlatNext(s: nat, planes: nat)
    ensures Flat(s, planes, planes) == Flat(s + 1, 0, planes)
  {
  }

  /** Rows laid end to end. */
  function Concat<T>(rows: seq<seq<T>>): seq<T> {
    if rows == [] then [] else Concat(rows[..|rows| - 1]) + rows[|rows| - 1]
  }

  predicate AtFlat<T(==)>(flat: seq<T>, s: nat, p: nat, planes: nat, v: T) {
    Flat(s, p, planes) < |flat| && flat[Flat(s, p, planes)] == v
  }

  /** Rows of equal length, laid end to end, have the value of row s, column p at the flat index. */
  lemma {:induction false} ConcatLength<T>(rows: seq<seq<T>>, planes: nat)
    requires forall i | 0 <= i < |rows| :: |rows[i]| == planes
    ensures |Concat(rows)| == |rows| * planes
    decreases |rows|
  {
    if rows != [] {
      ConcatLength(rows[..|rows| - 1], planes);
      OneMoreRow(|rows| - 1, planes);
    }
  }

  lemma {:induction false} ConcatAt<T>(rows: seq<seq<T>>, planes: nat, s: nat, p: nat)
    requires forall i | 0 <= i < |rows| :: |rows[i]| == planes
    requires s < |rows| && p < planes
    ensures AtFlat(Concat(rows), s, p, planes, rows[s][p])
    decreases |rows|
  {
    var n := |rows| - 1;
    ConcatLength(rows[..n], planes);
    if s < n {
      ConcatAt(rows[..n], planes, s, p);
    } else {
      assert Concat(rows)[n * planes + p] == rows[n][p];
    }
  }

  lemma ConcatSnoc<T>(rows: seq<seq<T>>, row: seq<T>)
    ensures Concat(rows + [row]) == Concat(rows) + row
  {
    assert (rows + [row])[..|rows|] == rows;
  }

  predicate AllShaped(slots: seq<Layout>) {
    forall i | 0 <= i < |slots| :: Shaped(slots[i])
  }

  function StrideRows(slots: seq<Layout>, planes: nat): seq<seq<nat>>
    requires planes <= MAX_PLANES && AllShaped(slots)
  {
    seq(|slots|, i requires 0 <= i < |slots| => slots[i].strides[..planes])
  }

  function OffsetRows(slots: seq<Layout>, planes: nat): seq<seq<nat>>
    requires planes <= MAX_PLANES && AllShaped(slots)
  {
    seq(|slots|, i requires 0 <= i < |slots| => slots[i].offsets[..planes])
  }

  function SizeRows(slots: seq<Layout>, planes: nat): seq<seq<nat>>
    requires planes <= MAX_PLANES && AllShaped(slots)
  {
    seq(|slots|, i requires 0 <= i < |slots| => slots[i].sizes[..planes])
  }

  function FdRows(slots: seq<Layout>, planes: nat): seq<seq<int>>
    requires planes <= MAX_PLANES && AllShaped(slots)
  {
    seq(|slots|, i requires 0 <= i < |slots| => slots[i].fds[..planes])
  }

  lemma GrowRow<T>(before: seq<T>, row: seq<T>, pl: nat)
    requires pl < |row|
    ensures before + row[..pl] + [row[pl]] == before + row[..pl + 1]
  {
  }

  /** The four parallel arrays of a bind_buffers message. */
  class Scratch {
    const strides: array<nat>
    const offsets: array<nat>
    const sizes: array<nat>
    const fds: array<int>

    ghost predicate Valid() {
      && strides.Length == offsets.Length == sizes.Length == fds.Length == MAX_SLOTS * MAX_PLANES
      && strides != offsets && strides != sizes && offsets != sizes
    }

    constructor ()
      ensures Valid() && fresh(strides) && fresh(offsets) && fresh(sizes) && fresh(fds)
    {
      strides := new nat[MAX_SLOTS * MAX_PLANES];
      offsets := new nat[MAX_SLOTS * MAX_PLANES];
      sizes := new nat[MAX_SLOTS * MAX_PLANES];
      fds := new int[MAX_SLOTS * MAX_PLANES];
    }

    static method Put<T>(a: array<T>, at: nat, v: T)
      requires at < a.Length
      modifies a
      ensures a[..at + 1] == old(a[..at]) + [v]
    {
      a[at] := v;
    }

    /** The planes of one slot, from the flat index of its first plane on. */
    method CopySlot(l: Layout, slot: nat, planes: nat)
      requires Valid() && Shaped(l) && planes <= MAX_PLANES && slot < MAX_SLOTS
      modifies strides, offsets, sizes, fds
      ensures Flat(slot + 1, 0, planes) <= MAX_SLOTS * MAX_PLANES && Flat(slot, 0, planes) <= Flat(slot + 1, 0, planes)
      ensures strides[..Flat(slot + 1, 0, planes)] == old(strides[..Flat(slot, 0, planes)]) + l.strides[..planes]
      ensures offsets[..Flat(slot + 1, 0, planes)] == old(offsets[..Flat(slot, 0, planes)]) + l.offsets[..planes]
      ensures sizes[..Flat(slot + 1, 0, planes)] == old(sizes[..Flat(slot, 0, planes)]) + l.sizes[..planes]
      ensures fds[..Flat(slot + 1, 0, planes)] == old(fds[..Flat(slot, 0, planes)]) + l.fds[..planes]
    {
      FlatFits(slot, planes);
      FlatNext(slot, planes);
      ghost var base := Flat(slot, 0, planes);
      hide Flat;
      for pl := 0 to planes
        invariant strides[..base + pl] == old(strides[..base]) + l.strides[..pl]
        invariant offsets[..base + pl] == old(offsets[..base]) + l.offsets[..pl]
        invariant sizes[..base + pl] == old(sizes[..base]) + l.sizes[..pl]
        invariant fds[..base + pl] == old(fds[..base]) + l.fds[..pl]
      {
        var flat := slot * planes + pl;
        assert flat == base + pl;
        GrowRow(old(strides[..base]), l.strides, pl);
        GrowRow(old(offsets[..base]), l.offsets, pl);
        GrowRow(old(sizes[..base]), l.sizes, pl);
        GrowRow(old(fds[..base]), l.fds, pl);
        Put(strides, flat, l.strides[pl]);
        Put(offsets, flat, l.offsets[pl]);
        Put(sizes, flat, l.sizes[pl]);
        Put(fds, flat, l.fds[pl]);
      }
    }
  }

  lemma FlatFits(slot: nat, planes: nat)
    requires slot < MAX_SLOTS && planes <= MAX_PLANES
    ensures Flat(slot + 1, 0, planes) <= MAX_SLOTS * MAX_PLANES
    ensures Flat(slot, 0, planes) + planes == Flat(slot + 1, 0, planes) && Flat(slot, 0, planes) == slot * planes
  {
    OneMoreRow(slot, planes);
    if slot + 1 < MAX_SLOTS { LaterRows(slot + 1, MAX_SLOTS, planes); }
  }

  predicate Unused(fds: seq<int>) {
    forall i | 0 <= i < |fds| :: fds[i] < 0
  }

  lemma {:induction false} NothingUnused(fds: seq<int>)
    requires Unused(fds)
    ensures FdsIn(fds) == multiset{}
    decreases |fds|
  {
    if fds != [] { NothingUnused(fds[1..]); }
  }

  predicate AllUnused(slots: seq<Layout>) {
    forall i | 0 <= i < |slots| :: Unused(slots[i].fds)
  }

  lemma FreshSlots(slots: seq<Layout>)
    requires forall i | 0 <= i < |slots| :: slots[i] == Unset()
    ensures AllShaped(slots) && AllUnused(slots[0..]) && LiveFds(slots) == multiset{}
  {
    UnusedSlotsHoldNothing(slots);
  }

  lemma NoSlotsUnused(slots: seq<Layout>)
    ensures AllUnused(slots[..0])
  {
  }

  lemma ShapedAt(slots: seq<Layout>, i: nat)
    requires AllShaped(slots) && i < |slots|
    ensures Shaped(slots[i])
  {
  }

  lemma LiveFrom(slots: seq<Layout>, i: nat)
    requires i < |slots|
    ensures LiveFds(slots[i..]) == FdsIn(slots[i].fds) + LiveFds(slots[i + 1..])
  {
    hide FdsIn;
    assert slots[i..][1..] == slots[i + 1..];
  }

  lemma OneMoreUnused(was: seq<Layout>, now: seq<Layout>, i: nat)
    requires i < |was| == |now| && now == was[i := now[i]] && Shaped(now[i]) && Unused(now[i].fds)
    requires AllUnused(was[..i]) && AllShaped(was)
    ensures AllUnused(now[..i + 1]) && AllShaped(now) && now[i + 1..] == was[i + 1..] == was[i..][1..]
  {
    hide Unused, Shaped;
    var head := now[..i + 1];
    forall j | 0 <= j < |head| ensures Unused(head[j].fds) {
      if j < i { assert now[j] == was[..i][j]; }
    }
  }

  lemma UnusedWhole(slots: seq<Layout>, n: nat)
    requires n <= |slots| && AllUnused(slots[..n]) && AllUnused(slots[n..])
    ensures AllUnused(slots)
  {
    hide Unused;
    forall i | 0 <= i < |slots| ensures Unused(slots[i].fds) {
      assert slots[i] == if i < n then slots[..n][i] else slots[n..][i - n];
    }
  }

  lemma {:induction false} UnusedSlotsHoldNothing(slots: seq<Layout>)
    requires AllUnused(slots)
    ensures LiveFds(slots) == multiset{}
    decreases |slots|
  {
    hide FdsIn, Unused;
    if slots != [] {
      NothingUnused(slots[0].fds);
      UnusedSlotsHoldNothing(slots[1..]);
    }
  }

  lemma {:induction false} SlotFilled(slots: seq<Layout>, i: nat, l: Layout)
    requires i < |slots| && Unused(slots[i].fds)
    ensures LiveFds(slots[i := l]) == LiveFds(slots) + FdsIn(l.fds)
    decreases |slots|
  {
    hide FdsIn, Unused;
    NothingUnused(slots[i].fds);
    var next := slots[i := l];
    if i == 0 {
      assert next[1..] == slots[1..];
    } else {
      SlotFilled(slots[1..], i - 1, l);
      assert next[1..] == slots[1..][i - 1 := l];
    }
  }

  /** A bind_buffers message whose arrays and files agree with its counts. */
  predicate WellPacked(e: Event)
    requires e.BindBuffers?
  {
    && 1 <= e.count <= MAX_SLOTS && 1 <= e.planes <= MAX_PLANES
    && |e.stride| == |e.offset| == |e.size| == |e.fds| == e.count * e.planes
  }

  predicate PlaneAt(e: Event, l: Layout, s: nat, p: nat)
    requires e.BindBuffers? && Shaped(l) && p < MAX_PLANES
  {
    && AtFlat(e.stride, s, p, e.planes, l.strides[p])
    && AtFlat(e.offset, s, p, e.planes, l.offsets[p])
    && AtFlat(e.size, s, p, e.planes, l.sizes[p])
    && AtFlat(e.fds, s, p, e.planes, l.fds[p])
  }

  /** Slot s, plane p of the pool is at s * planes + p in every array of the message. */
  ghost predicate Carries(e: Event, slots: seq<Layout>)
    requires e.BindBuffers? && AllShaped(slots) && e.planes <= MAX_PLANES
  {
    && WellPacked(e) && e.count == |slots|
    && forall s: nat, p: nat | s < e.count && p < e.planes :: PlaneAt(e, slots[s], s, p)
  }

  /** The one message that went out, if it could be sent: that this directive failed, and why. */
  ghost predicate Told(before: seq<Event>, now: seq<Event>, d: Directive, reason: nat, sent: bool) {
    now == before + if sent then [BindFailed(d.fourcc, d.modifier, reason)] else []
  }

  /** Along everything sent, generations and release points only rise, up to the given ones. */
  ghost predicate Rising(wire: seq<Event>, generation: nat, point: nat) {
    && (forall i | 0 <= i < |wire| && wire[i].BindBuffers? ::
          0 < wire[i].generation <= generation && WellPacked(wire[i]))
    && (forall i | 0 <= i < |wire| && wire[i].FrameReady? ::
          0 < wire[i].point <= point && wire[i].frame == wire[i].point)
    && (forall i, j | 0 <= i < j < |wire| && wire[i].BindBuffers? && wire[j].BindBuffers? ::
          wire[i].generation < wire[j].generation)
    && (forall i, j | 0 <= i < j < |wire| && wire[i].FrameReady? && wire[j].FrameReady? ::
          wire[i].point < wire[j].point)
  }

  class Pool {
    var caps: PoolCaps
    var capsAdvertised: bool
    var hasDirective: bool
    var cur: Option<Directive>
    const slots: array<Layout>
    var nSlots: nat
    var bindGeneration: nat
    var releasePoint: nat
    const lastReleasePoint: array<nat>
    var drmFd: int
    var open: multiset<int>          // descriptors this pool is responsible for
    var wire: seq<Event>             // messages the daemon was sent
    ghost var handed: multiset<int>  // descriptors ever handed to the pool
    ghost var closed: multiset<int>  // descriptors it closed
    ghost var log: seq<Happening>
    ghost var unsent: nat            // messages that could not be sent
    ghost var unmade: nat            // slots the backend failed to allocate

    ghost predicate SlotsValid()
      reads this`nSlots, slots
    {
      && slots.Length == MAX_SLOTS && AllShaped(slots[..])
      && nSlots <= MAX_SLOTS && AllUnused(slots[nSlots..])
    }

    /** Every descriptor handed over is either closed, once for each time it was handed over, or held by the
        pool; and those held are the drm node's and those of the slots below `nSlots`. */
    ghost predicate FdsValid()
      reads this`open, this`handed, this`closed, this`drmFd, slots
    {
      && handed == closed + open
      && open == Handle(drmFd) + LiveFds(slots[..])
    }

    ghost predicate PointsValid()
      reads this`log, lastReleasePoint
    {
      && lastReleasePoint.Length == MAX_SLOTS
      && forall i | 0 <= i < MAX_SLOTS :: lastReleasePoint[i] == LatestSubmit(log, i)
    }

    ghost predicate DirectiveValid()
      reads this`nSlots, this`hasDirective, this`cur
    {
      (nSlots > 0 ==> hasDirective) && (hasDirective <==> cur.Some?)
    }

    ghost predicate Valid()
      reads this, slots, lastReleasePoint
    {
      && DirectiveValid() && SlotsValid() && FdsValid() && PointsValid()
      && Rising(wire, bindGeneration, releasePoint) && Linked(log, wire, bindGeneration)
    }

    constructor (caps: PoolCaps, drmFd: int)
      requires drmFd >= 0
      ensures Valid() && nSlots == 0 && wire == [] && handed == multiset{drmFd} && fresh(slots) &&
        fresh(lastReleasePoint)
    {
      NothingSent();
      hide Rising, Linked, LatestSubmit, LiveFds, AllShaped, AllUnused;
      this.caps, this.capsAdvertised, this.hasDirective, this.cur, this.nSlots := caps, false, false, None, 0;
      this.bindGeneration, this.releasePoint, this.drmFd, this.wire := 0, 0, drmFd, [];
      this.open, this.handed, this.closed, this.log := multiset{drmFd}, multiset{drmFd}, multiset{}, [];
      this.unsent, this.unmade := 0, 0;
      slots := new Layout[MAX_SLOTS](_ => Unset());
      lastReleasePoint := new nat[MAX_SLOTS](_ => 0);
      new;
      FreshSlots(slots[..]);
    }

    method Close(fd: int)
      requires fd in open
      modifies this`open, this`closed
      ensures open == old(open) - multiset{fd} && closed == old(closed) + multiset{fd}
    {
      open, closed := open - multiset{fd}, closed + multiset{fd};
    }

    /** Closes one plane if it holds a descriptor. */
    method ClosePlane(i: nat, pl: nat, ghost rest: multiset<int>)
      requires i < slots.Length && Shaped(slots[i]) && pl < MAX_PLANES && open == rest + Handle(slots[i].fds[pl])
      modifies this`open, this`closed, slots
      ensures open == rest && closed + open == old(closed + open)
      ensures slots[..] == old(slots[..])[i := slots[i]] && Shaped(slots[i]) && slots[i].fds[pl] < 0
      ensures forall k | 0 <= k < MAX_PLANES && k != pl :: slots[i].fds[k] == old(slots[i].fds[k])
    {
      if slots[i].fds[pl] >= 0 {
        Close(slots[i].fds[pl]);
        slots[i] := slots[i].(fds := slots[i].fds[pl := -1]);
      }
    }

    method CloseSlot(i: nat, ghost rest: multiset<int>)
      requires i < slots.Length && Shaped(slots[i]) && open == rest + FdsIn(slots[i].fds)
      modifies this`open, this`closed, slots
      ensures open == rest && closed + open == old(closed + open)
      ensures slots[..] == old(slots[..])[i := slots[i]] && Shaped(slots[i]) && Unused(slots[i].fds)
    {
      hide Handle;
      ghost var fds := slots[i].fds;
      assert fds[0..] == fds && fds[4..] == [];
      for pl := 0 to MAX_PLANES
        invariant slots[..] == old(slots[..])[i := slots[i]] && Shaped(slots[i])
        invariant forall k | pl <= k < MAX_PLANES :: slots[i].fds[k] == fds[k]
        invariant forall k | 0 <= k < pl :: slots[i].fds[k] < 0
        invariant open == rest + FdsIn(fds[pl..]) && closed + open == old(closed + open)
      {
        assert fds[pl..][1..] == fds[pl + 1..] && fds[pl..][0] == slots[i].fds[pl];
        Union3(rest, Handle(slots[i].fds[pl]), FdsIn(fds[pl + 1..]));
        ClosePlane(i, pl, rest + FdsIn(fds[pl + 1..]));
      }
    }

    method CloseSlotFds()
      requires SlotsValid() && FdsValid()
      modifies this`nSlots, this`open, this`closed, slots
      ensures nSlots == 0 && SlotsValid() && FdsValid() && AllUnused(slots[..])
      ensures open == Handle(drmFd)
    {
      hide FdsIn, Unused, Shaped, LiveFds, AllUnused, AllShaped;
      ghost var before := slots[..];
      assert slots[0..] == before;
      NoSlotsUnused(before);
      for i := 0 to nSlots
        invariant nSlots == old(nSlots) && AllShaped(slots[..])
        invariant slots[i..] == before[i..] && AllUnused(slots[..i])
        invariant handed == closed + open && open == Handle(drmFd) + LiveFds(before[i..])
      {
        ghost var left := before[i + 1..];
        LiveFrom(before, i);
        assert slots[i] == slots[i..][0] == before[i..][0];
        ShapedAt(slots[..], i);
        Union3(Handle(drmFd), FdsIn(slots[i].fds), LiveFds(left));
        ghost var was := slots[..];
        CloseSlot(i, Handle(drmFd) + LiveFds(left));
        OneMoreUnused(was, slots[..], i);
      }
      UnusedSlotsHoldNothing(before[nSlots..]);
      UnusedWhole(slots[..], nSlots);
      UnusedSlotsHoldNothing(slots[..]);
      nSlots := 0;
    }

    method ResetPoints()
      requires lastReleasePoint.Length == MAX_SLOTS
      modifies this`log, lastReleasePoint
      ensures PointsValid() && log == old(log) + [Happening.Teardown]
      ensures forall i | 0 <= i < MAX_SLOTS :: lastReleasePoint[i] == 0
    {
      for i := 0 to MAX_SLOTS
        invariant forall j | 0 <= j < i :: lastReleasePoint[j] == 0
        modifies lastReleasePoint
      {
        lastReleasePoint[i] := 0;
      }
      log := log + [Happening.Teardown];
    }

    /** `teardown_slots`: every slot's descriptors are closed and all back-pressure points are forgotten. */
    method Teardown()
      requires Valid()
      modifies this`nSlots, this`open, this`closed, this`log, slots, lastReleasePoint
      ensures Valid() && nSlots == 0 && open == Handle(drmFd) && log == old(log) + [Happening.Teardown]
      ensures forall i | 0 <= i < MAX_SLOTS :: slots[i] == Unset() && lastReleasePoint[i] == 0
    {
      hide Rising, FdsValid, AllUnused, AllShaped, LatestSubmit, Linked;
      StaysLinked(log, wire, bindGeneration, Happening.Teardown);
      CloseSlotFds();
      ResetSlots();
      ResetPoints();
    }

    /** Zeroes every slot and marks its descriptors unused. */
    method ResetSlots()
      requires SlotsValid() && nSlots == 0 && FdsValid() && open == Handle(drmFd)
      modifies slots
      ensures SlotsValid() && FdsValid()
      ensures forall i | 0 <= i < MAX_SLOTS :: slots[i] == Unset()
    {
      for i := 0 to MAX_SLOTS
        invariant forall j | 0 <= j < i :: slots[j] == Unset()
      {
        slots[i] := Unset();
      }
      UnusedSlotsHoldNothing(slots[..]);
    }

    // -------------------------------------------------------------
    // Announcing the slots

    method FillScratch(sc: Scratch, planes: nat)
      requires SlotsValid() && sc.Valid() && 1 <= planes <= MAX_PLANES
      modifies sc.strides, sc.offsets, sc.sizes, sc.fds
      ensures AllShaped(slots[..nSlots]) && nSlots * planes <= MAX_SLOTS * MAX_PLANES
      ensures sc.strides[..nSlots * planes] == Concat(StrideRows(slots[..nSlots], planes))
      ensures sc.offsets[..nSlots * planes] == Concat(OffsetRows(slots[..nSlots], planes))
      ensures sc.sizes[..nSlots * planes] == Concat(SizeRows(slots[..nSlots], planes))
      ensures sc.fds[..nSlots * planes] == Concat(FdRows(slots[..nSlots], planes))
    {
      hide StrideRows, OffsetRows, SizeRows, FdRows, Concat, Shaped;
      NoRows(slots[..], planes);
      for s := 0 to nSlots
        invariant Flat(s, 0, planes) <= MAX_SLOTS * MAX_PLANES && AllShaped(slots[..s])
        invariant sc.strides[..Flat(s, 0, planes)] == Concat(StrideRows(slots[..s], planes))
        invariant sc.offsets[..Flat(s, 0, planes)] == Concat(OffsetRows(slots[..s], planes))
        invariant sc.sizes[..Flat(s, 0, planes)] == Concat(SizeRows(slots[..s], planes))
        invariant sc.fds[..Flat(s, 0, planes)] == Concat(FdRows(slots[..s], planes))
      {
        assert Shaped(slots[..][s]);
        RowsGrow(slots[..], s, planes);
        assert slots[..][..s] == slots[..s] && slots[..][..s + 1] == slots[..s + 1];
        sc.CopySlot(slots[s], s, planes);
      }
    }

    /** All slots must agree on a plane count the message can carry. */
    method CommonPlanes() returns (ok: bool, planes: nat)
      requires SlotsValid() && nSlots > 0
      ensures ok <==> Uniform(slots[..nSlots])
      ensures planes == slots[0].planes && (ok ==> 1 <= planes <= MAX_PLANES)
    {
      hide AllShaped, AllUnused;
      planes := slots[0].planes;
      assert slots[..nSlots][0].planes == planes;
      if planes == 0 || planes > MAX_PLANES { return false, planes; }
      for i := 1 to nSlots
        invariant forall j | 0 <= j < i :: slots[j].planes == planes
      {
        if slots[i].planes != planes {
          assert slots[..nSlots][i].planes != planes;
          return false, planes;
        }
      }
      ok := true;
    }

    method Flatten(planes: nat) returns (strides: seq<nat>, offsets: seq<nat>, sizes: seq<nat>, fds: seq<int>)
      requires SlotsValid() && 1 <= planes <= MAX_PLANES
      ensures AllShaped(slots[..nSlots])
      ensures strides == Concat(StrideRows(slots[..nSlots], planes)) &&
        offsets == Concat(OffsetRows(slots[..nSlots], planes))
      ensures sizes == Concat(SizeRows(slots[..nSlots], planes)) && fds == Concat(FdRows(slots[..nSlots], planes))
    {
      hide Concat, StrideRows, OffsetRows, SizeRows, FdRows, AllUnused;
      var sc := new Scratch();
      FillScratch(sc, planes);
      var total := nSlots * planes;
      return sc.strides[..total], sc.offsets[..total], sc.sizes[..total], sc.fds[..total];
    }

    /** The message for the current slots under the current generation. */
    method Announcement(planes: nat) returns (e: Event)
      requires SlotsValid() && cur.Some? && nSlots > 0 && planes == slots[0].planes && 1 <= planes <= MAX_PLANES
      ensures Announces(e)
    {
      hide Carries, WellPacked, Concat, StrideRows, OffsetRows, SizeRows, FdRows, AllShaped, AllUnused;
      var strides, offsets, sizes, fds := Flatten(planes);
      e := BindBuffers(bindGeneration, cur.value.memSource == 1 || cur.value.memSource == 2, nSlots,
                       cur.value.fourcc, cur.value.width, cur.value.height, slots[0].modifier, planes,
                       strides, offsets, sizes, fds);
      RowsCarried(e, slots[..nSlots]);
    }

    /** The message describes the current slots, plane by plane, and the directive they were made for. */
    ghost predicate Announces(e: Event)
      reads this`bindGeneration, this`nSlots, this`cur, slots
    {
      && 0 < nSlots <= slots.Length && cur.Some? && e.BindBuffers?
      && e.generation == bindGeneration && e.count == nSlots
      && e.planes == slots[0].planes && e.modifier == slots[0].modifier
      && e.fourcc == cur.value.fourcc && e.width == cur.value.width && e.height == cur.value.height
      && (e.hostVisible <==> cur.value.memSource in {1, 2})
      && AllShaped(slots[..nSlots]) && WellPacked(e) && Carries(e, slots[..nSlots])
    }

    /** Announces the current slots under a new generation. The generation is spent even when nothing is sent. */
    method EmitBindBuffers() returns (rc: int)
      requires Valid()
      modifies this`bindGeneration, this`wire, this`unsent, this`log
      ensures Valid()
      ensures bindGeneration == old(bindGeneration) + (if nSlots == 0 then 0 else 1)
      ensures log == old(log) + if nSlots == 0 then [] else [Announced(rc == WW_OK)]
      ensures rc != WW_OK ==> wire == old(wire)
      ensures nSlots == 0 || !Uniform(slots[..nSlots]) ==> rc == -EINVAL
      ensures unsent >= old(unsent)
      ensures nSlots > 0 && Uniform(slots[..nSlots]) ==> (rc == WW_OK <==> unsent == old(unsent))
      ensures rc == WW_OK ==> |wire| == |old(wire)| + 1 && wire[..|old(wire)|] == old(wire)
      ensures rc == WW_OK ==> Announces(wire[|old(wire)|])
    {
      hide FdsValid, PointsValid, Uniform, Rising, Linked, Carries, WellPacked, AllShaped, AllUnused;
      if nSlots == 0 || nSlots > MAX_SLOTS { return -EINVAL; }
      ghost var was := wire;
      bindGeneration := bindGeneration + 1;
      rc := SendSlots();
      LinkedAgain(log, was, bindGeneration - 1, wire, rc == WW_OK);
      Note(rc == WW_OK);
    }

    method SendSlots() returns (rc: int)
      requires SlotsValid() && cur.Some? && 0 < nSlots <= MAX_SLOTS
      requires bindGeneration > 0 && Rising(wire, bindGeneration - 1, releasePoint)
      modifies this`wire, this`unsent
      ensures Rising(wire, bindGeneration, releasePoint)
      ensures !Uniform(slots[..nSlots]) ==> rc == -EINVAL
      ensures unsent >= old(unsent) && (Uniform(slots[..nSlots]) ==> (rc == WW_OK <==> unsent == old(unsent)))
      ensures rc != WW_OK ==> wire == old(wire)
      ensures rc == WW_OK ==> |wire| == |old(wire)| + 1 && wire[..|old(wire)|] == old(wire)
      ensures rc == WW_OK ==> Announces(wire[|old(wire)|])
    {
      hide Uniform, Rising, Carries, WellPacked, AllShaped, AllUnused;
      RisesFurther(wire, bindGeneration - 1, bindGeneration, releasePoint, releasePoint);
      var ok, planes := CommonPlanes();
      if !ok { return -EINVAL; }
      var e := Announcement(planes);
      rc := SendBindBuffers(e);
    }

    ghost method Note(sent: bool)
      requires PointsValid()
      modifies this`log
      ensures PointsValid() && log == old(log) + [Announced(sent)]
    {
      log := log + [Announced(sent)];
      assert log[..|log| - 1] == old(log);
    }

    method SendBindBuffers(e: Event) returns (rc: int)
      requires bindGeneration > 0 && Rising(wire, bindGeneration - 1, releasePoint)
      requires e.BindBuffers? && e.generation == bindGeneration && WellPacked(e)
      modifies this`wire, this`unsent
      ensures Rising(wire, bindGeneration, releasePoint)
      ensures rc != -EINVAL && wire == if rc == WW_OK then old(wire) + [e] else old(wire)
      ensures unsent == old(unsent) + if rc == WW_OK then 0 else 1
    {
      hide Rising;
      RisesFurther(wire, bindGeneration - 1, bindGeneration, releasePoint, releasePoint);
      var sent: bool := *;
      if !sent {
        unsent := unsent + 1;
        return SEND_FAILED;
      }
      AnnouncementRises(wire, bindGeneration, releasePoint, e);
      wire := wire + [e];
      rc := WW_OK;
    }

    // -------------------------------------------------------------
    // The public operations

    /** The pool probes its backend and describes itself to the daemon. Once probed it counts as advertised, even
        when nothing could be sent. */
    method AdvertiseCaps(width: nat, height: nat, memHint: bv32, probed: Option<seq<Entry>>) returns (rc: int)
      requires Valid()
      modifies this`caps, this`capsAdvertised, this`unsent
      ensures Valid()
      ensures caps == old(caps).(probeWidth := width, probeHeight := height, memHint := memHint,
                                 entries := GetOr(probed, old(caps).entries))
      ensures capsAdvertised == (old(capsAdvertised) || probed.Some?)
      ensures probed.None? || AdvertiseCode(caps) != WW_OK ==> rc != WW_OK
      ensures unsent >= old(unsent) && (probed.Some? && unsent == old(unsent) ==> rc == AdvertiseCode(caps))
    {
      hide Rising, FdsValid, PointsValid, SlotsValid, Linked;
      caps := caps.(probeWidth := width, probeHeight := height, memHint := memHint);
      if probed.None? { return -ENOTSUP; }
      caps := caps.(entries := probed.value);
      capsAdvertised := true;
      if * {
        unsent := unsent + 1;
        return SEND_FAILED;
      }
      rc := AdvertiseCode(caps);
    }

    /** The backend allocates the next slot: on success it hands over one new descriptor per plane, on failure none. */
    method AddSlot() returns (rc: int)
      requires Valid() && nSlots < MAX_SLOTS && hasDirective
      modifies this`nSlots, this`open, this`handed, this`unmade, slots
      ensures unmade == old(unmade) + if rc == WW_OK then 0 else 1
      ensures Valid() && nSlots == old(nSlots) + (if rc == WW_OK then 1 else 0)
      ensures slots[..old(nSlots)] == old(slots[..nSlots])
      ensures rc == WW_OK ==> Offered(slots[old(nSlots)]) && AllNew(slots[old(nSlots)].fds, old(open))
      ensures rc == WW_OK ==> handed == old(handed) + FdsIn(slots[old(nSlots)].fds)
      ensures rc != WW_OK ==> open == old(open) && handed == old(handed) && slots[..] == old(slots[..])
    {
      hide Rising, Linked, LatestSubmit, PointsValid, FdsValid, FdsIn, LiveFds, AllUnused, AllShaped, Unused;
      var l: Layout := *;
      if !Offered(l) || !AllNew(l.fds, open) {
        unmade := unmade + 1;
        return -ENOMEM;
      }
      TakeOver(l);
      rc := WW_OK;
    }

    /** A filled slot joins the pool together with its descriptors. */
    method TakeOver(l: Layout)
      requires Valid() && nSlots < MAX_SLOTS && hasDirective && Shaped(l)
      modifies this`nSlots, this`open, this`handed, slots
      ensures Valid() && nSlots == old(nSlots) + 1
      ensures slots[..] == old(slots[..])[old(nSlots) := l] && handed == old(handed) + FdsIn(l.fds)
    {
      hide Rising, Linked, LatestSubmit, PointsValid, FdsIn, LiveFds, AllUnused, AllShaped, Unused, Shaped;
      SlotTaken(slots[..], nSlots, l);
      SlotFilled(slots[..], nSlots, l);
      Union2(closed, open, FdsIn(l.fds));
      Union2(Handle(drmFd), LiveFds(slots[..]), FdsIn(l.fds));
      ghost var was := slots[..];
      slots[nSlots] := l;
      assert slots[..] == was[nSlots := l];
      nSlots, open, handed := nSlots + 1, open + FdsIn(l.fds), handed + FdsIn(l.fds);
    }

    method Report(e: Event)
      requires Valid() && e.BindFailed?
      modifies this`wire, this`unsent
      ensures Valid() && unsent >= old(unsent) && wire == old(wire) + if unsent == old(unsent) then [e] else []
    {
      hide FdsValid, PointsValid, SlotsValid, Linked;
      if * {
        unsent := unsent + 1;
        return;
      }
      FailureRises(wire, bindGeneration, releasePoint, e);
      StaysLinkedOnWire(log, wire, bindGeneration, e);
      hide Rising;
      wire := wire + [e];
    }

    ghost predicate Accepts(d: Directive)
      reads this`capsAdvertised, this`caps
    {
      capsAdvertised && Verdict(caps, d) == WW_OK
    }

    /** Rebuilds the slots for a directive. A rejected directive changes nothing; a failed allocation leaves no
        slot; a failed announcement leaves the new slots in place, unannounced. */
    method ApplyDirective(d: Directive) returns (rc: int, ghost made: nat)
      requires Valid()
      modifies this, slots, lastReleasePoint
      ensures Valid() && caps == old(caps) && capsAdvertised == old(capsAdvertised) && drmFd == old(drmFd)
      ensures releasePoint == old(releasePoint) && unsent >= old(unsent) && unmade >= old(unmade)
      ensures hasDirective == (old(hasDirective) || Accepts(d))
      ensures cur == if Accepts(d) then Some(d.(width := caps.probeWidth, height := caps.probeHeight)) else old(cur)
      ensures !capsAdvertised ==> rc == -EINVAL && wire == old(wire)
      ensures capsAdvertised && !Accepts(d) ==> Told(old(wire), wire, d, 2, unsent == old(unsent))
      ensures !Accepts(d) ==>
        && rc != WW_OK && nSlots == old(nSlots) && slots[..] == old(slots[..]) && open == old(open)
        && log == old(log) && bindGeneration == old(bindGeneration)
      ensures Accepts(d) && unmade != old(unmade) ==>
        && rc != WW_OK && nSlots == 0 && made < d.count && bindGeneration == old(bindGeneration)
        && Told(old(wire), wire, d, if made == 0 then 0 else 1, unsent == old(unsent))
      ensures Accepts(d) && unmade == old(unmade) ==>
        && nSlots == made == d.count && bindGeneration == old(bindGeneration) + 1
        && log != [] && log[|log| - 1] == Announced(rc == WW_OK)
        && (Uniform(slots[..nSlots]) ==> (rc == WW_OK <==> unsent == old(unsent)))
        && (!Uniform(slots[..nSlots]) ==> rc == -EINVAL)
        && (rc != WW_OK ==> wire == old(wire))
      ensures rc == WW_OK ==> Accepts(d) && unmade == old(unmade)
      ensures rc == WW_OK ==> |wire| == |old(wire)| + 1 && wire[..|old(wire)|] == old(wire)
      ensures rc == WW_OK ==> var e := wire[|old(wire)|];
        && e.BindBuffers? && e.generation == bindGeneration && e.count == d.count && e.fourcc == d.fourcc
        && e.width == caps.probeWidth && e.height == caps.probeHeight
        && (e.hostVisible <==> d.memSource in {1, 2})
        && e.modifier == slots[0].modifier && e.planes == slots[0].planes
        && AllShaped(slots[..nSlots]) && WellPacked(e) && Carries(e, slots[..nSlots])
    {
      hide Rising, Linked, LatestSubmit, Verdict, WellPacked, Carries, FdsValid, PointsValid, SlotsValid, Uniform;
      hide AllShaped;
      made := 0;
      if !capsAdvertised { return -EINVAL, made; }
      rc := ValidateDirective(caps, d);
      if rc != WW_OK {
        Report(BindFailed(d.fourcc, d.modifier, 2));
        return;
      }
      rc, made := Rebuild(d);
    }

    /** After validation: old slots go, the directive is taken over with the renderer's extent, new slots are
        allocated and announced. */
    method Rebuild(d: Directive) returns (rc: int, ghost made: nat)
      requires Valid() && Accepts(d)
      modifies this`nSlots, this`open, this`closed, this`handed, this`log, this`wire, this`unsent, this`unmade,
        this`cur, this`hasDirective, this`bindGeneration, slots, lastReleasePoint
      ensures Valid() && unsent >= old(unsent) && unmade >= old(unmade)
      ensures hasDirective && cur == Some(d.(width := caps.probeWidth, height := caps.probeHeight))
      ensures unmade != old(unmade) ==>
        && rc != WW_OK && nSlots == 0 && made < d.count && bindGeneration == old(bindGeneration)
        && Told(old(wire), wire, d, if made == 0 then 0 else 1, unsent == old(unsent))
      ensures unmade == old(unmade) ==>
        && nSlots == made == d.count && bindGeneration == old(bindGeneration) + 1
        && log != [] && log[|log| - 1] == Announced(rc == WW_OK)
        && (Uniform(slots[..nSlots]) ==> (rc == WW_OK <==> unsent == old(unsent)))
        && (!Uniform(slots[..nSlots]) ==> rc == -EINVAL)
        && (rc != WW_OK ==> wire == old(wire))
      ensures rc == WW_OK ==> unmade == old(unmade)
      ensures rc == WW_OK ==> |wire| == |old(wire)| + 1 && wire[..|old(wire)|] == old(wire)
      ensures rc == WW_OK ==> Announces(wire[|old(wire)|])
    {
      hide Rising, Linked, LatestSubmit, FdsIn, LiveFds, AllUnused, Verdict, WellPacked, Carries, FdsValid, PointsValid,
        Announces, Uniform, AllShaped;
      AcceptedIff(caps, d);
      Teardown();
      cur := Some(d.(width := if caps.probeWidth > 0 then caps.probeWidth else d.width,
                     height := if caps.probeHeight > 0 then caps.probeHeight else d.height));
      hasDirective := true;
      rc, made := AllocateAll(d);
      if rc != WW_OK { return; }
      rc := EmitBindBuffers();
    }

    /** One slot after the other; the first failure is reported, as a failed import when no slot could be `made`
        and as lack of memory otherwise, and everything is rolled back. */
    method AllocateAll(d: Directive) returns (rc: int, ghost made: nat)
      requires Valid() && nSlots == 0 && hasDirective && 1 <= d.count <= MAX_SLOTS
      modifies this`nSlots, this`open, this`closed, this`handed, this`log, this`wire, this`unsent, this`unmade, slots,
        lastReleasePoint
      ensures unsent >= old(unsent) && (rc == WW_OK ==> unsent == old(unsent))
      ensures unmade >= old(unmade) && (rc == WW_OK <==> unmade == old(unmade))
      ensures Valid() && nSlots == if rc == WW_OK then d.count else 0
      ensures rc == WW_OK ==> wire == old(wire)
      ensures rc != WW_OK ==> Told(old(wire), wire, d, if made == 0 then 0 else 1, unsent == old(unsent))
      ensures made <= d.count && (made == d.count <==> rc == WW_OK)
    {
      hide Rising, Linked, FdsIn, LiveFds, Verdict, FdsValid, PointsValid, SlotsValid, Offered;
      made := 0;
      rc := AddSlot();
      if rc != WW_OK {
        Report(BindFailed(d.fourcc, d.modifier, 0));
        return;
      }
      made := 1;
      for i := 1 to d.count
        invariant Valid() && nSlots == made == i && wire == old(wire) && hasDirective
        invariant unsent == old(unsent) && unmade == old(unmade)
      {
        rc := AddSlot();
        if rc != WW_OK {
          Report(BindFailed(d.fourcc, d.modifier, 1));
          Teardown();
          return;
        }
        made := i + 1;
      }
      rc := WW_OK;
    }

    /** Publishes a rendered slot. The fence is closed on every path. A submit without a fence is refused by the
        sender only after the release point was spent and stored. */
    method SubmitSlot(slot: nat, fence: int) returns (rc: int)
      requires Valid()
      modifies this`releasePoint, this`wire, this`unsent, this`log, this`open, this`handed, this`closed,
        lastReleasePoint
      ensures Valid()
      ensures handed == old(handed) + Handle(fence) && closed == old(closed) + Handle(fence) && open == old(open)
      ensures hasDirective && slot < nSlots ==> (rc == -EINVAL <==> fence < 0)
      ensures unsent >= old(unsent)
      ensures hasDirective && slot < nSlots && fence >= 0 ==> (rc == WW_OK <==> unsent == old(unsent))
      ensures !hasDirective || slot >= nSlots ==>
        rc == -EINVAL && wire == old(wire) && log == old(log) && releasePoint == old(releasePoint)
      ensures hasDirective && slot < nSlots ==>
        && releasePoint == old(releasePoint) + 1 && log == old(log) + [Submit(slot, releasePoint)]
        && lastReleasePoint[..] == old(lastReleasePoint[..])[slot := releasePoint]
      ensures rc == WW_OK ==> wire == old(wire) + [FrameReady(slot, releasePoint, releasePoint)] && fence >= 0
      ensures rc != WW_OK ==> wire == old(wire)
    {
      hide FdsValid, HoldsFence, PointsValid, Rising, Linked, LatestSubmit, Handle;
      assert nSlots <= MAX_SLOTS;
      hide SlotsValid;
      TakeFence(fence);
      if !hasDirective || slot >= nSlots {
        CloseFence(fence);
        return -EINVAL;
      }
      rc := Publish(slot, fence);
      CloseFence(fence);
    }

    /** The next release point is spent and stored before anything can fail. */
    method Publish(slot: nat, fence: int) returns (rc: int)
      requires PointsValid() && slot < MAX_SLOTS
      requires Rising(wire, bindGeneration, releasePoint) && Linked(log, wire, bindGeneration)
      modifies this`releasePoint, this`wire, this`unsent, this`log, lastReleasePoint
      ensures PointsValid()
      ensures Rising(wire, bindGeneration, releasePoint) && Linked(log, wire, bindGeneration)
      ensures releasePoint == old(releasePoint) + 1 && log == old(log) + [Submit(slot, releasePoint)]
      ensures lastReleasePoint[..] == old(lastReleasePoint[..])[slot := releasePoint]
      ensures rc == -EINVAL <==> fence < 0
      ensures unsent >= old(unsent) && (fence >= 0 ==> (rc == WW_OK <==> unsent == old(unsent)))
      ensures wire == if rc == WW_OK then old(wire) + [FrameReady(slot, releasePoint, releasePoint)] else old(wire)
    {
      hide PointsValid, Rising, LatestSubmit, Linked;
      releasePoint := releasePoint + 1;
      var point := releasePoint;
      StaysLinked(log, wire, bindGeneration, Submit(slot, point));
      StorePoint(slot, point);
      StaysLinkedOnWire(log, wire, bindGeneration, FrameReady(slot, point, point));
      rc := SendFrameReady(slot, fence);
    }

    /** The books while a submit holds a fence of the caller's besides the pool's own descriptors. */
    ghost predicate HoldsFence(fd: int)
      reads this`open, this`handed, this`closed, this`drmFd, slots
    {
      && handed == closed + open
      && open == Handle(drmFd) + LiveFds(slots[..]) + Handle(fd)
    }

    /** The caller hands over a descriptor, or a negative number for none. */
    method TakeFence(fd: int)
      requires FdsValid()
      modifies this`handed, this`open
      ensures HoldsFence(fd) && handed == old(handed) + Handle(fd) && open == old(open) + Handle(fd)
    {
      hide LiveFds, Handle;
      handed, open := handed + Handle(fd), open + Handle(fd);
    }

    /** Closes a descriptor that was handed over; the books balance again. */
    method CloseFence(fd: int)
      requires HoldsFence(fd)
      modifies this`open, this`closed
      ensures FdsValid() && open == old(open) - Handle(fd) && closed == old(closed) + Handle(fd)
    {
      hide LiveFds;
      if fd >= 0 {
        assert fd in open;
        Close(fd);
      }
    }

    method SendFrameReady(slot: nat, fence: int) returns (rc: int)
      requires releasePoint > 0 && Rising(wire, bindGeneration, releasePoint - 1)
      modifies this`wire, this`unsent
      ensures Rising(wire, bindGeneration, releasePoint)
      ensures rc == -EINVAL <==> fence < 0
      ensures unsent >= old(unsent) && (fence >= 0 ==> (rc == WW_OK <==> unsent == old(unsent)))
      ensures wire == if rc == WW_OK then old(wire) + [FrameReady(slot, releasePoint, releasePoint)] else old(wire)
    {
      hide Rising;
      RisesFurther(wire, bindGeneration, bindGeneration, releasePoint - 1, releasePoint);
      if fence < 0 { return -EINVAL; }
      var sent: bool := *;
      if !sent {
        unsent := unsent + 1;
        return SEND_FAILED;
      }
      FrameRises(wire, bindGeneration, releasePoint, FrameReady(slot, releasePoint, releasePoint));
      wire := wire + [FrameReady(slot, releasePoint, releasePoint)];
      rc := WW_OK;
    }

    method StorePoint(slot: nat, point: nat)
      requires PointsValid() && slot < MAX_SLOTS
      modifies this`log, lastReleasePoint
      ensures PointsValid() && log == old(log) + [Submit(slot, point)]
      ensures lastReleasePoint[..] == old(lastReleasePoint[..])[slot := point]
    {
      lastReleasePoint[slot] := point;
      log := log + [Submit(slot, point)];
      forall i | 0 <= i < MAX_SLOTS ensures lastReleasePoint[i] == LatestSubmit(log, i) {
        assert log[..|log| - 1] == old(log);
      }
    }

    /** The point to wait for before a slot is drawn into again: its latest submit, or 0 when it has none. */
    method WaitPoint(slot: nat) returns (rc: int, point: nat)
      requires Valid()
      ensures rc == WW_OK <==> hasDirective && slot < nSlots
      ensures rc == WW_OK ==> point == LatestSubmit(log, slot)
    {
      if !hasDirective || slot >= nSlots { return -EINVAL, 0; }
      return WW_OK, lastReleasePoint[slot];
    }

    /** After destruction every descriptor the pool was ever handed has been closed, as often as it was handed. */
    method Destroy()
      requires Valid()
      modifies this, slots, lastReleasePoint
      ensures handed == old(handed) && closed == handed && open == multiset{} && drmFd < 0 && nSlots == 0
    {
      hide Rising, LatestSubmit, LiveFds, AllUnused, AllShaped, PointsValid, SlotsValid, DirectiveValid;
      Teardown();
      if drmFd >= 0 {
        Close(drmFd);
        drmFd := -1;
      }
    }
  }


  predicate AllNew(fds: seq<int>, open: multiset<int>) {
    forall fd | fd in fds :: fd >= 0 ==> fd !in open
  }

  /** What a backend that succeeds fills in: a descriptor of its own for each plane and -1 beyond. */
  predicate Offered(l: Layout) {
    && Shaped(l)
    && (forall p | 0 <= p < MAX_PLANES :: l.fds[p] >= 0 <==> p < l.planes)
    && (forall p, q | 0 <= p < q < MAX_PLANES && l.fds[p] >= 0 :: l.fds[p] != l.fds[q])
  }

  lemma Union2(a: multiset<int>, b: multiset<int>, c: multiset<int>)
    ensures a + (b + c) == a + b + c
  {
  }

  lemma SlotTaken(slots: seq<Layout>, n: nat, l: Layout)
    requires n < |slots| && AllShaped(slots) && AllUnused(slots[n..]) && Shaped(l)
    ensures Unused(slots[n].fds) && AllShaped(slots[n := l]) && AllUnused(slots[n := l][n + 1..])
    ensures slots[n := l][..n] == slots[..n]
  {
    hide Unused, Shaped;
    assert Unused(slots[n..][0].fds);
    assert slots[n := l][n + 1..] == slots[n..][1..];
  }

  lemma FailureRises(wire: seq<Event>, g: nat, r: nat, e: Event)
    requires Rising(wire, g, r) && e.BindFailed?
    ensures Rising(wire + [e], g, r)
  {
    hide WellPacked;
  }

  lemma FrameRises(wire: seq<Event>, g: nat, r: nat, e: Event)
    requires r > 0 && Rising(wire, g, r - 1) && e.FrameReady? && e.point == r == e.frame
    ensures Rising(wire + [e], g, r)
  {
    hide WellPacked;
  }

  /** Whatever encoding or the socket reports. */
  const SEND_FAILED := -EPIPE

  /** Every slot has the same number of planes, between one and four. */
  predicate Uniform(slots: seq<Layout>) {
    slots != [] && 1 <= slots[0].planes <= MAX_PLANES && forall i | 0 <= i < |slots| ::
      slots[i].planes == slots[0].planes
  }

  lemma NoRows(slots: seq<Layout>, planes: nat)
    requires planes <= MAX_PLANES
    ensures Concat(StrideRows(slots[..0], planes)) == [] && Concat(OffsetRows(slots[..0], planes)) == []
    ensures Concat(SizeRows(slots[..0], planes)) == [] && Concat(FdRows(slots[..0], planes)) == []
    ensures Flat(0, 0, planes) == 0
  {
  }

  lemma RowsGrow(slots: seq<Layout>, s: nat, planes: nat)
    requires AllShaped(slots) && s < |slots| && planes <= MAX_PLANES
    ensures Concat(StrideRows(slots[..s + 1], planes)) ==
              Concat(StrideRows(slots[..s], planes)) + slots[s].strides[..planes]
    ensures Concat(OffsetRows(slots[..s + 1], planes)) ==
              Concat(OffsetRows(slots[..s], planes)) + slots[s].offsets[..planes]
    ensures Concat(SizeRows(slots[..s + 1], planes)) == Concat(SizeRows(slots[..s], planes)) + slots[s].sizes[..planes]
    ensures Concat(FdRows(slots[..s + 1], planes)) == Concat(FdRows(slots[..s], planes)) + slots[s].fds[..planes]
  {
    hide Concat;
    var a, b := slots[..s + 1], slots[..s];
    assert StrideRows(a, planes) == StrideRows(b, planes) + [slots[s].strides[..planes]];
    assert OffsetRows(a, planes) == OffsetRows(b, planes) + [slots[s].offsets[..planes]];
    assert SizeRows(a, planes) == SizeRows(b, planes) + [slots[s].sizes[..planes]];
    assert FdRows(a, planes) == FdRows(b, planes) + [slots[s].fds[..planes]];
    ConcatSnoc(StrideRows(b, planes), slots[s].strides[..planes]);
    ConcatSnoc(OffsetRows(b, planes), slots[s].offsets[..planes]);
    ConcatSnoc(SizeRows(b, planes), slots[s].sizes[..planes]);
    ConcatSnoc(FdRows(b, planes), slots[s].fds[..planes]);
  }

  lemma RowsCarried(e: Event, slots: seq<Layout>)
    requires e.BindBuffers? && AllShaped(slots) && 1 <= e.planes <= MAX_PLANES && 1 <= |slots| <= MAX_SLOTS &&
      e.count == |slots|
    requires e.stride == Concat(StrideRows(slots, e.planes)) && e.offset == Concat(OffsetRows(slots, e.planes))
    requires e.size == Concat(SizeRows(slots, e.planes)) && e.fds == Concat(FdRows(slots, e.planes))
    ensures WellPacked(e) && Carries(e, slots)
  {
    hide Concat, AtFlat;
    assert |StrideRows(slots, e.planes)| == |OffsetRows(slots, e.planes)| == e.count;
    assert |SizeRows(slots, e.planes)| == |FdRows(slots, e.planes)| == e.count;
    ConcatLength(StrideRows(slots, e.planes), e.planes);
    ConcatLength(OffsetRows(slots, e.planes), e.planes);
    ConcatLength(SizeRows(slots, e.planes), e.planes);
    ConcatLength(FdRows(slots, e.planes), e.planes);
    forall s: nat, p: nat | s < e.count && p < e.planes ensures PlaneAt(e, slots[s], s, p) {
      ConcatAt(StrideRows(slots, e.planes), e.planes, s, p);
      ConcatAt(OffsetRows(slots, e.planes), e.planes, s, p);
      ConcatAt(SizeRows(slots, e.planes), e.planes, s, p);
      ConcatAt(FdRows(slots, e.planes), e.planes, s, p);
    }
  }

  lemma RisesFurther(wire: seq<Event>, g: nat, g': nat, r: nat, r': nat)
    requires Rising(wire, g, r) && g <= g' && r <= r'
    ensures Rising(wire, g', r')
  {
    hide WellPacked;
  }

  /** A generation larger than all before may be announced; the counter was raised for it. */
  lemma AnnouncementRises(wire: seq<Event>, g: nat, r: nat, e: Event)
    requires g > 0 && Rising(wire, g - 1, r) && e.BindBuffers? && e.generation == g && WellPacked(e)
    ensures Rising(wire + [e], g, r)
  {
    hide WellPacked;
  }

  lemma Union3(a: multiset<int>, b: multiset<int>, c: multiset<int>)
    ensures a + (b + c) == a + c + b
  {
  }
}
