/** Frame fan-out and release aggregation: `src/scheduler.rs`. */
module Scheduling {
  import opened Common

  type DisplayId = nat
  datatype FrameKey = FrameKey(generation: nat, index: nat, seqno: nat)

  datatype DisplayInfo = DisplayInfo(name: string, width: nat, height: nat, refreshMhz: nat, bound: bool)

  datatype ActiveBinding = ActiveBinding(rendererId: string, generation: nat, texWidth: nat, texHeight: nat)

  datatype ReleaseOutcome = StillInFlight | AllReleased | Stale | Unknown

  /** The scheduler's fields as one value. */
  datatype State = State(
    lastDisplayId: nat,
    displays: map<DisplayId, DisplayInfo>,
    active: Option<ActiveBinding>,
    pending: map<FrameKey, set<DisplayId>>)

  const INITIAL := State(0, map[], None, map[])

  // ---------------------------------------------------------------
  // What each operation does to the state

  function BindAll(displays: map<DisplayId, DisplayInfo>, bound: bool): map<DisplayId, DisplayInfo> {
    map id | id in displays :: displays[id].(bound := bound)
  }

  function Registered(s: State, name: string, width: nat, height: nat, refreshMhz: nat): State {
    var id := s.lastDisplayId + 1;
    s.(lastDisplayId := id,
       displays := s.displays[id := DisplayInfo(name, width, height, refreshMhz, s.active.Some?)])
  }

  /** Frames whose only remaining debtor is `id`. */
  function FreedBy(s: State, id: DisplayId): set<FrameKey> {
    set k | k in s.pending && s.pending[k] - {id} == {}
  }

  function Unregistered(s: State, id: DisplayId): State {
    s.(displays := s.displays - {id},
       pending := map k | k in s.pending && s.pending[k] - {id} != {} :: s.pending[k] - {id})
  }

  function Resized(s: State, id: DisplayId, width: nat, height: nat): State {
    if id in s.displays
    then s.(displays := s.displays[id := s.displays[id].(width := width, height := height)])
    else s
  }

  /** Pending frames a new binding retires: none when there was no binding or its generation is kept. */
  function RetiredBy(s: State, binding: ActiveBinding): set<FrameKey> {
    if s.active.Some? && s.active.value.generation != binding.generation
    then set k | k in s.pending && k.generation != binding.generation
    else {}
  }

  function Rebound(s: State, binding: ActiveBinding): State {
    s.(active := Some(binding), displays := BindAll(s.displays, true), pending := s.pending - RetiredBy(s, binding))
  }

  function Cleared(s: State): State {
    s.(active := None, displays := BindAll(s.displays, false), pending := map[])
  }

  /** Displays a frame of `generation` is fanned out to; empty when the frame is not begun. */
  function FanOut(s: State, generation: nat): set<DisplayId> {
    if s.active.Some? && s.active.value.generation == generation
    then set id | id in s.displays && s.displays[id].bound
    else {}
  }

  function Begun(s: State, key: FrameKey): State {
    var bound := FanOut(s, key.generation);
    if bound == {} then s else s.(pending := s.pending[key := bound])
  }

  function ReleaseResult(s: State, id: DisplayId, key: FrameKey): ReleaseOutcome {
    if s.active.None? || s.active.value.generation != key.generation then Stale
    else if key !in s.pending || id !in s.pending[key] then Unknown
    else if s.pending[key] == {id} then AllReleased
    else StillInFlight
  }

  function Released(s: State, id: DisplayId, key: FrameKey): State {
    match ReleaseResult(s, id, key)
    case AllReleased => s.(pending := s.pending - {key})
    case StillInFlight => s.(pending := s.pending[key := s.pending[key] - {id}])
    case _ => s
  }

  // ---------------------------------------------------------------
  // The scheduler object

  class Scheduler {
    var lastDisplayId: nat
    var lastConfigGeneration: nat
    var displays: map<DisplayId, DisplayInfo>
    var active: Option<ActiveBinding>
    var pending: map<FrameKey, set<DisplayId>>

    ghost function View(): State
      reads this
    {
      State(lastDisplayId, displays, active, pending)
    }

    constructor ()
      ensures View() == INITIAL && lastConfigGeneration == 0
    {
      lastDisplayId, lastConfigGeneration := 0, 0;
      displays, active, pending := map[], None, map[];
    }

    method RegisterDisplay(name: string, width: nat, height: nat, refreshMhz: nat) returns (id: DisplayId)
      modifies this`lastDisplayId, this`displays
      ensures View() == Registered(old(View()), name, width, height, refreshMhz)
      ensures id == old(lastDisplayId) + 1
      ensures displays == old(displays)[id := DisplayInfo(name, width, height, refreshMhz, active.Some?)]
    {
      lastDisplayId := lastDisplayId + 1;
      id := lastDisplayId;
      displays := displays[id := DisplayInfo(name, width, height, refreshMhz, active.Some?)];
    }

    /** Walks every pending frame once, dropping those left without debtors. */
    method UnregisterDisplay(id: DisplayId) returns (freed: seq<FrameKey>)
      modifies this`displays, this`pending
      ensures View() == Unregistered(old(View()), id)
      ensures Elements(freed) == FreedBy(old(View()), id) && NoDuplicates(freed)
    {
      displays := displays - {id};
      freed := [];
      var todo := pending.Keys;
      while todo != {}
        invariant displays == old(displays) - {id}
        invariant todo <= old(pending).Keys
        invariant forall k | k in todo :: k in pending && pending[k] == old(pending)[k]
        invariant forall k :: k in pending && k !in todo <==>
                                k in old(pending) && k !in todo && old(pending)[k] - {id} != {}
        invariant forall k | k in pending && k !in todo :: pending[k] == old(pending)[k] - {id}
        invariant forall k :: k in freed <==> k in old(pending) && k !in todo && old(pending)[k] - {id} == {}
        invariant NoDuplicates(freed)
        decreases todo
      {
        var k :| k in todo;
        todo := todo - {k};
        var owed := pending[k] - {id};
        if owed == {} {
          assert forall i | 0 <= i < |freed| :: freed[i] in freed;
          freed := freed + [k];
          pending := pending - {k};
        } else {
          pending := pending[k := owed];
        }
      }
      assert pending == Unregistered(old(View()), id).pending;
    }

    method UpdateDisplaySize(id: DisplayId, width: nat, height: nat)
      modifies this`displays
      ensures View() == Resized(old(View()), id, width, height)
      ensures displays.Keys == old(displays).Keys
      ensures forall x | x in displays :: x != id ==> displays[x] == old(displays)[x]
      ensures id in displays ==> displays[id] == old(displays)[id].(width := width, height := height)
    {
      if id in displays {
        displays := displays[id := displays[id].(width := width, height := height)];
      }
    }

    method SetActiveBinding(binding: ActiveBinding) returns (ids: seq<DisplayId>)
      modifies this`active, this`displays, this`pending
      ensures View() == Rebound(old(View()), binding)
      ensures StrictlyAscending(ids) && Elements(ids) == displays.Keys == old(displays).Keys
      ensures active == Some(binding)
      ensures forall id | id in displays :: displays[id] == old(displays)[id].(bound := true)
      ensures forall k :: k in pending <==>
        k in old(pending) && (old(active).Some? ==>
          k.generation == binding.generation || old(active).value.generation == binding.generation)
      ensures forall k | k in pending :: pending[k] == old(pending)[k]
    {
      if active.Some? && active.value.generation != binding.generation {
        pending := map k | k in pending && k.generation == binding.generation :: pending[k];
      }
      active := Some(binding);
      ids := Sorted(displays.Keys);
      displays := BindAll(displays, true);
    }

    method ClearActiveBinding() returns (ids: seq<DisplayId>)
      modifies this`active, this`displays, this`pending
      ensures View() == Cleared(old(View()))
      ensures StrictlyAscending(ids) && Elements(ids) == displays.Keys == old(displays).Keys
      ensures active.None? && pending == map[]
      ensures forall id | id in displays :: displays[id] == old(displays)[id].(bound := false)
    {
      active := None;
      pending := map[];
      ids := Sorted(displays.Keys);
      displays := BindAll(displays, false);
    }

    /** The identity projection of a display: full texture to full display, with a fresh generation. */
    method ProjectConfig(id: DisplayId) returns (config: Option<(nat, (nat, nat), (nat, nat))>)
      modifies this`lastConfigGeneration
      ensures active.None? || id !in displays ==> config.None? && lastConfigGeneration == old(lastConfigGeneration)
      ensures active.Some? && id in displays ==>
        && lastConfigGeneration == old(lastConfigGeneration) + 1
        && config == Some((lastConfigGeneration,
                           (active.value.texWidth, active.value.texHeight),
                           (displays[id].width, displays[id].height)))
    {
      if active.None? || id !in displays {
        return None;
      }
      lastConfigGeneration := lastConfigGeneration + 1;
      return Some((lastConfigGeneration,
                   (active.value.texWidth, active.value.texHeight),
                   (displays[id].width, displays[id].height)));
    }

    method BeginFrame(generation: nat, index: nat, seqno: nat) returns (out: seq<DisplayId>)
      modifies this`pending
      ensures View() == Begun(old(View()), FrameKey(generation, index, seqno))
      ensures StrictlyAscending(out) && Elements(out) == FanOut(old(View()), generation)
      ensures forall id :: id in Elements(out) <==>
        active.Some? && active.value.generation == generation && id in displays && displays[id].bound
      ensures pending == if out == [] then old(pending)
        else old(pending)[FrameKey(generation, index, seqno) := Elements(out)]
    {
      if active.None? || active.value.generation != generation {
        return [];
      }
      var bound := set id | id in displays && displays[id].bound;
      if bound == {} {
        return [];
      }
      pending := pending[FrameKey(generation, index, seqno) := bound];
      out := Sorted(bound);
    }

    method ReleaseFrame(id: DisplayId, generation: nat, index: nat, seqno: nat) returns (outcome: ReleaseOutcome)
      modifies this`pending
      ensures outcome == ReleaseResult(old(View()), id, FrameKey(generation, index, seqno))
      ensures View() == Released(old(View()), id, FrameKey(generation, index, seqno))
    {
      var key := FrameKey(generation, index, seqno);
      if active.None? || active.value.generation != generation {
        return Stale;
      }
      if key !in pending || id !in pending[key] {
        return Unknown;
      }
      var owed := pending[key] - {id};
      if owed == {} {
        assert pending[key] == {id};
        pending := pending - {key};
        return AllReleased;
      }
      pending := pending[key := owed];
      return StillInFlight;
    }
  }

  // ---------------------------------------------------------------
  // Runs

  datatype Op =
    | Register(name: string, width: nat, height: nat, refreshMhz: nat)
    | Unregister(id: DisplayId)
    | Resize(id: DisplayId, width: nat, height: nat)
    | Bind(binding: ActiveBinding)
    | Clear
    | Begin(key: FrameKey)
    | Release(id: DisplayId, key: FrameKey)

  function Step(s: State, op: Op): State {
    match op
    case Register(name, w, h, r) => Registered(s, name, w, h, r)
    case Unregister(id) => Unregistered(s, id)
    case Resize(id, w, h) => Resized(s, id, w, h)
    case Bind(b) => Rebound(s, b)
    case Clear => Cleared(s)
    case Begin(key) => Begun(s, key)
    case Release(id, key) => Released(s, id, key)
  }

  function Run(ops: seq<Op>): State {
    if ops == [] then INITIAL else Step(Run(ops[..|ops| - 1]), ops[|ops| - 1])
  }

  /** How a begun frame ends. */
  datatype End = ByRelease | ByDeparture | ByRetirement

  /** The frames one operation reports as ended, with the way each ends: what the caller is told
      (`AllReleased`, the freed list) and the frames a rebind or clear retires. */
  function Ends(s: State, op: Op): map<FrameKey, End> {
    match op
    case Unregister(id) => map k | k in FreedBy(s, id) :: ByDeparture
    case Bind(b) => map k | k in RetiredBy(s, b) :: ByRetirement
    case Clear => map k | k in s.pending :: ByRetirement
    case Release(id, key) => if ReleaseResult(s, id, key).AllReleased? then map[key := ByRelease] else map[]
    case _ => map[]
  }

  /** All pending keys carry the active generation, owed sets are non-empty and hold only registered
      displays, and a display is bound exactly while a renderer is active. */
  ghost predicate Invariant(s: State) {
    && (forall k | k in s.pending :: s.active.Some? && k.generation == s.active.value.generation)
    && (forall k | k in s.pending :: s.pending[k] != {} && s.pending[k] <= s.displays.Keys)
    && (forall id | id in s.displays :: s.displays[id].bound == s.active.Some?)
    && (forall id | id in s.displays :: 0 < id <= s.lastDisplayId)
  }

  lemma StepKeepsInvariant(s: State, op: Op)
    requires Invariant(s)
    ensures Invariant(Step(s, op))
  {
    match op
    case Begin(key) =>
      assert FanOut(s, key.generation) <= s.displays.Keys;
    case _ =>
  }

  lemma {:induction false} ReachableInvariant(ops: seq<Op>)
    ensures Invariant(Run(ops))
    decreases |ops|
  {
    if ops != [] {
      ReachableInvariant(ops[..|ops| - 1]);
      StepKeepsInvariant(Run(ops[..|ops| - 1]), ops[|ops| - 1]);
    }
  }

  /** The id that the registration at position i hands out. */
  function IdGiven(ops: seq<Op>, i: nat): DisplayId
    requires i < |ops| && ops[i].Register?
  {
    Run(ops[..i]).lastDisplayId + 1
  }

  /** Display ids are never reused: a registration's id is above those of all earlier registrations, and above
      those of all displays there are. */
  lemma IdsAreNeverReused(ops: seq<Op>, i: nat, j: nat)
    requires i < j < |ops| && ops[i].Register? && ops[j].Register?
    ensures IdGiven(ops, i) < IdGiven(ops, j)
    ensures IdGiven(ops, j) in Run(ops[..j + 1]).displays && IdGiven(ops, j) !in Run(ops[..j]).displays
    ensures forall id | id in Run(ops[..j]).displays :: id < IdGiven(ops, j)
    ensures var op := ops[j];
      Run(ops[..j + 1]).displays[IdGiven(ops, j)] ==
        DisplayInfo(op.name, op.width, op.height, op.refreshMhz, Run(ops[..j]).active.Some?)
  {
    ReachableInvariant(ops[..j]);
    assert ops[..i + 1][..i] == ops[..i];
    IdsOnlyRise(ops, i + 1, j);
    assert ops[..j + 1][..j] == ops[..j];
  }

  lemma {:induction false} IdsOnlyRise(ops: seq<Op>, i: nat, j: nat)
    requires i <= j <= |ops|
    ensures Run(ops[..i]).lastDisplayId <= Run(ops[..j]).lastDisplayId
    decreases j
  {
    if i < j {
      IdsOnlyRise(ops, i, j - 1);
      assert ops[..j][..j - 1] == ops[..j - 1];
    }
  }

  // ---------------------------------------------------------------
  // An independent account of frames: no owed sets, only who was served and who has since released or left

  datatype Status = Live | Over(how: End)
  datatype Frame = Frame(fanout: set<DisplayId>, gone: set<DisplayId>, status: Status)

  /** Displays come and go, one generation is current, and each frame remembers its fan-out. */
  datatype Ledger = Ledger(lastId: nat, present: set<DisplayId>, generation: Option<nat>, frames: map<FrameKey, Frame>)

  const BLANK := Ledger(0, {}, None, map[])

  /** `id` has released or left a live frame; the frame is over once nobody in its fan-out remains. */
  function Gone(f: Frame, id: DisplayId, how: End): Frame {
    if f.status != Live || id !in f.fanout then f
    else
      var gone := f.gone + {id};
      f.(gone := gone, status := if f.fanout <= gone && id !in f.gone then Over(how) else Live)
  }

  function Retire(f: Frame): Frame {
    if f.status == Live then f.(status := Over(ByRetirement)) else f
  }

  function Account(l: Ledger, op: Op): Ledger {
    match op
    case Register(_, _, _, _) => l.(lastId := l.lastId + 1, present := l.present + {l.lastId + 1})
    case Unregister(id) =>
      l.(present := l.present - {id}, frames := map k | k in l.frames :: Gone(l.frames[k], id, ByDeparture))
    case Resize(_, _, _) => l
    case Bind(b) =>
      l.(generation := Some(b.generation),
         frames := map k | k in l.frames ::
           if k.generation == b.generation then l.frames[k] else Retire(l.frames[k]))
    case Clear => l.(generation := None, frames := map k | k in l.frames :: Retire(l.frames[k]))
    case Begin(key) =>
      if l.generation == Some(key.generation) && l.present != {}
      then l.(frames := l.frames[key := Frame(l.present, {}, Live)])
      else l
    case Release(id, key) =>
      if key in l.frames then l.(frames := l.frames[key := Gone(l.frames[key], id, ByRelease)]) else l
  }

  function Accounts(ops: seq<Op>): Ledger {
    if ops == [] then BLANK else Account(Accounts(ops[..|ops| - 1]), ops[|ops| - 1])
  }

  /** The scheduler's state agrees with the account: the pending map holds exactly the live frames, each
      owed by its fan-out minus those gone; frames that ended by release or departure are those whose whole
      fan-out is gone, and frames that were retired are not. */
  ghost predicate Agrees(s: State, l: Ledger) {
    && SameView(s, l)
    && (forall k :: k in s.pending <==> k in l.frames && l.frames[k].status == Live)
    && (forall k | k in s.pending :: s.pending[k] == l.frames[k].fanout - l.frames[k].gone)
    && (forall k | k in l.frames :: Sound(l.frames[k]))
  }

  ghost predicate Sound(f: Frame) {
    && f.fanout != {}
    && f.gone <= f.fanout
    && (f.status == Over(ByRelease) || f.status == Over(ByDeparture) <==> f.gone == f.fanout)
  }

  /** The operation opens an account for its key. */
  predicate Opens(s: State, op: Op) {
    op.Begin? && FanOut(s, op.key.generation) != {}
  }

  predicate OpensAt(ops: seq<Op>, i: nat)
    requires i < |ops|
  {
    Opens(Run(ops[..i]), ops[i])
  }

  /** The run opens no key twice. */
  ghost predicate NoKeyReuse(ops: seq<Op>) {
    forall i, j | 0 <= i < j < |ops| && OpensAt(ops, i) && OpensAt(ops, j) :: ops[i].key != ops[j].key
  }

  lemma PrefixOpens(ops: seq<Op>, n: nat)
    requires n <= |ops|
    ensures forall i | 0 <= i < n :: OpensAt(ops[..n], i) == OpensAt(ops, i)
    ensures NoKeyReuse(ops) ==> NoKeyReuse(ops[..n])
  {
    forall i | 0 <= i < n ensures OpensAt(ops[..n], i) == OpensAt(ops, i) { assert ops[..n][..i] == ops[..i]; }
    hide OpensAt;
  }

  ghost predicate SameView(s: State, l: Ledger) {
    && l.present == s.displays.Keys && l.lastId == s.lastDisplayId
    && l.generation == (if s.active.Some? then Some(s.active.value.generation) else None)
  }

  lemma StepKeepsView(s: State, l: Ledger, op: Op)
    requires SameView(s, l)
    ensures SameView(Step(s, op), Account(l, op))
  {
  }

  /** Who is there and which generation is active, scheduler and account always agree on. */
  lemma {:induction false} ViewAgrees(ops: seq<Op>)
    ensures SameView(Run(ops), Accounts(ops))
    decreases |ops|
  {
    hide Step, Account;
    if ops != [] {
      ViewAgrees(ops[..|ops| - 1]);
      StepKeepsView(Run(ops[..|ops| - 1]), Accounts(ops[..|ops| - 1]), ops[|ops| - 1]);
    }
  }

  lemma GoneIsSound(f: Frame, id: DisplayId, how: End)
    requires Sound(f) && how != ByRetirement
    ensures Sound(Gone(f, id, how))
    ensures Gone(f, id, how).fanout == f.fanout
    ensures f.status == Live ==> (Gone(f, id, how).status != Live <==> f.fanout - f.gone == {id})
  {
    var f' := Gone(f, id, how);
    if f.status == Live && id in f.fanout && f'.gone == f.fanout {
      assert id !in f.gone;
    }
  }

  lemma UnregisterAgrees(s: State, l: Ledger, id: DisplayId)
    requires Invariant(s) && Agrees(s, l)
    ensures Agrees(Step(s, Unregister(id)), Account(l, Unregister(id)))
  {
    forall k | k in l.frames { GoneIsSound(l.frames[k], id, ByDeparture); }
    hide Sound;
  }

  lemma ReleaseAgrees(s: State, l: Ledger, id: DisplayId, key: FrameKey)
    requires Invariant(s) && Agrees(s, l)
    ensures Agrees(Step(s, Release(id, key)), Account(l, Release(id, key)))
  {
    if key in l.frames { GoneIsSound(l.frames[key], id, ByRelease); }
    hide Sound;
  }

  lemma BeginAgrees(s: State, l: Ledger, key: FrameKey)
    requires Invariant(s) && Agrees(s, l) && (Opens(s, Begin(key)) ==> key !in l.frames)
    ensures Agrees(Step(s, Begin(key)), Account(l, Begin(key)))
  {
    assert FanOut(s, key.generation) == if l.generation == Some(key.generation) then l.present else {};
  }

  lemma AccountAgrees(s: State, l: Ledger, op: Op)
    requires Invariant(s) && Agrees(s, l)
    requires Opens(s, op) ==> op.key !in l.frames
    ensures Agrees(Step(s, op), Account(l, op))
  {
    match op
    case Unregister(id) => UnregisterAgrees(s, l, id);
    case Release(id, key) => ReleaseAgrees(s, l, id, key);
    case Begin(key) => BeginAgrees(s, l, key);
    case Bind(_) =>
    case Clear =>
    case Register(_, _, _, _) =>
    case Resize(_, _, _) =>
  }

  lemma {:induction false} FramesWereOpened(ops: seq<Op>, key: FrameKey)
    requires key in Accounts(ops).frames
    ensures exists i :: 0 <= i < |ops| && OpensAt(ops, i) && ops[i].key == key
    decreases |ops|
  {
    hide Run, Account, FanOut, Invariant, SameView;
    var n := |ops| - 1;
    var init := ops[..n];
    PrefixOpens(ops, n);
    if key in Accounts(init).frames {
      FramesWereOpened(init, key);
      var i :| 0 <= i < |init| && OpensAt(init, i) && init[i].key == key;
      assert OpensAt(ops, i) && ops[i].key == key;
    } else {
      ViewAgrees(init);
      ReachableInvariant(init);
      NewFrame(Accounts(init), ops[n], key);
      OpensInBoth(Run(init), Accounts(init), key);
      assert OpensAt(ops, n);
    }
  }

  lemma NewFrame(l: Ledger, op: Op, key: FrameKey)
    requires key in Account(l, op).frames && key !in l.frames
    ensures op == Begin(key) && l.generation == Some(key.generation) && l.present != {}
  {
  }

  lemma OpensInBoth(s: State, l: Ledger, key: FrameKey)
    requires Invariant(s) && SameView(s, l)
    ensures Opens(s, Begin(key)) <==> l.generation == Some(key.generation) && l.present != {}
  {
    assert FanOut(s, key.generation) == if l.generation == Some(key.generation) then l.present else {};
  }

  /** A key that is opened now has no frame yet. */
  lemma OpenedIsNew(ops: seq<Op>)
    requires NoKeyReuse(ops) && ops != []
    ensures var init, op := ops[..|ops| - 1], ops[|ops| - 1];
      NoKeyReuse(init) && (Opens(Run(init), op) ==> op.key !in Accounts(init).frames)
  {
    var n := |ops| - 1;
    PrefixOpens(ops, n);
    if Opens(Run(ops[..n]), ops[n]) && ops[n].key in Accounts(ops[..n]).frames {
      FramesWereOpened(ops[..n], ops[n].key);
      assert OpensAt(ops, n);
      assert false;
    }
  }

  /** Over every run without key reuse the scheduler and the independent account agree. */
  lemma {:induction false} RunAgrees(ops: seq<Op>)
    requires NoKeyReuse(ops)
    ensures Agrees(Run(ops), Accounts(ops))
    decreases |ops|
  {
    if ops != [] {
      var init, op := ops[..|ops| - 1], ops[|ops| - 1];
      OpenedIsNew(ops);
      RunAgrees(init);
      ReachableInvariant(init);
      AccountAgrees(Run(init), Accounts(init), op);
    }
  }

  /** What a release is told, by the account: stale exactly when no renderer is active or another generation is;
      unknown exactly when the frame is not live or the display does not owe it; else whether others still do. */
  lemma ReleaseIsTold(ops: seq<Op>, id: DisplayId, key: FrameKey)
    requires NoKeyReuse(ops)
    ensures var l := Accounts(ops); var r := ReleaseResult(Run(ops), id, key);
      var owes := key in l.frames && l.frames[key].status == Live && id in l.frames[key].fanout - l.frames[key].gone;
      && (r == Stale <==> l.generation != Some(key.generation))
      && (r == Unknown <==> l.generation == Some(key.generation) && !owes)
      && (r == AllReleased <==>
            l.generation == Some(key.generation) && owes && l.frames[key].fanout == l.frames[key].gone + {id})
      && (r == StillInFlight <==>
            l.generation == Some(key.generation) && owes && l.frames[key].fanout != l.frames[key].gone + {id})
  {
    RunAgrees(ops);
  }

  // ---------------------------------------------------------------
  // Every begun frame ends exactly once

  /** How often the run has reported `key` as ended, and in which way last. */
  function Reports(ops: seq<Op>, key: FrameKey): nat {
    if ops == [] then 0
    else
      var init := ops[..|ops| - 1];
      Reports(init, key) + if key in Ends(Run(init), ops[|ops| - 1]) then 1 else 0
  }

  function LastReport(ops: seq<Op>, key: FrameKey): Option<End> {
    if ops == [] then None
    else
      var init := ops[..|ops| - 1];
      var ends := Ends(Run(init), ops[|ops| - 1]);
      if key in ends then Some(ends[key]) else LastReport(init, key)
  }

  /** What one operation reports is exactly what the account closes in that operation. */
  lemma EndsMatchAccount(s: State, l: Ledger, op: Op, key: FrameKey)
    requires Invariant(s) && Agrees(s, l)
    requires Opens(s, op) ==> op.key !in l.frames
    ensures key in Ends(s, op) <==>
            key in l.frames && l.frames[key].status == Live && Account(l, op).frames[key].status != Live
    ensures key in Ends(s, op) ==> Account(l, op).frames[key].status == Over(Ends(s, op)[key])
    ensures key in l.frames && l.frames[key].status != Live ==>
      Account(l, op).frames[key].status == l.frames[key].status
  {
    match op
    case Unregister(id) =>
      if key in l.frames { GoneIsSound(l.frames[key], id, ByDeparture); }
    case Release(id, k) =>
      if k in l.frames { GoneIsSound(l.frames[k], id, ByRelease); }
    case _ =>
  }

  /** What the reports of a run say about one frame of the account. */
  ghost predicate ReportedOnce(ops: seq<Op>, key: FrameKey, frames: map<FrameKey, Frame>) {
    if key !in frames || frames[key].status == Live then Reports(ops, key) == 0
    else Reports(ops, key) == 1 && LastReport(ops, key) == Some(frames[key].status.how)
  }

  /** Each begun frame is reported ended exactly once after it stops being pending and never before, and the
      report names the way the independent account says it ended. */
  lemma {:induction false} EachFrameEndsOnce(ops: seq<Op>, key: FrameKey)
    requires NoKeyReuse(ops)
    ensures ReportedOnce(ops, key, Accounts(ops).frames)
    ensures key in Run(ops).pending <==> key in Accounts(ops).frames && Accounts(ops).frames[key].status == Live
    decreases |ops|
  {
    RunAgrees(ops);
    if ops != [] {
      var init, op := ops[..|ops| - 1], ops[|ops| - 1];
      OpenedIsNew(ops);
      EachFrameEndsOnce(init, key);
      RunAgrees(init);
      ReachableInvariant(init);
      OneMoreReport(ops, key);
    }
  }

  lemma OneMoreReport(ops: seq<Op>, key: FrameKey)
    requires ops != []
    requires var init := ops[..|ops| - 1];
      && ReportedOnce(init, key, Accounts(init).frames)
      && Invariant(Run(init)) && Agrees(Run(init), Accounts(init))
      && (Opens(Run(init), ops[|ops| - 1]) ==> ops[|ops| - 1].key !in Accounts(init).frames)
    ensures ReportedOnce(ops, key, Accounts(ops).frames)
  {
    var init, op := ops[..|ops| - 1], ops[|ops| - 1];
    var s, l := Run(init), Accounts(init);
    var ends := Ends(s, op);
    assert Accounts(ops) == Account(l, op);
    assert Reports(ops, key) == Reports(init, key) + if key in ends then 1 else 0;
    EndsMatchAccount(s, l, op, key);
    FramesOnlyGrowByBegin(l, op, key);
  }

  lemma FramesOnlyGrowByBegin(l: Ledger, op: Op, key: FrameKey)
    ensures key in l.frames ==> key in Account(l, op).frames
    ensures key !in l.frames && key in Account(l, op).frames ==> Account(l, op).frames[key].status == Live
  {
  }

  /** The caller hears `AllReleased`, or finds the key in a freed list, exactly when every display the frame
      went to has released it or left while the frame was current. */
  lemma CompletedIffEveryoneIsGone(ops: seq<Op>, key: FrameKey)
    requires NoKeyReuse(ops) && key in Accounts(ops).frames
    ensures var f := Accounts(ops).frames[key];
      LastReport(ops, key) in {Some(ByRelease), Some(ByDeparture)} <==> f.fanout == f.gone
  {
    RunAgrees(ops);
    EachFrameEndsOnce(ops, key);
    if key in Run(ops).pending {
      NeverReported(ops, key);
    }
  }

  lemma {:induction false} NeverReported(ops: seq<Op>, key: FrameKey)
    requires Reports(ops, key) == 0
    ensures LastReport(ops, key) == None
    decreases |ops|
  {
    if ops != [] {
      NeverReported(ops[..|ops| - 1], key);
    }
  }

  // ---------------------------------------------------------------
  // Conservation without any assumption on keys

  /** It does so over a frame that is still pending under the same key. */
  predicate Overwrites(s: State, op: Op) {
    Opens(s, op) && op.key in s.pending
  }

  function Opened(ops: seq<Op>): nat {
    if ops == [] then 0
    else Opened(ops[..|ops| - 1]) + if Opens(Run(ops[..|ops| - 1]), ops[|ops| - 1]) then 1 else 0
  }

  function Overwritten(ops: seq<Op>): nat {
    if ops == [] then 0
    else Overwritten(ops[..|ops| - 1]) + if Overwrites(Run(ops[..|ops| - 1]), ops[|ops| - 1]) then 1 else 0
  }

  function Closed(ops: seq<Op>): nat {
    if ops == [] then 0
    else Closed(ops[..|ops| - 1]) + |Ends(Run(ops[..|ops| - 1]), ops[|ops| - 1])|
  }

  lemma StepConserves(s: State, op: Op)
    ensures |Step(s, op).pending| + |Ends(s, op)| + (if Overwrites(s, op) then 1 else 0)
         == |s.pending| + (if Opens(s, op) then 1 else 0)
  {
    if op.Begin? {
      BeginConserves(s, op.key);
    } else {
      EndedFramesLeave(s, op);
      hide Step, Ends;
      SplitCount(s.pending, Step(s, op).pending, Ends(s, op));
    }
  }

  lemma BeginConserves(s: State, key: FrameKey)
    ensures |Begun(s, key).pending| ==
              |s.pending| + if FanOut(s, key.generation) != {} && key !in s.pending then 1 else 0
  {
    hide FanOut;
    var pending := Begun(s, key).pending;
    if FanOut(s, key.generation) != {} && key !in s.pending {
      assert pending.Keys == s.pending.Keys + {key};
    } else {
      assert pending.Keys == s.pending.Keys;
    }
  }

  /** Outside of `Begin`, a pending frame either stays pending or is reported ended, never both. */
  lemma EndedFramesLeave(s: State, op: Op)
    requires !op.Begin?
    ensures forall k :: k in s.pending <==> k in Step(s, op).pending || k in Ends(s, op)
    ensures forall k :: !(k in Step(s, op).pending && k in Ends(s, op))
  {
  }

  lemma SplitCount<K, V, W>(whole: map<K, V>, kept: map<K, V>, dropped: map<K, W>)
    requires forall k :: k in whole <==> k in kept || k in dropped
    requires forall k :: !(k in kept && k in dropped)
    ensures |whole| == |kept| + |dropped|
  {
    assert whole.Keys == kept.Keys + dropped.Keys;
    assert kept.Keys !! dropped.Keys;
  }

  /** Frames begun are frames ended plus frames pending plus frames a reused key overwrote. */
  lemma {:induction false} Conservation(ops: seq<Op>)
    ensures Opened(ops) == Closed(ops) + |Run(ops).pending| + Overwritten(ops)
    decreases |ops|
  {
    if ops != [] {
      Conservation(ops[..|ops| - 1]);
      StepConserves(Run(ops[..|ops| - 1]), ops[|ops| - 1]);
    }
  }

  /** No frame is lost exactly when no frame is begun under a key that is still pending. */
  lemma NothingLostIffNoOverwrite(ops: seq<Op>)
    ensures Opened(ops) == Closed(ops) + |Run(ops).pending|
       <==> forall i | 0 <= i < |ops| :: !Overwrites(Run(ops[..i]), ops[i])
  {
    Conservation(ops);
    OverwrittenCounts(ops);
  }

  lemma {:induction false} OverwrittenCounts(ops: seq<Op>)
    ensures Overwritten(ops) == 0 <==> forall i | 0 <= i < |ops| :: !Overwrites(Run(ops[..i]), ops[i])
    decreases |ops|
  {
    hide Run, Overwrites;
    if ops != [] {
      var n := |ops| - 1;
      var init := ops[..n];
      OverwrittenCounts(init);
      assert forall i | 0 <= i < n :: init[..i] == ops[..i] && init[i] == ops[i];
      assert (forall i | 0 <= i < n :: !Overwrites(Run(init[..i]), init[i])) <==>
        (forall i | 0 <= i < n :: !Overwrites(Run(ops[..i]), ops[i]));
    }
  }

  /** A reused key does lose a frame: two frames begun under one key end once. */
  lemma KeyReuseLosesAFrame(ops: seq<Op>, key: FrameKey, id: DisplayId)
    requires FanOut(Run(ops), key.generation) == {id} && key !in Run(ops).pending
    ensures var reused := ops + [Begin(key)] + [Begin(key)] + [Release(id, key)];
      Opened(reused) == Opened(ops) + 2 && Closed(reused) == Closed(ops) + 1 && Run(reused).pending == Run(ops).pending
  {
    var s := Run(ops);
    var once := ops + [Begin(key)];
    var twice := once + [Begin(key)];
    OneMore(ops, Begin(key));
    OneMore(once, Begin(key));
    OneMore(twice, Release(id, key));
    hide Run, Opened, Closed;
    assert Run(once).pending == s.pending[key := {id}];
    assert FanOut(Run(once), key.generation) == {id};
    assert Run(twice).pending == s.pending[key := {id}];
    assert Ends(Run(twice), Release(id, key)) == map[key := ByRelease];
    assert s.pending[key := {id}] - {key} == s.pending;
  }

  lemma OneMore(ops: seq<Op>, op: Op)
    ensures Run(ops + [op]) == Step(Run(ops), op)
    ensures Opened(ops + [op]) == Opened(ops) + if Opens(Run(ops), op) then 1 else 0
    ensures Closed(ops + [op]) == Closed(ops) + |Ends(Run(ops), op)|
  {
    hide Step, Opens, Ends;
    assert (ops + [op])[..|ops|] == ops;
  }

  lemma OneDisplayFansOut(b: ActiveBinding)
    ensures var ops := [] + [Register("d", 1, 1, 0)] + [Bind(b)];
      FanOut(Run(ops), b.generation) == {1} && Run(ops).pending == map[] && Opened(ops) == Closed(ops) == 0
  {
    OneMore([], Register("d", 1, 1, 0));
    OneMore([] + [Register("d", 1, 1, 0)], Bind(b));
  }

  /** The smallest such run: of two frames begun for one display one is never accounted for. */
  lemma TwoBegunOneEnded(b: ActiveBinding, key: FrameKey)
    requires key.generation == b.generation
    ensures var ops := [] + [Register("d", 1, 1, 0)] + [Bind(b)] + [Begin(key)] + [Begin(key)] + [Release(1, key)];
      Opened(ops) == 2 && Closed(ops) == 1 && Run(ops).pending == map[] && Overwritten(ops) == 1
  {
    var start := [] + [Register("d", 1, 1, 0)] + [Bind(b)];
    OneDisplayFansOut(b);
    KeyReuseLosesAFrame(start, key, 1);
    Conservation(start + [Begin(key)] + [Begin(key)] + [Release(1, key)]);
    hide *;
  }

  /** A rebind leaves every pending frame pending exactly when there is none or the generation stays. */
  lemma SameGenerationKeepsPending(ops: seq<Op>, b: ActiveBinding)
    ensures Run(ops + [Bind(b)]).pending == Run(ops).pending <==>
              Run(ops).pending == map[] || (Run(ops).active.Some? && Run(ops).active.value.generation == b.generation)
  {
    ReachableInvariant(ops);
    assert (ops + [Bind(b)])[..|ops|] == ops;
    var s := Run(ops);
    if s.pending != map[] && s.active.value.generation != b.generation {
      assert Rebound(s, b).pending == map[];
    }
  }
}
