/** The daemon's task table. Every method of the manager, and the handling of one finished task, is one atomic
    step. `src/tasks.rs`. */
module Tasks {
  import opened Common

  type TaskId = nat

  datatype TaskKind = Startup | Apply | Service | Generic

  datatype TaskState = Running | Completed | Failed(message: string) | Cancelled

  datatype TaskRecord = TaskRecord(kind: TaskKind, name: string, startedAt: int, state: TaskState)

  datatype TaskEvent = StartedEvent(id: TaskId) | FinishedEvent(id: TaskId, state: TaskState)

  /** How a task ended. The join of one that panicked or was aborted does not say which it was. */
  datatype Joined = Returned(id: TaskId) | Erred(id: TaskId, message: string) | Lost

  type Records = map<TaskId, TaskRecord>

  const TRIM_FINISHED_ABOVE := 512

  function RunningIds(recs: Records): set<TaskId> {
    set id | id in recs && recs[id].state == Running
  }

  function FinishedIds(recs: Records): set<TaskId> {
    set id | id in recs && recs[id].state != Running
  }

  // ---------------------------------------------------------------
  // One step, and many

  /** Between two moments: ids are only ever added at the top, a record keeps everything but its state, and its
      state changes only away from Running. */
  ghost predicate Evolves(was: Records, wasNext: nat, now: Records, nowNext: nat) {
    && wasNext <= nowNext
    && (forall id | id in now :: id < nowNext)
    && forall id | id in now && id < wasNext ::
         && id in was
         && now[id].(state := Running) == was[id].(state := Running)
         && (now[id].state == was[id].state || was[id].state == Running)
  }

  lemma EvolvesTwice(a: Records, aNext: nat, b: Records, bNext: nat, c: Records, cNext: nat)
    requires Evolves(a, aNext, b, bNext) && Evolves(b, bNext, c, cNext)
    ensures Evolves(a, aNext, c, cNext)
  {
  }

  /** Over a whole run a task leaves Running at most once: a finished state, seen at one moment, is the state at
      every later moment at which its task is still tracked. In particular Cancelled is never overwritten. */
  lemma {:induction false} FinishedForGood(run: seq<(Records, nat)>, i: nat, j: nat, id: TaskId)
    requires forall k | 0 <= k < |run| - 1 :: Evolves(run[k].0, run[k].1, run[k + 1].0, run[k + 1].1)
    requires i <= j < |run| && id in run[i].0 && id in run[j].0
    requires forall x | x in run[0].0 :: x < run[0].1
    ensures run[i].0[id].state != Running ==> run[j].0[id].state == run[i].0[id].state
    ensures forall k | i <= k <= j :: id in run[k].0
    decreases j - i
  {
    assert id < run[i].1 by {
      if i > 0 { assert Evolves(run[i - 1].0, run[i - 1].1, run[i - 1 + 1].0, run[i - 1 + 1].1); }
    }
    if i < j {
      StaysTracked(run, i + 1, j, id);
      assert Evolves(run[i].0, run[i].1, run[i + 1].0, run[i + 1].1);
      FinishedForGood(run, i + 1, j, id);
    }
  }

  /** An id that is still tracked later, and was given out before, has been tracked all along. */
  lemma {:induction false} StaysTracked(run: seq<(Records, nat)>, i: nat, j: nat, id: TaskId)
    requires forall k | 0 <= k < |run| - 1 :: Evolves(run[k].0, run[k].1, run[k + 1].0, run[k + 1].1)
    requires 0 < i <= j < |run| && id in run[j].0 && id < run[i - 1].1
    ensures id in run[i].0
    decreases j - i
  {
    assert Evolves(run[i - 1].0, run[i - 1].1, run[i - 1 + 1].0, run[i - 1 + 1].1);
    if i < j { StaysTracked(run, i + 1, j, id); }
  }

  // ---------------------------------------------------------------
  // Tasks whose join was lost

  /** What matters of the table for tasks whose join was lost: the records, who has a token, who is lost. */
  datatype Moment = Moment(recs: Records, tokens: set<TaskId>, lost: set<TaskId>)

  /** One step during which `asked` were cancelled: a lost task keeps its token or its lack of one, and its record
      leaves Running only if it is asked to and has a token. */
  ghost predicate LostStep(was: Moment, asked: set<TaskId>, now: Moment) {
    && was.lost <= now.lost
    && forall id | id in was.lost ::
         && (id in now.tokens <==> id in was.tokens)
         && (RunsIn(now, id) <==> RunsIn(was, id) && !(id in asked && id in was.tokens))
  }

  predicate RunsIn(m: Moment, id: TaskId) {
    id in m.recs && m.recs[id].state == Running
  }

  ghost predicate LostRun(run: seq<Moment>, asked: seq<set<TaskId>>) {
    |asked| == |run| && forall k | 0 < k < |run| :: LostStep(run[k - 1], asked[k], run[k])
  }

  /** Whether a step after moment i and up to moment j cancels a task. */
  ghost predicate Asked(asked: seq<set<TaskId>>, id: TaskId, i: nat, j: nat) {
    exists k :: i < k <= j && k < |asked| && id in asked[k]
  }

  /** After its join was lost a record is still Running, and so out of reach of trimming, exactly when the task
      has no token or nobody has cancelled it since. */
  lemma {:induction false} LostRunsOnIff(run: seq<Moment>, asked: seq<set<TaskId>>, i: nat, j: nat, id: TaskId)
    requires LostRun(run, asked) && i <= j < |run| && id in run[i].lost && RunsIn(run[i], id)
    ensures id in run[j].lost && (id in run[j].tokens <==> id in run[i].tokens)
    ensures RunsIn(run[j], id) <==> !(id in run[i].tokens && Asked(asked, id, i, j))
    decreases j
  {
    if i < j {
      LostRunsOnIff(run, asked, i, j - 1, id);
      assert LostStep(run[j - 1], asked[j], run[j]);
      assert Asked(asked, id, i, j) <==> Asked(asked, id, i, j - 1) || id in asked[j];
    }
  }

  // ---------------------------------------------------------------
  // What becomes of a task

  /** What happens to tasks, in the order in which it happens. */
  datatype Deed =
    | Submitted(id: TaskId, accepted: bool)  // refused without a supervisor
    | Stopped(id: TaskId)                    // cancelled while it had a token
    | Ended(joined: Joined)

  /** Such a deed is the end of a task, unless it had one before. */
  predicate Ends(d: Deed, id: TaskId) {
    d == Submitted(id, false) || d == Stopped(id) || (d.Ended? && !d.joined.Lost? && d.joined.id == id)
  }

  /** What a task has come to: the first of its ends decides. */
  function Fate(deeds: seq<Deed>, id: TaskId): TaskState {
    if deeds == [] then Running
    else
      var n := |deeds| - 1;
      if Fate(deeds[..n], id) != Running then Fate(deeds[..n], id)
      else if !Ends(deeds[n], id) then Running
      else
        match deeds[n]
        case Submitted(_, _) => Failed("supervisor gone")
        case Stopped(_) => Cancelled
        case Ended(j) => Outcome(j)
  }

  /** A task is Running as long as it has no end. Its first end is that it returned and is Completed, or that it
      erred or was refused and Failed with the message, or that it was cancelled. */
  lemma {:induction false} FirstEndDecides(deeds: seq<Deed>, id: TaskId)
    ensures Fate(deeds, id) == Running <==> forall k | 0 <= k < |deeds| :: !Ends(deeds[k], id)
    ensures forall k | 0 <= k < |deeds| && forall j | 0 <= j < k :: !Ends(deeds[j], id) ::
      && (deeds[k] == Ended(Returned(id)) ==> Fate(deeds, id) == Completed)
      && (forall m :: deeds[k] == Ended(Erred(id, m)) ==> Fate(deeds, id) == Failed(m))
      && (deeds[k] == Submitted(id, false) ==> Fate(deeds, id) == Failed("supervisor gone"))
      && (deeds[k] == Stopped(id) ==> Fate(deeds, id) == Cancelled)
    decreases |deeds|
  {
    if deeds != [] {
      var init := deeds[..|deeds| - 1];
      FirstEndDecides(init, id);
      assert forall k | 0 <= k < |init| :: init[k] == deeds[k];
    }
  }

  lemma OneMoreDeed(deeds: seq<Deed>, d: Deed)
    ensures forall id ::
      Fate(deeds + [d], id) == if Fate(deeds, id) != Running || !Ends(d, id) then Fate(deeds, id) else Fate([d], id)
  {
    assert (deeds + [d])[..|deeds|] == deeds && [d][..0] == [];
  }

  /** Every record says what has become of its task; nothing has happened to ids not given out. */
  ghost predicate FatesHold(deeds: seq<Deed>, recs: Records, next: nat) {
    && (forall id | id in recs :: recs[id].state == Fate(deeds, id))
    && (forall id | id >= next :: Fate(deeds, id) == Running)
  }

  lemma FatesAfterEntering(deeds: seq<Deed>, was: Records, id: TaskId, r: TaskRecord, now: Records, accepted: bool)
    requires FatesHold(deeds, was, id) && Entered(was, id, r, now)
    requires r.state == if accepted then Running else Failed("supervisor gone")
    ensures FatesHold(deeds + [Submitted(id, accepted)], now, id + 1)
  {
    OneMoreDeed(deeds, Submitted(id, accepted));
  }

  lemma FatesAfterStop(deeds: seq<Deed>, recs: Records, next: nat, id: TaskId)
    requires FatesHold(deeds, recs, next) && id < next
    ensures FatesHold(deeds + [Stopped(id)], if id in recs && recs[id].state == Running
                                             then recs[id := recs[id].(state := Cancelled)] else recs, next)
  {
    OneMoreDeed(deeds, Stopped(id));
  }

  lemma FatesAfterJoin(deeds: seq<Deed>, recs: Records, next: nat, joined: Joined)
    requires FatesHold(deeds, recs, next)
    ensures joined.Lost? ==> FatesHold(deeds + [Ended(joined)], recs, next)
    ensures
      !joined.Lost? && joined.id < next && (joined.id in recs ==> recs[joined.id].state in {Running, Cancelled}) ==>
      FatesHold(deeds + [Ended(joined)],
                if joined.id in recs && recs[joined.id].state != Cancelled
                then recs[joined.id := recs[joined.id].(state := Outcome(joined))] else recs, next)
  {
    OneMoreDeed(deeds, Ended(joined));
  }

  // ---------------------------------------------------------------
  // Trimming

  lemma CountSplits(recs: Records)
    ensures |recs| == |RunningIds(recs)| + |FinishedIds(recs)| == |recs.Keys|
  {
    assert recs.Keys == RunningIds(recs) + FinishedIds(recs);
    assert RunningIds(recs) !! FinishedIds(recs);
  }

  /** Drops finished records, oldest first, down to the cap or until only running ones are left. */
  method TrimFinished(recs: Records) returns (kept: Records)
    ensures Trimmed(recs, kept)
  {
    if |recs| <= TRIM_FINISHED_ABOVE { return recs; }
    var finished := Sorted(set id | id in recs && recs[id].state != Running);
    var toDrop := |recs| - TRIM_FINISHED_ABOVE;
    var n := Min(toDrop, |finished|);
    kept := recs;
    assert recs - Elements(finished[..0]) == recs;
    for i := 0 to n
      invariant kept == recs - Elements(finished[..i])
    {
      ElementsSnoc(finished[..i], finished[i]);
      assert finished[..i + 1] == finished[..i] + [finished[i]];
      kept := kept - {finished[i]};
    }
    WithoutOldest(recs, finished, n);
  }

  /** Nothing but finished records goes, the oldest of them first, and no more than needed. */
  ghost predicate Trimmed(recs: Records, kept: Records) {
    && (forall id | id in kept :: id in recs && kept[id] == recs[id])
    && RunningIds(kept) == RunningIds(recs)
    && |kept| == (if |recs| <= 512 then |recs| else Max(512, |RunningIds(recs)|))
    && forall d, k | d in recs && d !in kept && k in FinishedIds(kept) :: d < k
  }

  lemma WithoutOldest(recs: Records, finished: seq<nat>, n: nat)
    requires StrictlyAscending(finished) && Elements(finished) == FinishedIds(recs)
    requires |recs| > TRIM_FINISHED_ABOVE && n == Min(|recs| - TRIM_FINISHED_ABOVE, |finished|)
    ensures Trimmed(recs, recs - Elements(finished[..n]))
  {
    var dropped := Elements(finished[..n]);
    var kept := recs - dropped;
    ListingCount(finished);
    ListingCount(finished[..n]);
    assert forall x | x in finished[..n] :: x in finished;
    WithoutSome(recs, dropped);
    hide RunningIds, FinishedIds;
    Partition(finished, n);
    forall d, k | d in recs && d !in kept && k in FinishedIds(kept) ensures d < k {
      assert d in dropped && k in Elements(finished);
    }
  }

  lemma WithoutSome(recs: Records, dropped: set<TaskId>)
    requires dropped <= FinishedIds(recs)
    ensures RunningIds(recs - dropped) == RunningIds(recs) && |recs - dropped| == |recs| - |dropped|
    ensures |recs| == |RunningIds(recs)| + |FinishedIds(recs)|
    ensures FinishedIds(recs - dropped) == FinishedIds(recs) - dropped
    ensures forall id | id in recs && id !in recs - dropped :: id in dropped
  {
    CountSplits(recs);
    assert (recs - dropped).Keys == recs.Keys - dropped;
  }

  lemma ListingCount(s: seq<nat>)
    requires StrictlyAscending(s)
    ensures |Elements(s)| == |s|
  {
    if s != [] {
      var init := s[..|s| - 1];
      ListingCount(init);
      assert s == init + [s[|s| - 1]];
      assert Elements(s) == Elements(init) + {s[|s| - 1]};
    }
  }

  lemma Partition(s: seq<nat>, n: nat)
    requires StrictlyAscending(s) && n <= |s|
    ensures forall x, y | x in s[..n] && y in s && y !in s[..n] :: x < y
  {
    assert forall k | 0 <= k < n :: s[k] == s[..n][k] && s[k] in s[..n];
    forall x, y | x in s[..n] && y in s && y !in s[..n] ensures x < y {
      var i :| 0 <= i < n && s[i] == x;
      var j :| 0 <= j < |s| && s[j] == y;
    }
  }

  // ---------------------------------------------------------------
  // The manager

  /** Of all submitted under one key only the one it leads to can be running, and that one can be cancelled. */
  ghost predicate KeysHold(next: nat, recs: Records, tokens: set<TaskId>, keys: map<string, TaskId>,
                           keyed: map<TaskId, string>) {
    && (forall id | id in keyed :: id < next)
    && (forall id | id in tokens :: id < next)
    && (forall id | id in keyed && id in recs && recs[id].state == Running ::
          id in tokens && keyed[id] in keys && keys[keyed[id]] == id)
  }

  lemma TokensSoFar(next: nat, recs: Records, tokens: set<TaskId>, keys: map<string, TaskId>,
                    keyed: map<TaskId, string>)
    requires KeysHold(next, recs, tokens, keys, keyed)
    ensures next !in tokens
  {
  }

  lemma OneMoreToken(was: set<TaskId>, id: TaskId, now: set<TaskId>, taken: bool)
    requires id !in was && now == (was - {id}) + if taken then {id} else {}
    ensures now == was + (if taken then {id} else {}) && was <= now <= was + {id} && now - {id} == was - {id}
  {
  }

  lemma EnteringKeepsKeys(was: Records, wasTokens: set<TaskId>, keys: map<string, TaskId>, keyed: map<TaskId, string>,
                          id: TaskId, r: TaskRecord, now: Records, tokens: set<TaskId>)
    requires KeysHold(id, was, wasTokens, keys, keyed) && Entered(was, id, r, now)
    requires wasTokens <= tokens <= wasTokens + {id}
    ensures KeysHold(id + 1, now, tokens, keys, keyed)
  {
  }

  /** Whatever runs was accepted, and is in flight or was lost; what was not joined can only have been cancelled. */
  ghost predicate TableHolds(next: nat, recs: Records, inFlight: set<TaskId>, lost: set<TaskId>) {
    && next > 0
    && (forall id | id in recs :: 0 < id < next)
    && (forall id | id in inFlight :: id < next && id !in lost)
    && (forall id | id in lost :: id < next)
    && (forall id | id in recs && recs[id].state == Running :: id in inFlight || id in lost)
    && (forall id | id in recs && (id in inFlight || id in lost) :: recs[id].state in {Running, Cancelled})
  }

  lemma NextIsNew(next: nat, recs: Records, inFlight: set<TaskId>, lost: set<TaskId>)
    requires TableHolds(next, recs, inFlight, lost)
    ensures next !in lost && next !in inFlight && next !in recs && forall id | id in recs :: id < next
  {
  }

  lemma TableAfterEntering(was: Records, id: TaskId, r: TaskRecord, now: Records, inFlight: set<TaskId>,
                           lost: set<TaskId>, accepted: bool)
    requires TableHolds(id, was, inFlight, lost) && Entered(was, id, r, now)
    requires r.state == if accepted then Running else Failed("supervisor gone")
    ensures TableHolds(id + 1, now, inFlight + (if accepted then {id} else {}), lost)
  {
  }

  lemma TableAfterEnd(next: nat, recs: Records, inFlight: set<TaskId>, lost: set<TaskId>, id: TaskId, end: TaskState)
    requires TableHolds(next, recs, inFlight, lost) && end != Running
    ensures end == Cancelled && id < next ==>
      TableHolds(next, if id in recs && recs[id].state == Running
                       then recs[id := recs[id].(state := Cancelled)] else recs, inFlight, lost)
    ensures id in inFlight ==>
      && id < next && id !in lost && (id in recs ==> recs[id].state in {Running, Cancelled})
      && TableHolds(next, recs, inFlight - {id}, lost + {id})
      && TableHolds(next, if id in recs && recs[id].state != Cancelled
                          then recs[id := recs[id].(state := end)] else recs, inFlight - {id}, lost)
  {
  }

  class TaskManager {
    var nextId: nat
    var records: Records
    var events: seq<TaskEvent>
    var cancelTokens: map<TaskId, bool>  // whether cancellation was requested
    var uniqueKeys: map<string, TaskId>
    var supervisorAlive: bool
    ghost var inFlight: set<TaskId>       // accepted by the supervisor, not yet joined
    ghost var lost: set<TaskId>           // joined without saying which
    ghost var deeds: seq<Deed>            // everything that happened so far
    ghost var keyed: map<TaskId, string>  // the key of every task submitted under one

    ghost predicate TableValid()
      reads this`nextId, this`records, this`inFlight, this`lost, this`deeds
    {
      TableHolds(nextId, records, inFlight, lost) && FatesHold(deeds, records, nextId)
    }

    ghost predicate KeysValid()
      reads this`nextId, this`records, this`cancelTokens, this`uniqueKeys, this`keyed
    {
      KeysHold(nextId, records, cancelTokens.Keys, uniqueKeys, keyed)
    }

    ghost predicate Valid()
      reads this
    {
      TableValid() && KeysValid()
    }

    ghost function Now(): Moment
      reads this`records, this`cancelTokens, this`lost
    {
      Moment(records, cancelTokens.Keys, lost)
    }

    predicate IsRunning(id: TaskId)
      reads this`records
    {
      id in records && records[id].state == Running
    }

    constructor ()
      ensures Valid() && records == map[] && nextId == 1 && supervisorAlive
    {
      nextId, records, events, cancelTokens, uniqueKeys, supervisorAlive := 1, map[], [], map[], map[], true;
      inFlight, lost, keyed, deeds := {}, {}, map[], [];
    }

    /** A new record, after which the history is trimmed. */
    method RecordStarted(id: TaskId, kind: TaskKind, name: string, now: int)
      requires id !in records
      modifies this`records, this`events
      ensures Trimmed(old(records)[id := TaskRecord(kind, name, now, Running)], records)
      ensures events == old(events) + [StartedEvent(id)]
    {
      var recs := records[id := TaskRecord(kind, name, now, Running)];
      records := TrimFinished(recs);
      events := events + [StartedEvent(id)];
    }

    method Finalize(id: TaskId, state: TaskState)
      requires state != Running
      modifies this`records, this`events
      ensures records == if id in old(records) then old(records)[id := old(records)[id].(state := state)]
        else old(records)
      ensures events == old(events) + [FinishedEvent(id, state)]
    {
      if id in records { records := records[id := records[id].(state := state)]; }
      events := events + [FinishedEvent(id, state)];
    }

    /** Takes the next id, records a running task and hands it to the supervisor; when that is gone the
        record is failed at once. */
    method Submit(kind: TaskKind, name: string, now: int) returns (id: TaskId)
      requires TableValid()
      modifies this`nextId, this`records, this`events, this`inFlight, this`deeds
      ensures TableValid() && id == old(nextId) && nextId == id + 1
      ensures deeds == old(deeds) + [Submitted(id, supervisorAlive)]
      ensures inFlight == old(inFlight) + if supervisorAlive then {id} else {}
      ensures events == old(events) + [StartedEvent(id)] + if supervisorAlive then []
        else [FinishedEvent(id, Failed("supervisor gone"))]
      ensures Entered(old(records), id, NewRecord(kind, name, now, supervisorAlive), records)
    {
      hide FatesHold, TableHolds, Trimmed, Entered;
      NextIsNew(nextId, records, inFlight, lost);
      ghost var flying := inFlight;
      id := nextId;
      nextId := nextId + 1;
      RecordStarted(id, kind, name, now);
      EntersTable(old(records), id, TaskRecord(kind, name, now, Running), records);
      if supervisorAlive {
        inFlight := inFlight + {id};
      } else {
        ghost var running := records;
        Finalize(id, Failed("supervisor gone"));
        FailsAtOnce(old(records), id, TaskRecord(kind, name, now, Running), running, "supervisor gone");
      }
      assert inFlight == flying + if supervisorAlive then {id} else {};
      TableAfterEntering(old(records), id, NewRecord(kind, name, now, supervisorAlive), records, flying, lost,
                         supervisorAlive);
      FatesAfterEntering(deeds, old(records), id, NewRecord(kind, name, now, supervisorAlive), records,
                         supervisorAlive);
      deeds := deeds + [Submitted(id, supervisorAlive)];
    }

    /** The token comes before the record, and goes again when the supervisor is gone. */
    method SubmitWithToken(kind: TaskKind, name: string, now: int) returns (id: TaskId)
      requires TableValid()
      modifies this`nextId, this`records, this`events, this`cancelTokens, this`inFlight, this`deeds
      ensures deeds == old(deeds) + [Submitted(id, supervisorAlive)]
      ensures events == old(events) + [StartedEvent(id)] + if supervisorAlive then []
        else [FinishedEvent(id, Failed("supervisor gone"))]
      ensures cancelTokens - {id} == old(cancelTokens) - {id}
      ensures TableValid() && id == old(nextId) && nextId == id + 1 && id !in lost
      ensures forall x | x in old(records) :: x < id
      ensures Entered(old(records), id, NewRecord(kind, name, now, supervisorAlive), records)
      ensures cancelTokens.Keys == (old(cancelTokens).Keys - {id}) + if supervisorAlive then {id} else {}
      ensures id !in inFlight <==> !supervisorAlive
    {
      hide Trimmed, Entered, FatesHold, TableHolds;
      NextIsNew(nextId, records, inFlight, lost);
      cancelTokens := cancelTokens[nextId := false];
      id := Submit(kind, name, now);
      if !supervisorAlive { cancelTokens := cancelTokens - {id}; }
    }

    method SpawnAsync(kind: TaskKind, name: string, now: int) returns (id: TaskId)
      requires Valid()
      modifies this`nextId, this`records, this`events, this`cancelTokens, this`inFlight, this`deeds
      ensures deeds == old(deeds) + [Submitted(id, supervisorAlive)]
      ensures events == old(events) + [StartedEvent(id)] + if supervisorAlive then []
        else [FinishedEvent(id, Failed("supervisor gone"))]
      ensures Valid() && id == old(nextId) && nextId == id + 1
      ensures Evolves(old(records), old(nextId), records, nextId)
      ensures Entered(old(records), id, NewRecord(kind, name, now, supervisorAlive), records)
      ensures LostStep(old(Now()), {}, Now())
      ensures cancelTokens.Keys == old(cancelTokens).Keys + if supervisorAlive then {id} else {}
      ensures supervisorAlive ==> id in inFlight
    {
      hide Trimmed, LostStep, Evolves, Entered, NewRecord;
      ghost var was := Now();
      TokensSoFar(nextId, records, cancelTokens.Keys, uniqueKeys, keyed);
      hide KeysHold, TableValid;
      id := SubmitWithToken(kind, name, now);
      ghost var r := NewRecord(kind, name, now, supervisorAlive);
      OneMoreToken(was.tokens, id, cancelTokens.Keys, supervisorAlive);
      EnteringKeepsKeys(was.recs, was.tokens, uniqueKeys, keyed, id, r, records, cancelTokens.Keys);
      EnteringEvolves(was.recs, id, r, records);
      EnteringSparesLost(was, id, r, Now());
    }

    /** Requests cancellation; a record that is still running is cancelled at once. */
    method Cancel(id: TaskId) returns (live: bool)
      requires Valid()
      modifies this`records, this`events, this`cancelTokens, this`deeds
      ensures Valid() && live == (id in old(cancelTokens))
      ensures cancelTokens == if live then old(cancelTokens)[id := true] else old(cancelTokens)
      ensures deeds == old(deeds) + if live then [Stopped(id)] else []
      ensures Evolves(old(records), nextId, records, nextId) && LostStep(old(Now()), {id}, Now())
      ensures records == if live && id in old(records) && old(records)[id].state == Running
                         then old(records)[id := old(records)[id].(state := Cancelled)] else old(records)
      ensures live ==> !IsRunning(id)
      ensures events == old(events) + if records != old(records) then [FinishedEvent(id, Cancelled)] else []
    {
      hide LostStep, FatesHold, TableHolds;
      ghost var was := Now();
      CancellingSparesLost(was, id);
      NextIsNew(nextId, records, inFlight, lost);
      TableAfterEnd(nextId, records, inFlight, lost, id, Cancelled);
      if id !in cancelTokens { return false; }
      FatesAfterStop(deeds, records, nextId, id);
      cancelTokens, deeds := cancelTokens[id := true], deeds + [Stopped(id)];
      if id in records && records[id].state == Running {
        records := records[id := records[id].(state := Cancelled)];
        events := events + [FinishedEvent(id, Cancelled)];
      }
      live := true;
      assert cancelTokens.Keys == was.tokens;
    }

    /** Cancels what a key leads to, after which nothing under the key is running. */
    method CancelKey(key: string)
      requires Valid()
      modifies this`records, this`events, this`cancelTokens, this`deeds
      ensures cancelTokens.Keys == old(cancelTokens).Keys
      ensures deeds == old(deeds) + if Led(uniqueKeys, key) <= cancelTokens.Keys && key in uniqueKeys
                                    then [Stopped(uniqueKeys[key])] else []
      ensures Valid() && Evolves(old(records), nextId, records, nextId)
      ensures LostStep(old(Now()), Led(uniqueKeys, key), Now())
      ensures forall x | x in keyed && keyed[x] == key :: !IsRunning(x)
      ensures forall x | x in old(records) && old(records)[x].state == Running && x !in Led(uniqueKeys, key) ::
        IsRunning(x)
    {
      if key in uniqueKeys {
        var cancelled := Cancel(uniqueKeys[key]);
      }
    }

    /** Submits a task under a key, after cancelling the one the key led to: of all tasks ever submitted under
        the key, at most the new one is running afterwards. */
    method SpawnAsyncUnique(kind: TaskKind, key: string, name: string, now: int) returns (id: TaskId)
      requires Valid()
      modifies this`nextId, this`records, this`events, this`cancelTokens, this`uniqueKeys, this`inFlight, this`keyed,
        this`deeds
      ensures uniqueKeys == old(uniqueKeys)[key := id]
      ensures deeds == old(deeds)
        + (if key in old(uniqueKeys) && old(uniqueKeys)[key] in old(cancelTokens) then [Stopped(old(uniqueKeys)[key])]
           else [])
        + [Submitted(id, supervisorAlive)]
      ensures Valid() && id == old(nextId) && id in records && key in uniqueKeys && uniqueKeys[key] == id
      ensures Evolves(old(records), old(nextId), records, nextId)
      ensures LostStep(old(Now()), Led(old(uniqueKeys), key), Now())
      ensures keyed == old(keyed)[id := key]
      ensures forall x | x in keyed && keyed[x] == key && x != id :: x in records ==> records[x].state != Running
      ensures forall x | x in old(records) && old(records)[x].state == Running ::
        (key in old(uniqueKeys) ==> old(uniqueKeys)[key] != x) ==> x in records && records[x].state == Running
    {
      hide Trimmed, Evolves, TableValid, LostStep;
      ghost var before, start, led := records, Now(), Led(uniqueKeys, key);
      CancelKey(key);
      ghost var middle, halfway := records, Now();
      id := SpawnAsync(kind, name, now);
      EvolvesTwice(before, old(nextId), middle, old(nextId), records, nextId);
      LostStepTwice(start, led, halfway, {}, Now());
      assert led + {} == led;
      TieKey(key, id);
    }

    /** From now on the key leads to this task. */
    method TieKey(key: string, id: TaskId)
      requires KeysValid() && id < nextId && (IsRunning(id) ==> id in cancelTokens)
      requires forall x | x in keyed && keyed[x] == key && x != id :: !IsRunning(x)
      modifies this`uniqueKeys, this`keyed
      ensures KeysValid() && uniqueKeys == old(uniqueKeys)[key := id] && keyed == old(keyed)[id := key]
    {
      uniqueKeys := uniqueKeys[key := id];
      keyed := keyed[id := key];
    }

    method SpawnBlocking(kind: TaskKind, name: string, now: int) returns (id: TaskId)
      requires Valid()
      modifies this`nextId, this`records, this`events, this`inFlight, this`deeds
      ensures deeds == old(deeds) + [Submitted(id, supervisorAlive)]
      ensures events == old(events) + [StartedEvent(id)] + if supervisorAlive then []
        else [FinishedEvent(id, Failed("supervisor gone"))]
      ensures Valid() && id == old(nextId) && Evolves(old(records), old(nextId), records, nextId)
      ensures LostStep(old(Now()), {}, Now()) && id !in cancelTokens && (supervisorAlive ==> id in inFlight)
      ensures Entered(old(records), id, NewRecord(kind, name, now, supervisorAlive), records)
    {
      hide Trimmed, LostStep, Evolves;
      ghost var was := Now();
      id := Submit(kind, name, now);
      EnteringEvolves(was.recs, id, records[id], records);
      EnteringSparesLost(was, id, records[id], Now());
    }

    /** A task in flight has ended. A cancelled record stays cancelled; token and key are collected either way.
        A lost join changes nothing: the record stays, and so do the token and the key of the task, if any. */
    method HandleJoin(joined: Joined, ghost who: TaskId)
      requires Valid() && who in inFlight && (!joined.Lost? ==> joined.id == who)
      modifies this`records, this`events, this`cancelTokens, this`uniqueKeys, this`inFlight, this`lost,
        this`deeds
      ensures deeds == old(deeds) + [Ended(joined)]
      ensures Valid() && Evolves(old(records), nextId, records, nextId) && LostStep(old(Now()), {}, Now())
      ensures joined.Lost? ==> records == old(records) && events == old(events)
      ensures joined.Lost? ==> cancelTokens == old(cancelTokens) && uniqueKeys == old(uniqueKeys)
      ensures inFlight == old(inFlight) - {who} && lost == old(lost) + if joined.Lost? then {who} else {}
      ensures !joined.Lost? ==>
        && cancelTokens == old(cancelTokens) - {who}
        && uniqueKeys == (map k | k in old(uniqueKeys) && old(uniqueKeys)[k] != who :: old(uniqueKeys)[k])
      ensures who !in old(records) ==> records == old(records)
      ensures who in old(records) && old(records)[who].state == Cancelled ==>
        records == old(records) && events == old(events)
      ensures who in old(records) && old(records)[who].state != Cancelled && !joined.Lost? ==>
        var end := if joined == Returned(who) then Completed else Failed(joined.message);
        && records == old(records)[who := old(records)[who].(state := end)]
        && events == old(events) + [FinishedEvent(who, end)]
    {
      hide FatesHold, TableHolds, KeysHold, LostStep;
      ghost var was, keys := Now(), uniqueKeys;
      NothingLostYet(was, who);
      NextIsNew(nextId, records, inFlight, lost);
      TableAfterEnd(nextId, records, inFlight, lost, who, if joined.Lost? then Cancelled else Outcome(joined));
      FatesAfterJoin(deeds, records, nextId, joined);
      if joined.Lost? {
        inFlight, lost, deeds := inFlight - {who}, lost + {who}, deeds + [Ended(joined)];
        return;
      }
      var id := joined.id;
      cancelTokens := cancelTokens - {id};
      uniqueKeys := map k | k in uniqueKeys && uniqueKeys[k] != id :: uniqueKeys[k];
      Settle(id, Outcome(joined), joined);
      KeysAfterEnd(nextId, was.recs, was.tokens, keys, keyed, who, records);
      JoiningSparesLost(was, who, Now());
      assert cancelTokens.Keys == was.tokens - {who};
    }

    /** The record of a joined task takes its final state, unless it was cancelled before. */
    method Settle(id: TaskId, observed: TaskState, ghost joined: Joined)
      requires TableValid() && id in inFlight && observed != Running
      requires FatesHold(deeds + [Ended(joined)], if id in records && records[id].state != Cancelled
                         then records[id := records[id].(state := observed)] else records, nextId)
      modifies this`records, this`events, this`inFlight, this`deeds
      ensures deeds == old(deeds) + [Ended(joined)]
      ensures TableValid() && inFlight == old(inFlight) - {id} && !IsRunning(id)
      ensures Evolves(old(records), nextId, records, nextId)
      ensures records == if id in old(records) && old(records)[id].state != Cancelled
                         then old(records)[id := old(records)[id].(state := observed)] else old(records)
      ensures events == old(events) + if id in old(records) && old(records)[id].state == Cancelled then []
        else [FinishedEvent(id, observed)]
    {
      hide FatesHold, TableHolds;
      NextIsNew(nextId, records, inFlight, lost);
      TableAfterEnd(nextId, records, inFlight, lost, id, observed);
      inFlight, deeds := inFlight - {id}, deeds + [Ended(joined)];
      if id in records && records[id].state == Cancelled { return; }
      if id in records { records := records[id := records[id].(state := observed)]; }
      events := events + [FinishedEvent(id, observed)];
    }
  }

  function Outcome(j: Joined): TaskState
    requires !j.Lost?
  {
    match j
    case Returned(_) => Completed
    case Erred(_, m) => Failed(m)
  }

  /** Two tasks, one blocking and one not, whose joins were lost, are cancelled: the first has no token and runs
      on; the second is Cancelled, and can be trimmed. */
  method CancelAfterLostJoins() returns (blocking: TaskState, cooperative: TaskState, heard: bool)
    ensures blocking == Running && cooperative == Cancelled && !heard
  {
    hide Evolves, LostStep, FatesHold, TableHolds, KeysHold;
    var m := new TaskManager();
    var b := m.SpawnBlocking(Generic, "blocking", 0);
    m.HandleJoin(Lost, b);
    heard := m.Cancel(b);
    blocking := m.records[b].state;
    m := new TaskManager();
    var a := m.SpawnAsync(Generic, "async", 0);
    m.HandleJoin(Lost, a);
    var live := m.Cancel(a);
    cooperative := m.records[a].state;
  }

  /** The record of a task just submitted; without a supervisor it has failed at once. */
  function NewRecord(kind: TaskKind, name: string, now: int, accepted: bool): TaskRecord {
    TaskRecord(kind, name, now, if accepted then Running else Failed("supervisor gone"))
  }

  /** The task a key leads to, if any. */
  function Led(keys: map<string, TaskId>, key: string): set<TaskId> {
    if key in keys then {keys[key]} else {}
  }

  lemma LostStepTwice(a: Moment, asked: set<TaskId>, b: Moment, more: set<TaskId>, c: Moment)
    requires LostStep(a, asked, b) && LostStep(b, more, c)
    ensures LostStep(a, asked + more, c)
  {
  }

  lemma EnteringEvolves(was: Records, id: TaskId, r: TaskRecord, now: Records)
    requires Entered(was, id, r, now) && forall x | x in was :: x < id
    ensures Evolves(was, id, now, id + 1)
    ensures forall x | x in now && x != id :: x in was && now[x] == was[x]
  {
  }

  lemma EnteringSparesLost(was: Moment, id: TaskId, r: TaskRecord, now: Moment)
    requires id !in was.lost && Entered(was.recs, id, r, now.recs)
    requires now.lost == was.lost && now.tokens - {id} == was.tokens - {id}
    ensures LostStep(was, {}, now)
  {
    forall x | x in was.lost ensures x in now.tokens <==> x in was.tokens {
      assert x in now.tokens - {id} <==> x in was.tokens - {id};
    }
  }

  lemma NothingLostYet(was: Moment, id: TaskId)
    ensures LostStep(was, {}, was.(lost := was.lost + {id}))
  {
  }

  lemma JoiningSparesLost(was: Moment, id: TaskId, now: Moment)
    requires id !in was.lost && now.lost == was.lost && now.tokens - {id} == was.tokens - {id}
    requires now.recs - {id} == was.recs - {id}
    ensures LostStep(was, {}, now)
  {
    forall x | x in was.lost ensures (x in now.tokens <==> x in was.tokens) && (RunsIn(now, x) <==> RunsIn(was, x)) {
      assert x in now.tokens - {id} <==> x in was.tokens - {id};
      assert x in now.recs - {id} <==> x in was.recs - {id};
      assert x in now.recs - {id} ==> (now.recs - {id})[x] == (was.recs - {id})[x];
    }
  }

  lemma KeysAfterEnd(next: nat, was: Records, tokens: set<TaskId>, keys: map<string, TaskId>,
                     keyed: map<TaskId, string>, id: TaskId, now: Records)
    requires KeysHold(next, was, tokens, keys, keyed)
    requires now - {id} == was - {id} && (id in now ==> now[id].state != Running)
    ensures KeysHold(next, now, tokens - {id}, map k | k in keys && keys[k] != id :: keys[k], keyed)
  {
    forall x | x in now && x != id ensures x in was && now[x] == was[x] {
      assert x in now - {id} && (now - {id})[x] == (was - {id})[x];
    }
  }

  lemma CancellingSparesLost(was: Moment, id: TaskId)
    ensures LostStep(was, {id}, was.(recs := if id in was.tokens && RunsIn(was, id)
                                             then was.recs[id := was.recs[id].(state := Cancelled)] else was.recs))
  {
  }

  /** A new record is in the table; the others are as before, except that finished ones may be gone. */
  ghost predicate Entered(was: Records, id: TaskId, r: TaskRecord, now: Records) {
    && id in now && now[id] == r
    && (forall x | x in now && x != id :: x in was && now[x] == was[x])
    && (forall x | x in was && was[x].state == Running :: x in now)
    && |now| <= Max(TRIM_FINISHED_ABOVE, |RunningIds(now)| + 1)
  }

  lemma EntersTable(was: Records, id: TaskId, r: TaskRecord, kept: Records)
    requires id !in was && r.state == Running && Trimmed(was[id := r], kept)
    ensures Entered(was, id, r, kept) && |kept| <= Max(TRIM_FINISHED_ABOVE, |RunningIds(kept)|)
  {
    assert forall x | x in was && was[x].state == Running :: x in RunningIds(was[id := r]);
    assert id in RunningIds(was[id := r]);
  }

  lemma FailsAtOnce(was: Records, id: TaskId, r: TaskRecord, kept: Records, why: string)
    requires Entered(was, id, r, kept) && id !in was && r.state == Running
    requires |kept| <= Max(TRIM_FINISHED_ABOVE, |RunningIds(kept)|)
    ensures Entered(was, id, r.(state := Failed(why)), kept[id := r.(state := Failed(why))])
  {
    var failed := kept[id := r.(state := Failed(why))];
    assert RunningIds(failed) == RunningIds(kept) - {id};
    assert failed.Keys == kept.Keys;
    assert |failed| == |kept|;
  }
}
