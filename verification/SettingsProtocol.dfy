/** The settings store's dirty-flag and flush-lock protocol: `src/settings.rs`.
    Updaters, reconcilers, forced flushes and the debounced writer run concurrently; every action below is
    one step between two points at which another task may run. */
module SettingsProtocol {
  import opened Common

  type Settings = map<string, string>

  /** The temporary file next to the settings file. */
  datatype TmpFile = Absent | Torn | Holds(content: Settings)

  /** Where one task stands. */
  datatype Pc =
    | Idle                        // for the writer: waiting for a notification
    | Debouncing                  // the writer's quiet period
    | Mutated                     // update(): write lock dropped, settings changed, dirty not yet stored
    | Marked                      // update(): dirty stored, notification outstanding
    | Reconciling                 // reconcile(): write lock held, tables changed, dirty not yet stored
    | Reconciled                  // reconcile(): dirty stored, write lock still held
    | AtFastPath                  // flush(): entered
    | Waiting                     // flush(): dirty seen, flush lock not yet taken
    | Locked                      // flush(): flush lock held, flag not yet swapped
    | Swapped                     // flush(): flag taken, settings not yet copied
    | Snapped(snap: Settings)     // flush(): copy taken
    | TmpWritten(snap: Settings)  // flush(): temporary file written
    | Failing                     // flush(): an error occurred, flag not yet restored
    | Leaving                     // flush(): about to drop the flush lock

  type Task = nat
  const WRITER: Task := 0

  datatype State = State(
    mem: Settings,
    disk: Settings,
    tmp: TmpFile,
    dirty: bool,
    permit: bool,                 // a stored notification
    flushLock: Option<Task>,
    writeLock: Option<Task>,
    pcs: map<Task, Pc>)
  {
    function At(p: Task): Pc {
      if p in pcs then pcs[p] else Idle
    }

    function Go(p: Task, pc: Pc): State {
      this.(pcs := pcs[p := pc])
    }
  }

  datatype Action =
    | Mutate(value: Settings)     // update(): the closure leaves the settings at `value`
    | MarkDirty
    | Notify
    | Reconcile(value: Settings)
    | ReconcileMark
    | ReconcileEnd
    | BeginFlush                  // flush_now(), or the writer's timer firing
    | CheckDirty
    | Acquire
    | Swap
    | Snapshot
    | Fail(torn: bool)            // serialising, creating the directory, writing or renaming fails
    | WriteTmp
    | Rename
    | Restore
    | Release
    | Wake                        // the writer consumes a notification and starts the quiet period
    | Absorb                      // the writer consumes one during the quiet period

  predicate Enabled(s: State, p: Task, a: Action) {
    match a
    case Mutate(_) => p != WRITER && s.At(p).Idle? && s.writeLock.None?
    case MarkDirty => s.At(p).Mutated?
    case Notify => s.At(p).Marked?
    case Reconcile(v) => p != WRITER && s.At(p).Idle? && s.writeLock.None? && v != s.mem
    case ReconcileMark => s.At(p).Reconciling?
    case ReconcileEnd => s.At(p).Reconciled?
    case BeginFlush => if p == WRITER then s.At(p).Debouncing? else s.At(p).Idle?
    case CheckDirty => s.At(p).AtFastPath?
    case Acquire => s.At(p).Waiting? && s.flushLock.None?
    case Swap => s.At(p).Locked?
    case Snapshot => s.At(p).Swapped? && s.writeLock.None?
    case Fail(torn) => s.At(p).Snapped? || (s.At(p).TmpWritten? && !torn)
    case WriteTmp => s.At(p).Snapped?
    case Rename => s.At(p).TmpWritten? && s.tmp.Holds?
    case Restore => s.At(p).Failing?
    case Release => s.At(p).Leaving?
    case Wake => p == WRITER && s.At(p).Idle? && s.permit
    case Absorb => p == WRITER && s.At(p).Debouncing? && s.permit
  }

  function Next(s: State, p: Task, a: Action): State
    requires Enabled(s, p, a)
  {
    match a
    case Mutate(v) => if v == s.mem then s else s.(mem := v).Go(p, Mutated)
    case MarkDirty => s.(dirty := true).Go(p, Marked)
    case Notify => s.(permit := true).Go(p, Idle)
    case Reconcile(v) => s.(mem := v, writeLock := Some(p)).Go(p, Reconciling)
    case ReconcileMark => s.(dirty := true).Go(p, Reconciled)
    case ReconcileEnd => s.(permit := true, writeLock := None).Go(p, Idle)
    case BeginFlush => s.Go(p, AtFastPath)
    case CheckDirty => s.Go(p, if s.dirty then Waiting else Idle)
    case Acquire => s.(flushLock := Some(p)).Go(p, Locked)
    case Swap => s.(dirty := false).Go(p, if s.dirty then Swapped else Leaving)
    case Snapshot => s.Go(p, Snapped(s.mem))
    case Fail(torn) => s.(tmp := if torn then Torn else s.tmp).Go(p, Failing)
    case WriteTmp => s.(tmp := Holds(s.At(p).snap)).Go(p, TmpWritten(s.At(p).snap))
    case Rename => s.(disk := s.tmp.content, tmp := Absent).Go(p, Leaving)
    case Restore => s.(dirty := true).Go(p, Leaving)
    case Release => s.(flushLock := None).Go(p, Idle)
    case Wake => s.(permit := false).Go(p, Debouncing)
    case Absorb => s.(permit := false)
  }

  // ---------------------------------------------------------------
  // Runs

  datatype Move = Move(task: Task, action: Action)

  /** The state after a sequence of moves, or None when one of them is not possible. */
  function Play(s: State, moves: seq<Move>): Option<State> {
    if moves == [] then Some(s)
    else
      var m := moves[|moves| - 1];
      match Play(s, moves[..|moves| - 1])
      case None => None
      case Some(t) => if Enabled(t, m.task, m.action) then Some(Next(t, m.task, m.action)) else None
  }

  /** A store loaded from a file that parsed, or one seeded because there was none: what is not on disk is dirty. */
  ghost predicate Start(s: State) {
    && s.pcs == map[] && s.flushLock.None? && s.writeLock.None?
    && (s.disk != s.mem ==> s.dirty)
  }

  /** No update, reconcile or flush is in progress. */
  ghost predicate Quiescent(s: State) {
    forall p :: s.At(p).Idle? || s.At(p).Debouncing?
  }

  predicate HoldsFlushLock(pc: Pc) {
    pc.Locked? || pc.Swapped? || pc.Snapped? || pc.TmpWritten? || pc.Failing? || pc.Leaving?
  }

  /** A task is where its locks say it is, and the temporary file belongs to the flush that wrote it. */
  ghost predicate InPlace(s: State, p: Task) {
    && (HoldsFlushLock(s.At(p)) <==> s.flushLock == Some(p))
    && (s.At(p).Reconciling? || s.At(p).Reconciled? <==> s.writeLock == Some(p))
    && (s.At(p).TmpWritten? ==> s.tmp == Holds(s.At(p).snap))
  }

  ghost predicate Locking(s: State) {
    forall p :: InPlace(s, p)
  }

  /** A change to the settings has not yet reached the flag. */
  ghost predicate Unmarked(s: State) {
    exists p :: p in s.pcs && (s.pcs[p].Mutated? || s.pcs[p].Reconciling?)
  }

  /** The value the disk will hold if the current flush, if any, goes on to succeed; None when that
      is the settings it has yet to copy, or when it is about to raise the flag again. */
  function Incoming(s: State): Option<Settings> {
    if s.flushLock.None? then Some(s.disk)
    else
      match s.At(s.flushLock.value)
      case Swapped => None
      case Failing => None
      case Snapped(x) => Some(x)
      case TmpWritten(x) => Some(x)
      case _ => Some(s.disk)
  }

  /** The protocol's invariant: unless the flag is up, or about to be put up, what is on its way to disk is
      what is in memory. */
  ghost predicate NothingForgotten(s: State) {
    s.dirty || Unmarked(s) || Incoming(s) == None || Incoming(s) == Some(s.mem)
  }

  ghost predicate Invariant(s: State) {
    Locking(s) && NothingForgotten(s)
  }

  lemma KeepsLocking(s: State, p: Task, a: Action)
    requires Locking(s) && Enabled(s, p, a)
    ensures Locking(Next(s, p, a))
  {
    forall q ensures InPlace(Next(s, p, a), q) {
      assert InPlace(s, p) && InPlace(s, q);
    }
  }

  lemma StaysUnmarked(s: State, p: Task, a: Action)
    requires Enabled(s, p, a) && Unmarked(s)
    ensures Unmarked(Next(s, p, a)) || Next(s, p, a).dirty
  {
    var q :| q in s.pcs && (s.pcs[q].Mutated? || s.pcs[q].Reconciling?);
    var s' := Next(s, p, a);
    if q != p {
      assert q in s'.pcs && s'.pcs[q] == s.pcs[q];
    }
  }

  lemma KeepsNothingForgotten(s: State, p: Task, a: Action)
    requires Invariant(s) && Enabled(s, p, a)
    ensures NothingForgotten(Next(s, p, a))
  {
    var s' := Next(s, p, a);
    assert InPlace(s, p);
    match a
    case Mutate(v) => if v != s.mem { assert s'.pcs[p].Mutated?; }
    case Reconcile(v) => assert s'.pcs[p].Reconciling?;
    case Swap => assert s.flushLock == Some(p); if Unmarked(s) { StaysUnmarked(s, p, a); }
    case Snapshot => assert s.flushLock == Some(p); if Unmarked(s) { StaysUnmarked(s, p, a); }
    case Fail(_) => assert s.flushLock == Some(p);
    case WriteTmp => assert s.flushLock == Some(p); if Unmarked(s) { StaysUnmarked(s, p, a); }
    case Rename => assert s.flushLock == Some(p); if Unmarked(s) { StaysUnmarked(s, p, a); }
    case Release => assert s.flushLock == Some(p); if Unmarked(s) { StaysUnmarked(s, p, a); }
    case Acquire => if Unmarked(s) { StaysUnmarked(s, p, a); }
    case _ => if Unmarked(s) { StaysUnmarked(s, p, a); }
  }

  lemma {:induction false} ReachableInvariant(s: State, moves: seq<Move>)
    requires Start(s) && Play(s, moves).Some?
    ensures Invariant(Play(s, moves).value)
    decreases |moves|
  {
    if moves != [] {
      var init, m := moves[..|moves| - 1], moves[|moves| - 1];
      ReachableInvariant(s, init);
      KeepsLocking(Play(s, init).value, m.task, m.action);
      KeepsNothingForgotten(Play(s, init).value, m.task, m.action);
    }
  }

  lemma QuietLocksAreFree(s: State)
    requires Locking(s) && Quiescent(s)
    ensures s.flushLock.None? && s.writeLock.None? && !Unmarked(s)
  {
    forall p: Task ensures s.flushLock != Some(p) && s.writeLock != Some(p) { assert InPlace(s, p); }
    forall p | p in s.pcs ensures !s.pcs[p].Mutated? && !s.pcs[p].Reconciling? { assert s.At(p) == s.pcs[p]; }
    match s.flushLock
    case Some(x) => assert false;
    case None =>
      match s.writeLock
      case Some(x) => assert false;
      case None =>
  }

  /** No lost update: under any interleaving, failed writes included, once nothing is in progress and the
      flag is down the file holds exactly the settings in memory. */
  lemma NoLostUpdate(s: State, moves: seq<Move>)
    requires Start(s) && Play(s, moves).Some?
    requires Quiescent(Play(s, moves).value) && !Play(s, moves).value.dirty
    ensures Play(s, moves).value.disk == Play(s, moves).value.mem
  {
    ReachableInvariant(s, moves);
    var t := Play(s, moves).value;
    QuietLocksAreFree(t);
  }

  /** At most one task is inside the flush's critical section. */
  lemma MutualExclusion(s: State, moves: seq<Move>, p: Task, q: Task)
    requires Start(s) && Play(s, moves).Some?
    requires HoldsFlushLock(Play(s, moves).value.At(p)) && HoldsFlushLock(Play(s, moves).value.At(q))
    ensures p == q
  {
    ReachableInvariant(s, moves);
    var t := Play(s, moves).value;
    assert InPlace(t, p) && InPlace(t, q);
  }

  // ---------------------------------------------------------------
  // The file is never torn: it always holds settings that were once in memory

  /** Every value memory has held along the run, and the file's content at the start. */
  function History(s: State, moves: seq<Move>): set<Settings> {
    if moves == [] then {s.mem, s.disk}
    else
      History(s, moves[..|moves| - 1]) +
      match Play(s, moves)
      case Some(t) => {t.mem}
      case None => {}
  }

  ghost predicate Remembered(s: State, h: set<Settings>) {
    && s.mem in h && s.disk in h
    && (forall p | p in s.pcs && (s.pcs[p].Snapped? || s.pcs[p].TmpWritten?) :: s.pcs[p].snap in h)
  }

  lemma {:induction false} DiskIsAlwaysAPastValue(s: State, moves: seq<Move>)
    requires Start(s) && Play(s, moves).Some?
    ensures Remembered(Play(s, moves).value, History(s, moves))
    decreases |moves|
  {
    if moves != [] {
      var init, m := moves[..|moves| - 1], moves[|moves| - 1];
      DiskIsAlwaysAPastValue(s, init);
      ReachableInvariant(s, init);
      var t := Play(s, init).value;
      var t' := Play(s, moves).value;
      assert t' == Next(t, m.task, m.action);
      assert History(s, moves) == History(s, init) + {t'.mem};
      if m.action.Rename? {
        assert InPlace(t, m.task);
      }
    }
  }

  // ---------------------------------------------------------------
  // Who will write a dirty store

  /** The writer is going to look at the flag again without a further update. */
  ghost predicate WriterOwes(s: State) {
    || s.permit
    || s.At(WRITER).Debouncing? || s.At(WRITER).AtFastPath? || s.At(WRITER).Waiting? || s.At(WRITER).Locked?
    || (exists p :: p in s.pcs && (s.pcs[p].Marked? || s.pcs[p].Reconciled?))
  }

  predicate Fails(moves: seq<Move>) {
    exists i :: 0 <= i < |moves| && moves[i].action.Fail?
  }

  lemma StillOwes(s: State, p: Task, a: Action)
    requires Enabled(s, p, a) && WriterOwes(s)
    ensures WriterOwes(Next(s, p, a)) || !Next(s, p, a).dirty
  {
    var s' := Next(s, p, a);
    if q :| q in s.pcs && (s.pcs[q].Marked? || s.pcs[q].Reconciled?) {
      if q != p { assert q in s'.pcs && s'.pcs[q] == s.pcs[q]; }
    }
  }

  lemma {:induction false} DirtyIsOwed(s: State, moves: seq<Move>)
    requires Start(s) && !s.dirty && Play(s, moves).Some? && !Fails(moves)
    ensures Play(s, moves).value.dirty ==> WriterOwes(Play(s, moves).value)
    ensures forall p | p in Play(s, moves).value.pcs :: !Play(s, moves).value.pcs[p].Failing?
    decreases |moves|
  {
    if moves != [] {
      var init, m := moves[..|moves| - 1], moves[|moves| - 1];
      assert !Fails(init) by {
        forall i | 0 <= i < |init| ensures !init[i].action.Fail? { assert init[i] == moves[i]; }
      }
      assert !m.action.Fail?;
      DirtyIsOwed(s, init);
      var t := Play(s, init).value;
      var t' := Next(t, m.task, m.action);
      if WriterOwes(t) { StillOwes(t, m.task, m.action); }
      if m.action.MarkDirty? || m.action.ReconcileMark? {
        assert m.task in t'.pcs && (t'.pcs[m.task].Marked? || t'.pcs[m.task].Reconciled?);
      }
    }
  }

  /** Without a failed write, a store that came to rest dirty has a notification outstanding: the writer
      will flush it. */
  lemma QuietDirtyStoreIsWoken(s: State, moves: seq<Move>)
    requires Start(s) && !s.dirty && Play(s, moves).Some? && !Fails(moves)
    requires Quiescent(Play(s, moves).value) && Play(s, moves).value.dirty
    ensures Play(s, moves).value.permit || Play(s, moves).value.At(WRITER).Debouncing?
  {
    DirtyIsOwed(s, moves);
    var t := Play(s, moves).value;
    forall p | p in t.pcs ensures t.pcs[p].Idle? || t.pcs[p].Debouncing? { assert t.At(p) == t.pcs[p]; }
  }

  /** A failed write breaks this: the flag is restored without a notification, so the store rests dirty,
      with memory and file apart, while the writer sleeps. */
  lemma FailedFlushIsNotRetried()
    ensures exists s: State, moves: seq<Move> ::
      && Start(s) && !s.dirty && Play(s, moves).Some?
      && var t := Play(s, moves).value;
         Quiescent(t) && t.dirty && t.disk != t.mem && !t.permit && t.At(WRITER).Idle? && t.tmp == Torn
  {
    var a: Settings, b: Settings := map[], map["k" := "v"];
    assert "k" in b && b != a;
    var s := State(a, a, Absent, false, false, None, None, map[]);
    var m4, s4 := UpdateAndWake(s, b);
    hide Play;
    var m12, s12 := FlushThatFails(s, m4, s4, WRITER, NotWritten(true));
    assert Quiescent(s12) by {
      forall q ensures s12.At(q).Idle? { assert q != WRITER ==> s12.At(q) == s4.At(q); }
    }
  }

  /** An update of a fresh store, up to the writer's waking. */
  lemma UpdateAndWake(s: State, b: Settings) returns (moves: seq<Move>, t: State)
    requires Start(s) && b != s.mem && !s.permit
    ensures Play(s, moves) == Some(t) && t.mem == b && t.disk == s.disk && t.dirty && !t.permit
    ensures t.flushLock.None? && t.writeLock.None? && t.At(WRITER).Debouncing?
    ensures forall q | q != WRITER :: t.At(q).Idle?
  {
    assert Play(s, []) == Some(s);
    hide Play;
    var m1, s1 := UpdateAndNotify(s, [], s, b, 1);
    assert forall q :: s1.At(q).Idle?;
    moves, t := Extend(s, m1, s1, Move(WRITER, Wake));
    forall q | q != WRITER ensures t.At(q).Idle? { assert t.At(q) == s1.At(q); }
  }

  lemma UpdateAndNotify(s: State, moves: seq<Move>, t: State, b: Settings, u: Task)
    returns (moves': seq<Move>, t': State)
    requires Play(s, moves) == Some(t) && t.At(u).Idle? && t.writeLock.None? && b != t.mem && u != WRITER
    ensures Play(s, moves') == Some(t')
    ensures t' == t.(mem := b, dirty := true, permit := true, pcs := t'.pcs) && forall q :: t'.At(q) == t.At(q)
  {
    hide Play;
    var m1, s1 := Extend(s, moves, t, Move(u, Mutate(b)));
    var m2, s2 := Extend(s, m1, s1, Move(u, MarkDirty));
    moves', t' := Extend(s, m2, s2, Move(u, Notify));
  }

  /** How a flush fails: writing the temporary file, which may leave it torn, or renaming it. */
  datatype Failure = NotWritten(torn: bool) | NotRenamed

  function FailureMoves(p: Task, how: Failure): seq<Move> {
    match how
    case NotWritten(torn) => [Move(p, Fail(torn))]
    case NotRenamed => [Move(p, WriteTmp)] + [Move(p, Fail(false))]
  }

  /** The moves of a flush that gets as far as its copy and then fails. */
  function FailingFlush(p: Task, how: Failure): seq<Move> {
    [Move(p, BeginFlush), Move(p, CheckDirty), Move(p, Acquire), Move(p, Swap), Move(p, Snapshot)]
      + FailureMoves(p, how)
      + [Move(p, Restore)] + [Move(p, Release)]
  }

  lemma FlushThatFails(s: State, moves: seq<Move>, t: State, p: Task, how: Failure)
    returns (moves': seq<Move>, t': State)
    requires Play(s, moves) == Some(t) && t.dirty && t.flushLock.None? && t.writeLock.None?
    requires if p == WRITER then t.At(p).Debouncing? else t.At(p).Idle?
    ensures Play(s, moves') == Some(t') && moves' == moves + FailingFlush(p, how)
    ensures t'.disk == t.disk && t'.mem == t.mem && t'.dirty && t'.permit == t.permit
    ensures t'.At(p).Idle? && forall q | q != p :: t'.At(q) == t.At(q)
    ensures how == NotWritten(true) ==> t'.tmp == Torn
  {
    hide Play;
    var m1, s1 := FlushUpToCopy(s, moves, t, p);
    var m2, s2 := FailAfterCopy(s, m1, s1, p, how);
    var m3, s3 := Extend(s, m2, s2, Move(p, Restore));
    moves', t' := Extend(s, m3, s3, Move(p, Release));
  }

  lemma FailAfterCopy(s: State, moves: seq<Move>, t: State, p: Task, how: Failure)
    returns (moves': seq<Move>, t': State)
    requires Play(s, moves) == Some(t) && t.At(p).Snapped?
    ensures Play(s, moves') == Some(t') && t' == t.(tmp := t'.tmp, pcs := t'.pcs)
    ensures t'.At(p).Failing? && forall q | q != p :: t'.At(q) == t.At(q)
    ensures moves' == moves + FailureMoves(p, how)
    ensures how == NotWritten(true) ==> t'.tmp == Torn
  {
    hide Play;
    match how
    case NotWritten(torn) =>
      moves', t' := Extend(s, moves, t, Move(p, Fail(torn)));
    case NotRenamed =>
      var m1, s1 := Extend(s, moves, t, Move(p, WriteTmp));
      moves', t' := Extend(s, m1, s1, Move(p, Fail(false)));
  }

  /** From any state at rest and dirty with nobody woken, a forced flush that fails leaves it exactly so. */
  lemma FailingFlushLeavesItSo(s: State, moves: seq<Move>, p: Task, how: Failure)
    requires Start(s) && Play(s, moves).Some? && p != WRITER
    requires var t := Play(s, moves).value; Quiescent(t) && t.dirty && !Woken(t)
    ensures var (t, after) := (Play(s, moves).value, Play(s, moves + FailingFlush(p, how)));
      after.Some? && Quiescent(after.value) && after.value.dirty && !Woken(after.value)
      && after.value.mem == t.mem && after.value.disk == t.disk
  {
    ReachableInvariant(s, moves);
    var t := Play(s, moves).value;
    QuietLocksAreFree(t);
    hide Play;
    assert t.At(p).Idle? by {
      assert t.At(p).Idle? || t.At(p).Debouncing?;
      OnlyTheWriterDebounces(s, moves, p);
    }
    var moves', t' := FlushThatFails(s, moves, t, p, how);
    forall q ensures t'.At(q).Idle? || t'.At(q).Debouncing? {
      assert t.At(q).Idle? || t.At(q).Debouncing?;
    }
  }

  lemma {:induction false} OnlyTheWriterDebounces(s: State, moves: seq<Move>, p: Task)
    requires Start(s) && Play(s, moves).Some? && p != WRITER
    ensures !Play(s, moves).value.At(p).Debouncing?
    decreases |moves|
  {
    if moves != [] {
      var init, m := moves[..|moves| - 1], moves[|moves| - 1];
      OnlyTheWriterDebounces(s, init, p);
      Unmoved(Play(s, init).value, m, p);
      hide Next, Enabled;
    }
  }

  lemma Unmoved(t: State, m: Move, p: Task)
    requires Enabled(t, m.task, m.action)
    ensures p != WRITER && Next(t, m.task, m.action).At(p).Debouncing? ==> t.At(p).Debouncing?
  {
  }

  /** What one move does to the notification and to the writer's quiet period. */
  lemma NoticeStep(t: State, m: Move)
    requires Enabled(t, m.task, m.action)
    ensures var t' := Next(t, m.task, m.action);
      && (Notice(m) ==> t'.permit)
      && (Taking(m) ==> t.permit && !t'.permit && t'.At(WRITER).Debouncing?)
      && (WriterFlushes(m) ==> t'.permit == t.permit && !t'.At(WRITER).Debouncing?)
      && (!Notice(m) && !Taking(m) && !WriterFlushes(m) ==>
            t'.permit == t.permit && (t'.At(WRITER).Debouncing? <==> t.At(WRITER).Debouncing?))
  {
  }

  /** The value of the last update or reconciliation of a run, or the initial one. */
  function LastValue(moves: seq<Move>, start: Settings): Settings {
    if moves == [] then start
    else
      var a := moves[|moves| - 1].action;
      if a.Mutate? || a.Reconcile? then a.value else LastValue(moves[..|moves| - 1], start)
  }

  /** Memory holds what was written last, whoever wrote it and whatever else went on. */
  lemma {:induction false} MemoryIsLastWritten(s: State, moves: seq<Move>)
    requires Play(s, moves).Some?
    ensures Play(s, moves).value.mem == LastValue(moves, s.mem)
    decreases |moves|
  {
    if moves != [] {
      var init, m := moves[..|moves| - 1], moves[|moves| - 1];
      MemoryIsLastWritten(s, init);
      WritesMemory(Play(s, init).value, m);
      hide Next, Enabled;
    }
  }

  lemma WritesMemory(t: State, m: Move)
    requires Enabled(t, m.task, m.action)
    ensures Next(t, m.task, m.action).mem ==
      if m.action.Mutate? || m.action.Reconcile? then m.action.value else t.mem
  {
    var t' := Next(t, m.task, m.action);
    match m.action
    case Mutate(v) => assert t'.mem == v;
    case Reconcile(v) => assert t'.mem == v;
    case _ => assert t'.mem == t.mem;
  }

  // ---------------------------------------------------------------
  // Exactly when a store at rest and dirty is left alone

  /** A notification waits, or the writer is in its quiet period: the store will be flushed. */
  predicate Woken(s: State) {
    s.permit || s.At(WRITER).Debouncing?
  }

  predicate Notice(m: Move) {
    m.action.Notify? || m.action.ReconcileEnd?
  }

  predicate Taking(m: Move) {
    m.action.Wake? || m.action.Absorb?
  }

  predicate WriterFlushes(m: Move) {
    m.task == WRITER && m.action.BeginFlush?
  }

  ghost predicate TakenAfter(moves: seq<Move>, i: nat) {
    exists j :: i < j < |moves| && Taking(moves[j])
  }

  ghost predicate FlushedAfter(moves: seq<Move>, j: nat) {
    exists k :: j < k < |moves| && WriterFlushes(moves[k])
  }

  /** The notification at `i` was consumed, and the writer then went on to a flush. */
  ghost predicate Answered(moves: seq<Move>, i: nat) {
    exists j :: i < j < |moves| && Taking(moves[j]) && FlushedAfter(moves, j)
  }

  ghost predicate EveryNoticeAnswered(moves: seq<Move>) {
    forall i: nat | i < |moves| && Notice(moves[i]) :: Answered(moves, i)
  }

  ghost predicate NoticeWaits(moves: seq<Move>) {
    exists i: nat :: i < |moves| && Notice(moves[i]) && !TakenAfter(moves, i)
  }

  /** The notification state of any run, read off its moves alone. */
  lemma {:induction false} NoticesDecide(s: State, moves: seq<Move>)
    requires Start(s) && !s.permit && Play(s, moves).Some?
    ensures Play(s, moves).value.permit <==> NoticeWaits(moves)
    ensures Woken(Play(s, moves).value) <==> !EveryNoticeAnswered(moves)
    decreases |moves|
  {
    if moves != [] {
      var n := |moves| - 1;
      var init, m := moves[..n], moves[n];
      NoticesDecide(s, init);
      var t := Play(s, init).value;
      assert Play(s, moves).value == Next(t, m.task, m.action);
      NoticeStep(t, m);
      hide Play, Next, Enabled, NoticeWaits, EveryNoticeAnswered, Notice, Taking, WriterFlushes;
      assert init + [m] == moves;
      if Notice(m) {
        NewNotice(init, m);
      } else if Taking(m) {
        NoticeTaken(init, m);
      } else if WriterFlushes(m) {
        NoticeAnswered(init, m);
      } else {
        Irrelevant(init, m);
      }
    }
  }

  lemma NewNotice(init: seq<Move>, m: Move)
    requires Notice(m)
    ensures NoticeWaits(init + [m]) && !EveryNoticeAnswered(init + [m])
  {
    var n := |init|;
    assert (init + [m])[n] == m && !TakenAfter(init + [m], n) && !Answered(init + [m], n);
  }

  lemma NoticeTaken(init: seq<Move>, m: Move)
    requires Taking(m) && NoticeWaits(init)
    ensures !NoticeWaits(init + [m]) && !EveryNoticeAnswered(init + [m])
  {
    var moves, n := init + [m], |init|;
    assert moves[n] == m && forall i | 0 <= i < n :: moves[i] == init[i];
    forall i: nat | i < |moves| && Notice(moves[i]) ensures TakenAfter(moves, i) {
      assert i < n && Taking(moves[n]);
    }
    var i: nat :| i < |init| && Notice(init[i]) && !TakenAfter(init, i);
    assert Notice(moves[i]);
    assert forall j | i < j < n :: !Taking(init[j]);
    assert !FlushedAfter(moves, n);
    assert !Answered(moves, i);
  }

  lemma NoticeAnswered(init: seq<Move>, m: Move)
    requires WriterFlushes(m)
    ensures NoticeWaits(init + [m]) <==> NoticeWaits(init)
    ensures NoticeWaits(init + [m]) <==> !EveryNoticeAnswered(init + [m])
  {
    var moves, n := init + [m], |init|;
    SameTaken(init, m);
    forall i: nat | i < n && TakenAfter(init, i) ensures Answered(moves, i) {
      var j :| i < j < n && Taking(init[j]);
      assert moves[j] == init[j] && moves[n] == m && FlushedAfter(moves, j);
    }
    forall i: nat | i < n && !TakenAfter(init, i) ensures !Answered(moves, i) {
      assert !TakenAfter(moves, i);
    }
    assert forall i: nat | i < n :: moves[i] == init[i];
  }

  lemma SameTaken(init: seq<Move>, m: Move)
    requires !Taking(m) && !Notice(m)
    ensures forall i: nat | i < |init| :: TakenAfter(init + [m], i) <==> TakenAfter(init, i)
    ensures NoticeWaits(init + [m]) <==> NoticeWaits(init)
  {
    var moves, n := init + [m], |init|;
    assert moves[n] == m && forall i | 0 <= i < n :: moves[i] == init[i];
    forall i: nat | i < n ensures TakenAfter(moves, i) <==> TakenAfter(init, i) {
      if j :| i < j < n && Taking(init[j]) { assert Taking(moves[j]); }
      if j :| i < j < |moves| && Taking(moves[j]) { assert Taking(init[j]); }
    }
    if NoticeWaits(init) {
      var i: nat :| i < |init| && Notice(init[i]) && !TakenAfter(init, i);
      assert Notice(moves[i]) && !TakenAfter(moves, i);
    }
    if NoticeWaits(moves) {
      var i: nat :| i < |moves| && Notice(moves[i]) && !TakenAfter(moves, i);
      assert Notice(init[i]) && !TakenAfter(init, i);
    }
  }

  lemma Irrelevant(init: seq<Move>, m: Move)
    requires !Notice(m) && !Taking(m) && !WriterFlushes(m)
    ensures NoticeWaits(init + [m]) <==> NoticeWaits(init)
    ensures EveryNoticeAnswered(init + [m]) <==> EveryNoticeAnswered(init)
  {
    var moves, n := init + [m], |init|;
    SameTaken(init, m);
    assert moves[n] == m && forall i | 0 <= i < n :: moves[i] == init[i];
    forall j: nat | j < n ensures FlushedAfter(moves, j) <==> FlushedAfter(init, j) {
      if k :| j < k < n && WriterFlushes(init[k]) { assert WriterFlushes(moves[k]); }
      if k :| j < k < |moves| && WriterFlushes(moves[k]) { assert WriterFlushes(init[k]); }
    }
    forall i: nat | i < n ensures Answered(moves, i) <==> Answered(init, i) {
      if j :| i < j < n && Taking(init[j]) && FlushedAfter(init, j) {
        assert Taking(moves[j]) && FlushedAfter(moves, j);
      }
      if j :| i < j < |moves| && Taking(moves[j]) && FlushedAfter(moves, j) {
        assert Taking(init[j]) && FlushedAfter(init, j);
      }
    }
    if EveryNoticeAnswered(init) {
      forall i: nat | i < |moves| && Notice(moves[i]) ensures Answered(moves, i) { assert Notice(init[i]); }
    }
    if EveryNoticeAnswered(moves) {
      forall i: nat | i < n && Notice(init[i]) ensures Answered(init, i) { assert Notice(moves[i]); }
    }
  }

  /** Over all runs from a clean start that come to rest dirty: nobody is woken exactly when every notification
      given was consumed and the writer went on to a flush after consuming it. */
  lemma NobodyWokenIff(s: State, moves: seq<Move>)
    requires Start(s) && !s.dirty && !s.permit && Play(s, moves).Some?
    requires Quiescent(Play(s, moves).value) && Play(s, moves).value.dirty
    ensures var t := Play(s, moves).value;
      (!t.permit && t.At(WRITER).Idle?) <==> EveryNoticeAnswered(moves)
  {
    NoticesDecide(s, moves);
    var t := Play(s, moves).value;
    assert t.At(WRITER).Idle? || t.At(WRITER).Debouncing?;
  }

  /** A task that starts a flush of a dirty store, both locks being free, can get as far as its copy. */
  lemma FlushUpToCopy(s: State, moves: seq<Move>, t: State, p: Task) returns (moves': seq<Move>, t': State)
    requires Play(s, moves) == Some(t) && t.dirty && t.flushLock.None? && t.writeLock.None?
    requires if p == WRITER then t.At(p).Debouncing? else t.At(p).Idle?
    ensures Play(s, moves') == Some(t')
    ensures t' == t.(dirty := false, flushLock := Some(p), pcs := t'.pcs)
    ensures t'.At(p) == Snapped(t.mem) && forall q | q != p :: t'.At(q) == t.At(q)
    ensures moves' == moves
      + [Move(p, BeginFlush), Move(p, CheckDirty), Move(p, Acquire), Move(p, Swap), Move(p, Snapshot)]
  {
    hide Play;
    var m1, s1 := Extend(s, moves, t, Move(p, BeginFlush));
    var m2, s2 := Extend(s, m1, s1, Move(p, CheckDirty));
    var m3, s3 := Extend(s, m2, s2, Move(p, Acquire));
    var m4, s4 := Extend(s, m3, s3, Move(p, Swap));
    moves', t' := Extend(s, m4, s4, Move(p, Snapshot));
  }

  /** A run whose end is known, continued by one move. */
  lemma Extend(s: State, moves: seq<Move>, t: State, m: Move) returns (moves': seq<Move>, t': State)
    requires Play(s, moves) == Some(t) && Enabled(t, m.task, m.action)
    ensures moves' == moves + [m] && t' == Next(t, m.task, m.action)
    ensures Play(s, moves') == Some(t')
  {
    moves', t' := moves + [m], Next(t, m.task, m.action);
    assert moves'[..|moves'| - 1] == moves;
  }

  /** The other way around: a forced flush of a dirty store that meets no failure and no concurrent task
      leaves the file equal to memory and the flag down. */
  lemma ForcedFlushWrites(s: State, p: Task)
    requires Invariant(s) && Quiescent(s) && s.dirty && p != WRITER && s.At(p).Idle?
    ensures exists moves :: OnlyBy(moves, p) && Play(s, moves).Some? && Flushed(s, Play(s, moves).value)
  {
    QuietLocksAreFree(s);
    assert Play(s, []) == Some(s);
    hide Play;
    var m5, s5 := FlushUpToCopy(s, [], s, p);
    var m6, s6 := Extend(s, m5, s5, Move(p, WriteTmp));
    var m7, s7 := Extend(s, m6, s6, Move(p, Rename));
    var m8, s8 := Extend(s, m7, s7, Move(p, Release));
    assert Quiescent(s8) by {
      forall q ensures s8.At(q).Idle? || s8.At(q).Debouncing? {
        assert s.At(q).Idle? || s.At(q).Debouncing?;
      }
    }
    assert OnlyBy(m8, p) && Flushed(s, s8);
  }

  ghost predicate OnlyBy(moves: seq<Move>, p: Task) {
    forall i | 0 <= i < |moves| :: moves[i].task == p
  }

  ghost predicate Flushed(before: State, after: State) {
    after.disk == after.mem == before.mem && !after.dirty && Quiescent(after)
  }
}
