/** A playlist cursor: sequential, random, or shuffled by Fisher-Yates over a xorshift generator.
    `src/playlist/cursor.rs`, `src/playlist/engine.rs`. */
module PlaylistCursors {
  import opened Common
  import opened Xorshift

  datatype Mode = Sequential | Random | Shuffle

  // ---------------------------------------------------------------
  // Shuffled orders

  /** A listing of 0..n without repetition. */
  ghost predicate IsPermutation(s: seq<nat>, n: nat) {
    |s| == n && (forall i | 0 <= i < n :: s[i] < n) && NoDuplicates(s)
  }

  function Below(n: nat): (b: set<nat>)
    ensures |b| == n && forall x: nat :: x in b <==> x < n
  {
    if n == 0 then {} else Below(n - 1) + {n - 1}
  }

  /** Being as many, the elements of a permutation are all of 0..n. */
  lemma PermutationIsOnto(s: seq<nat>, n: nat, k: nat)
    requires IsPermutation(s, n) && k < n
    ensures exists i :: 0 <= i < n && s[i] == k
  {
    if k !in s {
      assert Elements(s) <= Below(n) - {k};
      DistinctFit(s, Below(n) - {k});
    }
  }

  function Identity(n: nat): seq<nat> {
    seq(n, i => i)
  }

  function Swapped(s: seq<nat>, i: nat, j: nat): seq<nat>
    requires i < |s| && j < |s|
  {
    s[i := s[j]][j := s[i]]
  }

  /** The rest of a shuffle: positions `i` down to 1 are each swapped with a drawn position at or below. */
  function Shuffled(s: seq<nat>, i: nat, rng: bv64): (r: (seq<nat>, bv64))
    requires i < |s| || i == 0
    ensures |r.0| == |s|
    decreases i
  {
    if i == 0 then (s, rng) else Shuffled(Swapped(s, i, Draw(rng, i + 1)), i - 1, RngNext(rng))
  }

  function NewOrder(n: nat, rng: bv64): (r: (seq<nat>, bv64))
    ensures |r.0| == n
  {
    Shuffled(Identity(n), if n == 0 then 0 else n - 1, rng)
  }

  lemma SwapKeepsPermutation(s: seq<nat>, n: nat, i: nat, j: nat)
    requires IsPermutation(s, n) && i < n && j < n
    ensures IsPermutation(Swapped(s, i, j), n)
  {
  }

  lemma {:induction false} ShuffleIsPermutation(s: seq<nat>, i: nat, rng: bv64)
    requires IsPermutation(s, |s|) && (i < |s| || i == 0)
    ensures IsPermutation(Shuffled(s, i, rng).0, |s|)
    decreases i
  {
    if i > 0 {
      SwapKeepsPermutation(s, |s|, i, Draw(rng, i + 1));
      ShuffleIsPermutation(Swapped(s, i, Draw(rng, i + 1)), i - 1, RngNext(rng));
    }
  }

  lemma NewOrderIsPermutation(n: nat, rng: bv64)
    ensures IsPermutation(NewOrder(n, rng).0, n)
  {
    ShuffleIsPermutation(Identity(n), if n == 0 then 0 else n - 1, rng);
  }

  // ---------------------------------------------------------------
  // A shuffle as a sequence of draws from what is left

  /** The generator after k draws. */
  function RngAfter(rng: bv64, k: nat): bv64
    decreases k
  {
    if k == 0 then rng else RngAfter(RngNext(rng), k - 1)
  }

  lemma {:induction false} RngAfterAdds(rng: bv64, j: nat, k: nat)
    ensures RngAfter(rng, j + k) == RngAfter(RngAfter(rng, j), k)
    decreases j
  {
    hide RngNext;
    if j > 0 { RngAfterAdds(RngNext(rng), j - 1, k); }
  }

  /** What is left of a pool once the element at place j is drawn: the last one takes its place. */
  function WithoutDrawn(pool: seq<nat>, j: nat): seq<nat>
    requires j < |pool|
  {
    pool[j := pool[|pool| - 1]][..|pool| - 1]
  }

  /** An order told from the back: draw a place of the pool, and go on with what is left. The last one is not drawn. */
  function Selection(pool: seq<nat>, rng: bv64): seq<nat>
    decreases |pool|
  {
    if |pool| <= 1 then pool
    else
      var j := Draw(rng, |pool|);
      Selection(WithoutDrawn(pool, j), RngNext(rng)) + [pool[j]]
  }

  /** The swaps in place are that selection, one draw for each place but the first. */
  lemma {:induction false} ShuffleIsSelection(s: seq<nat>, i: nat, rng: bv64)
    requires i < |s|
    ensures Shuffled(s, i, rng) == (Selection(s[..i + 1], rng) + s[i + 1..], RngAfter(rng, i))
    decreases i
  {
    hide Draw, RngNext;
    if i > 0 {
      var j := Draw(rng, i + 1);
      var t := Swapped(s, i, j);
      ShuffleIsSelection(t, i - 1, RngNext(rng));
      assert t[..i] == WithoutDrawn(s[..i + 1], j);
      assert t[i..] == [s[j]] + s[i + 1..];
      var left := Selection(t[..i], RngNext(rng));
      assert Selection(s[..i + 1], rng) == left + [s[j]];
      assert left + [s[j]] + s[i + 1..] == left + ([s[j]] + s[i + 1..]);
    } else {
      assert s[..1] + s[1..] == s;
    }
  }

  lemma LastIsDrawn(n: nat, rng: bv64)
    requires n > 1
    ensures var s := Selection(Identity(n), rng); s != [] && s[|s| - 1] == Draw(rng, n)
  {
    hide Draw, RngNext;
  }

  /** A new order: its last place is the first draw, and the others are a selection from the places left. */
  lemma NewOrderIsSelection(n: nat, rng: bv64)
    requires n > 0
    ensures NewOrder(n, rng) == (Selection(Identity(n), rng), RngAfter(rng, n - 1))
    ensures n > 1 ==> NewOrder(n, rng).0[n - 1] == Draw(rng, n)
  {
    hide Draw, RngNext, Shuffled, Selection, RngAfter;
    ShuffleIsSelection(Identity(n), n - 1, rng);
    assert Identity(n)[..n] == Identity(n) && Identity(n)[n..] == [];
    assert Selection(Identity(n), rng) + [] == Selection(Identity(n), rng);
    if n > 1 { LastIsDrawn(n, rng); }
  }

  /** The shuffle of three places at seed 1. */
  lemma ShuffleOfThree()
    ensures NewOrder(3, 1).0 == [2, 1, 0]
  {
    SeedOne();
    hide RngNext;
  }

  // ---------------------------------------------------------------
  // The cursor as a value

  datatype State = State(
    items: seq<string>, mode: Mode, pos: nat, order: seq<nat>, orderPos: nat, rng: bv64, current: Option<string>)

  /** What holds between operations. The order may be for a different number of items; it is rebuilt on use. */
  ghost predicate Consistent(s: State) {
    Ordered(s) && (s.current.Some? ==> s.current.value in s.items)
  }

  ghost predicate Ordered(s: State) {
    IsPermutation(s.order, |s.order|) && (s.orderPos < |s.order| || (s.order == [] && s.orderPos == 0))
  }

  function Rebuilt(s: State): State {
    var (order, rng) := NewOrder(|s.items|, s.rng);
    s.(order := order, rng := rng, orderPos := 0)
  }

  function Fitted(s: State): State {
    if |s.order| != |s.items| then Rebuilt(s) else s
  }

  function Select(s: State, idx: nat): State
    requires idx < |s.items|
  {
    s.(current := Some(s.items[idx]))
  }

  function Stepped(s: State, delta: int): State
    requires |s.items| > 0
  {
    var f := Fitted(s);
    var at := f.(orderPos := (f.orderPos + delta % |f.items|) % |f.items|);
    if at.orderPos == 0 then Rebuilt(at) else at
  }

  function RandomIndex(s: State): nat
    requires |s.items| > 0
  {
    var idx := Draw(s.rng, |s.items|);
    if |s.items| > 1 && s.current == Some(s.items[idx]) then (idx + 1) % |s.items| else idx
  }

  /** `next` on a value. */
  ghost function NextState(s: State, delta: int): State
    requires Consistent(s)
  {
    var n := |s.items|;
    if n == 0 then s
    else
      match s.mode
      case Sequential =>
        var pos := (s.pos + delta % n) % n;
        Select(s.(pos := pos), pos)
      case Random =>
        var idx := RandomIndex(s);
        Select(s.(pos := idx, rng := RngNext(s.rng)), idx)
      case Shuffle =>
        SteppedInRange(s, delta);
        var t := Stepped(s, delta);
        Select(t, t.order[t.orderPos])
  }

  lemma FittedIsConsistent(s: State)
    requires Ordered(s)
    ensures Ordered(Fitted(s)) && |Fitted(s).order| == |s.items| && Fitted(s).items == s.items
  {
    NewOrderIsPermutation(|s.items|, s.rng);
  }

  lemma SteppedInRange(s: State, delta: int)
    requires Consistent(s) && |s.items| > 0
    ensures var t := Stepped(s, delta);
      Consistent(t) && |t.order| == |t.items| && t.orderPos < |t.items| && t.order[t.orderPos] < |t.items| &&
        t.items == s.items
  {
    FittedIsConsistent(s);
    var f := Fitted(s);
    NewOrderIsPermutation(|s.items|, f.rng);
  }

  lemma NextIsConsistent(s: State, delta: int)
    requires Consistent(s)
    ensures Consistent(NextState(s, delta)) && NextState(s, delta).items == s.items &&
      NextState(s, delta).mode == s.mode
    ensures s.items != [] ==> NextState(s, delta).current.Some?
  {
    if s.items != [] && s.mode == Shuffle { SteppedInRange(s, delta); }
  }

  function IndexOf<T(==)>(s: seq<T>, x: T): (i: nat)
    requires x in s
    ensures i < |s| && s[i] == x && forall j | 0 <= j < i :: s[j] != x
  {
    if s[0] == x then 0 else 1 + IndexOf(s[1..], x)
  }

  /** `set_current` on a value; an unknown item changes nothing. */
  ghost function SetCurrentState(s: State, id: string): State
    requires Ordered(s)
  {
    if id !in s.items then s
    else
      var idx := IndexOf(s.items, id);
      var t := s.(pos := idx, current := Some(id));
      if s.mode == Shuffle then
        FittedIsConsistent(s);
        PermutationIsOnto(Fitted(s).order, |s.items|, idx);
        Fitted(t).(orderPos := IndexOf(Fitted(s).order, idx))
      else t
  }

  /** `first` on a value. */
  ghost function FirstState(s: State): State
    requires Ordered(s)
  {
    if s.items == [] then s
    else
      match s.mode
      case Sequential => Select(s.(pos := 0), 0)
      case Random => var idx := Draw(s.rng, |s.items|); Select(s.(pos := idx, rng := RngNext(s.rng)), idx)
      case Shuffle =>
        FittedIsConsistent(s);
        var t := Fitted(s).(orderPos := 0);
        Select(t, t.order[0])
  }

  /** A playlist edit seen by one cursor: keep the current item if it is still there, else start over. */
  ghost function Edited(s: State, items: seq<string>, mode: Mode): State
    requires Ordered(s) && items != []
  {
    var bare := s.(items := items, mode := mode);
    if s.current.Some? && s.current.value in items then SetCurrentState(bare, s.current.value) else FirstState(bare)
  }

  lemma OthersAreConsistent(s: State, id: string, items: seq<string>, mode: Mode)
    requires Consistent(s)
    ensures Consistent(SetCurrentState(s, id)) && Consistent(FirstState(s))
    ensures items != [] ==> Consistent(Edited(s, items, mode)) && Edited(s, items, mode).current.Some?
    ensures items != [] && s.current.Some? && s.current.value in items ==> Edited(s, items, mode).current == s.current
    ensures items != [] ==> Edited(s, items, mode).items == items
  {
    SetCurrentIsConsistent(s, id);
    FirstIsConsistent(s);
    if items != [] {
      var bare := s.(items := items, mode := mode);
      FirstIsConsistent(bare);
      if s.current.Some? { SetCurrentIsConsistent(bare, s.current.value); }
    }
  }

  lemma SetCurrentIsConsistent(s: State, id: string)
    requires Ordered(s)
    ensures Ordered(SetCurrentState(s, id)) && (Consistent(s) || id in s.items ==> Consistent(SetCurrentState(s, id)))
    ensures SetCurrentState(s, id).items == s.items && SetCurrentState(s, id).mode == s.mode
    ensures id in s.items ==> SetCurrentState(s, id).current == Some(id)
    ensures id in s.items ==>
      var t := SetCurrentState(s, id);
      t.pos < |s.items| && s.items[t.pos] == id && forall j | 0 <= j < t.pos :: s.items[j] != id
    ensures id !in s.items ==> SetCurrentState(s, id) == s
    ensures id in s.items && s.mode == Shuffle ==>
      var t := SetCurrentState(s, id); |t.order| == |s.items| && t.order[t.orderPos] == IndexOf(s.items, id)
  {
    FittedIsConsistent(s);
    if id in s.items && s.mode == Shuffle {
      PermutationIsOnto(Fitted(s).order, |s.items|, IndexOf(s.items, id));
    }
  }

  lemma FirstIsConsistent(s: State)
    requires Ordered(s)
    ensures Ordered(FirstState(s)) && (Consistent(s) || s.items != [] ==> Consistent(FirstState(s)))
    ensures FirstState(s).items == s.items && FirstState(s).mode == s.mode
    ensures s.items != [] ==> FirstState(s).current.Some?
  {
    FittedIsConsistent(s);
    hide IsPermutation, NewOrder, Draw, RngNext;
  }

  // ---------------------------------------------------------------
  // Round coverage

  /** Drawing one item after another. */
  ghost function After(s: State, k: nat): (t: State)
    requires Consistent(s)
    ensures Consistent(t) && t.items == s.items && t.mode == s.mode
  {
    if k == 0 then s
    else
      NextIsConsistent(After(s, k - 1), 1);
      NextState(After(s, k - 1), 1)
  }

  /** The next draw starts a new round. */
  ghost predicate RoundStart(s: State) {
    s.mode == Shuffle && s.items != [] && |s.order| == |s.items| && s.orderPos == |s.items| - 1
  }

  lemma StepWithinRound(s: State)
    requires Consistent(s) && s.mode == Shuffle && |s.order| == |s.items| && s.orderPos + 1 < |s.items|
    ensures var t := NextState(s, 1);
      t.order == s.order && t.orderPos == s.orderPos + 1 && t.rng == s.rng &&
        t.current == Some(s.items[s.order[s.orderPos + 1]])
  {
    hide IsPermutation, NewOrder;
    SmallMod(1, |s.items|);
    SmallMod(s.orderPos + 1, |s.items|);
    assert Fitted(s) == s;
  }

  lemma StepIntoRound(s: State)
    requires Consistent(s) && RoundStart(s)
    ensures var t := NextState(s, 1); var order := NewOrder(|s.items|, s.rng).0;
      && t.rng == NewOrder(|s.items|, s.rng).1 && IsPermutation(order, |s.items|)
      && t.order == order && t.orderPos == 0 && t.current == Some(s.items[order[0]])
  {
    NewOrderIsPermutation(|s.items|, s.rng);
    SteppedInRange(s, 1);
    hide IsPermutation, NewOrder;
    LastWraps(|s.items|);
    assert Fitted(s) == s;
  }

  lemma SmallMod(a: nat, n: nat)
    requires a < n
    ensures a % n == a
  {
  }

  lemma LastWraps(n: nat)
    requires n > 0
    ensures (n - 1 + 1 % n) % n == 0
  {
    if n > 1 { SmallMod(1, n); }
  }

  /** The k-th draw of a round is the item at the k-th place of the new order. */
  lemma {:induction false} DrawOfRound(s: State, k: nat)
    requires Consistent(s) && RoundStart(s) && 1 <= k <= |s.items|
    ensures var order := NewOrder(|s.items|, s.rng).0; var t := After(s, k);
      && t.rng == NewOrder(|s.items|, s.rng).1 && IsPermutation(order, |s.items|)
      && t.order == order && t.orderPos == k - 1 && t.current == Some(s.items[order[k - 1]])
    decreases k
  {
    hide NextState, Consistent, IsPermutation, NewOrder;
    if k == 1 {
      assert After(s, 1) == NextState(After(s, 0), 1);
      StepIntoRound(s);
    } else {
      DrawOfRound(s, k - 1);
      StepWithinRound(After(s, k - 1));
    }
  }

  lemma {:induction false} AfterAdds(s: State, j: nat, k: nat)
    requires Consistent(s)
    ensures After(s, j + k) == After(After(s, j), k)
    decreases k
  {
    hide NextState, Consistent;
    if k > 0 {
      AfterAdds(s, j, k - 1);
      assert j + k - 1 == j + (k - 1);
    }
  }

  /** The random modes move the generator on, and in every mode but Shuffle the cursor stands at its current item. */
  lemma StandsAtCurrent(s: State, delta: int)
    requires Consistent(s) && s.items != [] && s.mode != Shuffle
    ensures var t := NextState(s, delta); t.pos < |t.items| && t.current == Some(t.items[t.pos])
    ensures var t := FirstState(s);
      t.pos < |t.items| && t.current == Some(t.items[t.pos]) && (s.mode == Sequential ==> t.pos == 0)
    ensures s.mode == Random ==> NextState(s, delta).rng == FirstState(s).rng == RngAfter(s.rng, 1)
    ensures s.mode == Random ==> FirstState(s).pos == Draw(s.rng, |s.items|)
  {
    hide Draw, RngNext, Ordered;
    assert RngAfter(s.rng, 1) == RngAfter(RngNext(s.rng), 0);
  }

  lemma StartsAfterNothing(s: State)
    requires Consistent(s)
    ensures After(s, 0) == s
  {
  }

  /** Shuffle coverage: from a round start, every block of n draws lists every item once, in the order of some
      permutation, and ends at a round start again. Each round is shuffled anew, n - 1 draws further on. */
  lemma EveryRoundCoversEverything(s: State, round: nat)
    requires Consistent(s) && RoundStart(s)
    ensures var n := |s.items|; var t := After(s, round * n); var p := NewOrder(n, t.rng).0;
      && RoundStart(t) && IsPermutation(p, n) && t.rng == RngAfter(s.rng, round * (n - 1))
      && forall k | 0 <= k < n :: After(s, round * n + k + 1).current == Some(s.items[p[k]])
  {
    hide NextState, Consistent, IsPermutation, NewOrder, After, RoundStart, RngAfter;
    var n := |s.items|;
    RoundsStart(s, round);
    var t := After(s, round * n);
    NewOrderIsPermutation(n, t.rng);
    forall k | 0 <= k < n
      ensures After(s, round * n + k + 1).current == Some(s.items[NewOrder(n, t.rng).0[k]])
    {
      DrawOfRound(t, k + 1);
      AfterAdds(s, round * n, k + 1);
    }
  }

  lemma {:induction false} RoundsStart(s: State, round: nat)
    requires Consistent(s) && RoundStart(s)
    ensures var n := |s.items|; var t := After(s, round * n);
      RoundStart(t) && t.rng == RngAfter(s.rng, round * (n - 1))
    decreases round
  {
    hide NextState, Consistent, IsPermutation, NewOrder, After, RngAfter;
    var n := |s.items|;
    if round == 0 {
      StartsAfterNothing(s);
      NoDraw(s.rng);
    } else {
      RoundsStart(s, round - 1);
      var before := After(s, (round - 1) * n);
      DrawOfRound(before, n);
      NewOrderIsSelection(n, before.rng);
      OneMoreRound(round, n);
      OneMoreRound(round, n - 1);
      RngAfterAdds(s.rng, (round - 1) * (n - 1), n - 1);
      AfterAdds(s, (round - 1) * n, n);
    }
  }

  lemma OneMoreRound(round: nat, n: nat)
    requires round > 0
    ensures round * n == (round - 1) * n + n && (round - 1) * n >= 0
  {
  }

  lemma NoDraw(rng: bv64)
    ensures RngAfter(rng, 0) == rng
  {
  }

  lemma FirstStartsOrder(s: State)
    requires Consistent(s) && s.mode == Shuffle && s.items != []
    ensures var f := FirstState(s);
      Consistent(f) && f.items == s.items && f.mode == Shuffle && IsPermutation(f.order, |s.items|)
      && f.orderPos == 0 && f.current == Some(s.items[f.order[0]])
  {
    hide NewOrder;
    FittedIsConsistent(s);
    FirstIsConsistent(s);
  }

  /** `first` and the n - 1 draws after it also cover everything, and end at a round start. */
  lemma FirstRoundCoversEverything(s: State, k: nat)
    requires Consistent(s) && s.mode == Shuffle && k < |s.items|
    ensures Consistent(FirstState(s))
    ensures var f := FirstState(s); var t := After(f, k);
      && IsPermutation(f.order, |s.items|) && t.order == f.order && t.orderPos == k
      && t.current == Some(s.items[f.order[k]])
      && (k == |s.items| - 1 ==> RoundStart(t))
  {
    FirstStartsOrder(s);
    hide NextState, Consistent, Ordered, IsPermutation, NewOrder, FirstState, After;
    WithinRound(FirstState(s), k);
  }

  /** From the front of an order on, the k-th draw is the item at its k-th place. */
  lemma {:induction false} WithinRound(f: State, k: nat)
    requires Consistent(f) && f.mode == Shuffle && k < |f.items| && |f.order| == |f.items| && f.orderPos == 0
    requires IsPermutation(f.order, |f.items|) && f.current == Some(f.items[f.order[0]])
    ensures var t := After(f, k);
      && t.order == f.order && t.orderPos == k && t.current == Some(f.items[f.order[k]])
    decreases k
  {
    hide NextState, Consistent, NewOrder;
    if k > 0 {
      WithinRound(f, k - 1);
      StepWithinRound(After(f, k - 1));
    }
  }

  function Neighbour(i: nat, n: nat): nat
    requires i < n
  {
    (i + 1) % n
  }

  /** In sequence, the k-th draw is the item k places on, round and round. */
  lemma {:induction false} SequentialIsCyclic(s: State, k: nat)
    requires Consistent(s) && s.mode == Sequential && s.pos < |s.items|
    ensures var t := After(s, k);
      t.pos == (s.pos + k) % |s.items| && (k > 0 ==> t.current == Some(s.items[(s.pos + k) % |s.items|]))
    decreases k
  {
    hide NextState, Consistent;
    var n := |s.items|;
    if k == 0 {
      SmallMod(s.pos, n);
    } else {
      SequentialIsCyclic(s, k - 1);
      NextIsConsistent(After(s, k - 1), 1);
      SequentialStep(After(s, k - 1), 1);
      ModAdds(s.pos + k - 1, 1, n);
      assert s.pos + (k - 1) == s.pos + k - 1;
    }
  }

  lemma SequentialStep(s: State, delta: int)
    requires Consistent(s) && s.mode == Sequential && s.items != []
    ensures var t := NextState(s, delta); var pos := (s.pos + delta % |s.items|) % |s.items|;
      t.pos == pos && t.current == Some(s.items[pos])
  {
    hide Consistent, Stepped;
  }

  lemma ModAdds(a: nat, d: int, n: nat)
    requires n > 0
    ensures (a % n + d % n) % n == (a + d) % n
  {
    var q, r, e := a / n, a % n, d % n;
    assert a + d == (r + e) + n * (q + d / n);
    ModMultiple(r + e, q + d / n, n);
  }

  lemma {:induction false} ModMultiple(a: nat, k: int, n: nat)
    requires n > 0
    ensures (a + n * k) % n == a % n
    decreases if k < 0 then -k else k
  {
    if k > 0 {
      ModMultiple(a, k - 1, n);
      ModOnce(a + n * (k - 1), n);
      assert a + n * k == a + n * (k - 1) + n;
    } else if k < 0 {
      ModMultiple(a, k + 1, n);
      ModOnce(a + n * k, n);
      assert a + n * (k + 1) == a + n * k + n;
    }
  }

  lemma ModOnce(x: int, n: nat)
    requires n > 0
    ensures (x + n) % n == x % n
  {
    var q, r := x / n, x % n;
    assert x == n * q + r;
    assert x + n == n * (q + 1) + r;
    DivIsUnique(x + n, n, q + 1, r);
  }

  lemma {:induction false} AtLeastOnce(n: nat, k: nat)
    requires k > 0
    ensures n * k >= n
    decreases k
  {
    if k > 1 {
      AtLeastOnce(n, k - 1);
      assert n * k == n * (k - 1) + n;
    }
  }

  lemma DivIsUnique(x: int, n: nat, q: int, r: nat)
    requires n > 0 && r < n && x == n * q + r
    ensures x % n == r
  {
    var p, s := x / n, x % n;
    assert x == n * p + s;
    assert n * (q - p) == n * q - n * p && n * (p - q) == n * p - n * q;
    if q > p { AtLeastOnce(n, q - p); }
    if q < p { AtLeastOnce(n, p - q); }
  }

  /** Stepping back by as much as was stepped forward returns to the same place. */
  lemma SequentialUndo(s: State, delta: int)
    requires Consistent(s) && s.mode == Sequential && s.pos < |s.items|
    ensures var t := NextState(s, delta); Consistent(t) && NextState(t, -delta).pos == s.pos
  {
    var n := |s.items|;
    NextIsConsistent(s, delta);
    SmallMod(s.pos, n);
    var e := delta % n;
    ModAdds(s.pos + e, -delta, n);
    ModAdds(s.pos + e, 0, n);
    var q := delta / n;
    assert s.pos + e - delta == s.pos + n * (-q);
    ModMultiple(s.pos, -q, n);
  }

  /** Random mode repeats the current item exactly when it is drawn and its right neighbour is equal to it. */
  lemma RepeatsIffNeighboursEqual(s: State, delta: int)
    requires Consistent(s) && s.mode == Random && |s.items| > 1
    ensures var idx := Draw(s.rng, |s.items|);
      NextState(s, delta).current == s.current <==>
        s.current == Some(s.items[idx]) && s.items[Neighbour(idx, |s.items|)] == s.items[idx]
  {
    hide Draw, IsPermutation;
  }

  // ---------------------------------------------------------------
  // The cursor as it is

  class PlaylistCursor {
    var items: seq<string>
    var mode: Mode
    var pos: nat
    var order: array<nat>
    var orderPos: nat
    var rng: bv64
    var current: Option<string>

    ghost function View(): State
      reads this, order
    {
      State(items, mode, pos, order[..], orderPos, rng, current)
    }

    ghost predicate Valid()
      reads this, order
    {
      Consistent(View()) && |items| < 0x8000_0000
    }

    /** All of `Valid` but for the current item, which a playlist edit may have removed. */
    ghost predicate OrderValid()
      reads this, order
    {
      Ordered(View()) && |items| < 0x8000_0000
    }

    constructor (items: seq<string>, mode: Mode, seed: bv64)
      requires |items| < 0x8000_0000
      ensures Valid() && fresh(order)
      ensures var bare := State(items, mode, 0, [], 0, if seed == 0 then DEFAULT_SEED else seed, None);
              View() == if mode == Shuffle then Rebuilt(bare) else bare
    {
      this.items, this.mode, this.pos, this.orderPos, this.current := items, mode, 0, 0, None;
      this.rng := if seed == 0 then DEFAULT_SEED else seed;
      this.order := new nat[0];
      new;
      if mode == Shuffle {
        BuildOrder();
      }
    }

    method Random64() returns (x: bv64)
      modifies this`rng
      ensures x == rng == RngNext(old(rng)) && rng != 0
    {
      hide Left13, Right7, Left17;
      RngNeverZero(rng);
      x := if rng == 0 then DEFAULT_SEED else rng;
      x := Left13(x);
      x := Right7(x);
      x := Left17(x);
      rng := x;
    }

    method RandomBelow(n: nat) returns (r: nat)
      modifies this`rng
      ensures n == 0 ==> r == 0 && rng == old(rng)
      ensures n > 0 ==> r == Draw(old(rng), n) < n && rng == RngNext(old(rng))
    {
      if n == 0 { return 0; }
      var x := Random64();
      r := x as int % n;
    }

    /** Fisher-Yates in place: a fresh permutation of all positions. */
    method BuildOrder()
      modifies this`order, this`orderPos, this`rng
      ensures fresh(order) && View() == old(Rebuilt(View()))
      ensures IsPermutation(order[..], |items|)
    {
      hide Draw, RngNext, IsPermutation;
      var n := |items|;
      order := new nat[n](i => i);
      assert order[..] == Identity(n);
      var i: nat := if n == 0 then 0 else n - 1;
      while i > 0
        invariant order.Length == n && fresh(order) && (i < n || i == 0) && orderPos == old(orderPos)
        invariant Shuffled(order[..], i, rng) == NewOrder(n, old(rng))
        modifies this`rng, order
      {
        ghost var was := order[..];
        var j := RandomBelow(i + 1);
        order[i], order[j] := order[j], order[i];
        assert order[..] == Swapped(was, i, j);
        i := i - 1;
      }
      orderPos := 0;
      NewOrderIsPermutation(n, old(rng));
    }

    method FitOrder()
      requires OrderValid()
      modifies this`order, this`orderPos, this`rng
      ensures OrderValid() && View() == old(Fitted(View())) && order.Length == |items| &&
        (order == old(order) || fresh(order))
    {
      FittedIsConsistent(View());
      if order.Length != |items| { BuildOrder(); }
    }

    /** Moves along the order, shuffling anew when it comes round to the front. */
    method StepOrder(delta: int)
      requires Valid() && items != []
      modifies this`order, this`orderPos, this`rng
      ensures View() == old(Stepped(View(), delta)) && Valid()
      ensures order.Length == |items| && orderPos < |items| && order[orderPos] < |items|
      ensures (order == old(order) && order[..] == old(order[..])) || fresh(order)
    {
      SteppedInRange(View(), delta);
      hide IsPermutation, NewOrder;
      FitOrder();
      var m := order.Length;
      orderPos := (orderPos + delta % m) % m;
      if orderPos == 0 { BuildOrder(); }
    }

    method Next(delta: int) returns (r: Option<string>)
      requires Valid()
      modifies this
      ensures Valid() && View() == NextState(old(View()), delta)
      ensures (order == old(order) && order[..] == old(order[..])) || fresh(order)
      ensures r == if items == [] then None else current
    {
      NextIsConsistent(View(), delta);
      hide IsPermutation, NewOrder, Stepped, Consistent, RngNext, Draw;
      var n := |items|;
      if n == 0 { return None; }
      var idx;
      match mode {
        case Sequential =>
          pos := (pos + delta % n) % n;
          idx := pos;
        case Random =>
          idx := RandomBelow(n);
          if n > 1 && Some(items[idx]) == current { idx := (idx + 1) % n; }
          pos := idx;
        case Shuffle =>
          StepOrder(delta);
          idx := order[orderPos];
      }
      current := Some(items[idx]);
      r := current;
    }

    method SetCurrent(id: string) returns (found: bool)
      requires OrderValid()
      modifies this
      ensures OrderValid() && View() == SetCurrentState(old(View()), id) && found == (id in items)
      ensures order == old(order) || fresh(order)
    {
      SetCurrentIsConsistent(View(), id);
      var idx;
      found, idx := Position(items, id);
      if !found { return; }
      ghost var before := View();
      if mode == Shuffle {
        FittedIsConsistent(View());
        PermutationIsOnto(Fitted(before).order, |items|, idx);
        FitOrder();
        var ok, op := Position(order[..], idx);
        if ok { orderPos := op; }
      }
      pos := idx;
      current := Some(id);
    }

    static method Position<T(==)>(s: seq<T>, x: T) returns (found: bool, i: nat)
      ensures found == (x in s)
      ensures found ==> i == IndexOf(s, x)
    {
      i := 0;
      while i < |s|
        invariant i <= |s| && x !in s[..i]
      {
        if s[i] == x {
          FirstIndex(s, x, i);
          return true, i;
        }
        i := i + 1;
      }
      return false, 0;
    }

    method First() returns (r: Option<string>)
      requires OrderValid()
      modifies this
      ensures OrderValid() && View() == FirstState(old(View()))
      ensures order == old(order) || fresh(order)
      ensures r == if items == [] then None else current
    {
      FirstIsConsistent(View());
      if items == [] { return None; }
      match mode {
        case Shuffle =>
          FittedIsConsistent(View());
          FitOrder();
          orderPos := 0;
          current := Some(items[order[0]]);
        case Random =>
          pos := RandomBelow(|items|);
          current := Some(items[pos]);
        case Sequential =>
          pos := 0;
          current := Some(items[0]);
      }
      r := current;
    }

    /** What a playlist edit does to one bound cursor; returns the item to show and whether it is a new one. */
    method RebuildForPlaylist(edited: seq<string>, newMode: Mode) returns (id: string, needApply: bool)
      requires Valid() && edited != [] && |edited| < 0x8000_0000
      modifies this
      ensures Valid() && View() == Edited(old(View()), edited, newMode)
      ensures id in edited && current == Some(id)
      ensures needApply <==> old(current).None? || old(current).value !in edited
    {
      hide IsPermutation, NewOrder, SetCurrentState, FirstState;
      OthersAreConsistent(View(), "", edited, newMode);
      assert View().current == current;
      var cur := current;
      items, mode := edited, newMode;
      if cur.Some? && cur.value in edited {
        var found := SetCurrent(cur.value);
        return cur.value, false;
      }
      var first := First();
      assert View().current == current && first == current && View().items == edited;
      return GetOr(first, ""), true;
    }
  }

  lemma {:induction false} FirstIndex<T>(s: seq<T>, x: T, i: nat)
    requires i < |s| && s[i] == x && x !in s[..i]
    ensures IndexOf(s, x) == i
    decreases i
  {
    if i > 0 {
      assert s[0] == s[..i][0];
      assert s[1..][..i - 1] == s[..i][1..];
      FirstIndex(s[1..], x, i - 1);
    }
  }
}
