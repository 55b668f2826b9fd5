/** Wallpaper filters: grouped rules and logic pairs compiled to one SQL condition, and the quick toggles folded
    into them. `src/model/filter.rs`, `src/settings.rs`. */
module Filters {
  import opened Common

  // ---------------------------------------------------------------
  // Conditions and rows

  datatype TextColumn = DisplayName | WpType | LibraryPath | ContentRating
  datatype IntColumn = Width | Height | Size

  datatype Cmp = Equal | NotEqual | Less | LessEqual | Greater | GreaterEqual

  datatype Atom =
    | TextIs(col: TextColumn, text: string)
    | TextIsNot(col: TextColumn, text: string)
    | TextLike(col: TextColumn, text: string)
    | TextNotLike(col: TextColumn, text: string)
    | IntCompare(num: IntColumn, cmp: Cmp, value: int)
    | HasTag(tag: string)
    | LacksTag(tag: string)
    | HasTagLike(tag: string)
    | LacksTagLike(tag: string)
    | IndexMatches(text: string)
    | IndexMisses(text: string)

  datatype Condition = Leaf(atom: Atom) | All(parts: seq<Condition>) | Any(parts: seq<Condition>)

  /** A database row: nullable columns, its tags, and what LIKE and the full-text index say of it. */
  datatype Row = Row(
    text: TextColumn -> Option<string>, num: IntColumn -> Option<int>,
    tagged: string -> bool, taggedLike: string -> bool, like: (string, string) -> bool, indexed: string -> bool)

  datatype Tri = True | False | Unknown

  function Lift(b: bool): Tri {
    if b then True else False
  }

  function And3(a: Tri, b: Tri): Tri {
    if a == False || b == False then False else if a == True && b == True then True else Unknown
  }

  function Or3(a: Tri, b: Tri): Tri {
    if a == True || b == True then True else if a == False && b == False then False else Unknown
  }

  function Compare(c: Cmp, a: int, b: int): bool {
    match c
    case Equal => a == b
    case NotEqual => a != b
    case Less => a < b
    case LessEqual => a <= b
    case Greater => a > b
    case GreaterEqual => a >= b
  }

  /** A comparison with NULL is unknown. */
  function EvalAtom(a: Atom, row: Row): Tri {
    match a
    case TextIs(c, t) => (match row.text(c) case None => Unknown case Some(s) => Lift(s == t))
    case TextIsNot(c, t) => (match row.text(c) case None => Unknown case Some(s) => Lift(s != t))
    case TextLike(c, t) => (match row.text(c) case None => Unknown case Some(s) => Lift(row.like(s, t)))
    case TextNotLike(c, t) => (match row.text(c) case None => Unknown case Some(s) => Lift(!row.like(s, t)))
    case IntCompare(c, op, n) => (match row.num(c) case None => Unknown case Some(v) => Lift(Compare(op, v, n)))
    case HasTag(t) => Lift(row.tagged(t))
    case LacksTag(t) => Lift(!row.tagged(t))
    case HasTagLike(t) => Lift(row.taggedLike(t))
    case LacksTagLike(t) => Lift(!row.taggedLike(t))
    case IndexMatches(t) => Lift(row.indexed(t))
    case IndexMisses(t) => Lift(!row.indexed(t))
  }

  function Eval(c: Condition, row: Row): Tri {
    match c
    case Leaf(a) => EvalAtom(a, row)
    case All(cs) => EvalAll(cs, row)
    case Any(cs) => EvalAny(cs, row)
  }

  function EvalAll(cs: seq<Condition>, row: Row): Tri {
    if cs == [] then True else And3(Eval(cs[0], row), EvalAll(cs[1..], row))
  }

  function EvalAny(cs: seq<Condition>, row: Row): Tri {
    if cs == [] then False else Or3(Eval(cs[0], row), EvalAny(cs[1..], row))
  }

  /** WHERE keeps a row only when the condition is true, not when it is unknown. */
  predicate Holds(c: Condition, row: Row) {
    Eval(c, row) == True
  }

  function Not3(a: Tri): Tri {
    match a case True => False case False => True case Unknown => Unknown
  }

  /** The laws of three-valued logic: each connective is the other's dual, False is final for "and", and Unknown is
      absorbed by neither True nor Unknown there. */
  lemma ThreeValuedLaws(a: Tri, b: Tri)
    ensures Or3(a, b) == Not3(And3(Not3(a), Not3(b))) && And3(a, b) == And3(b, a)
    ensures And3(a, False) == False && And3(a, True) == a && And3(a, a) == a
  {
  }

  lemma HeadOrTail<T>(s: seq<T>)
    requires s != []
    ensures forall x :: x in s <==> x == s[0] || x in s[1..]
  {
    assert s == [s[0]] + s[1..];
  }

  lemma {:induction false} AllHolds(cs: seq<Condition>, row: Row)
    ensures EvalAll(cs, row) == True <==> forall c | c in cs :: Holds(c, row)
    decreases |cs|
  {
    if cs != [] {
      AllHolds(cs[1..], row);
      HeadOrTail(cs);
      assert EvalAll(cs, row) == True <==> Holds(cs[0], row) && EvalAll(cs[1..], row) == True;
      hide Holds, EvalAll;
    }
  }

  lemma {:induction false} AnyHolds(cs: seq<Condition>, row: Row)
    ensures EvalAny(cs, row) == True <==> exists c | c in cs :: Holds(c, row)
    decreases |cs|
  {
    if cs != [] {
      AnyHolds(cs[1..], row);
      HeadOrTail(cs);
      assert EvalAny(cs, row) == True <==> Holds(cs[0], row) || EvalAny(cs[1..], row) == True;
      hide Holds, EvalAny;
    }
  }

  // ---------------------------------------------------------------
  // Grouped rules

  /** A rule as the builder sees it: its group and its condition, if it has one. */
  type Grouped = (int, Option<Condition>)

  datatype Logic = Logic(op: int, a: int, b: int)

  const LOGIC_OP_OR := 2

  function Groups(rules: seq<Grouped>): set<int> {
    set r | r in rules && r.1.Some? :: r.0
  }

  function Bucket(rules: seq<Grouped>, g: int): seq<Condition> {
    if rules == [] then []
    else
      var last := rules[|rules| - 1];
      Bucket(rules[..|rules| - 1], g) + if last.0 == g && last.1.Some? then [last.1.value] else []
  }

  /** A group holds when each of its rules does. */
  ghost predicate GroupHolds(rules: seq<Grouped>, g: int, row: Row) {
    forall r | r in rules && r.0 == g && r.1.Some? :: Holds(r.1.value, row)
  }

  ghost predicate PairHolds(l: Logic, v: int -> bool) {
    if l.op == LOGIC_OP_OR then v(l.a) || v(l.b) else v(l.a) && v(l.b)
  }

  /** A logic pair counts only when both of its groups are present. */
  predicate Effective(present: set<int>, l: Logic) {
    l.a in present && l.b in present
  }

  ghost predicate Referenced(present: set<int>, logics: seq<Logic>, g: int) {
    exists l :: l in logics && Effective(present, l) && (g == l.a || g == l.b)
  }

  /** The meaning of a filter over the truth of its groups: every pair in effect holds under its operator, and
      every group in no such pair holds. */
  ghost predicate Keeps(present: set<int>, logics: seq<Logic>, v: int -> bool) {
    && (forall l | l in logics && Effective(present, l) :: PairHolds(l, v))
    && (forall g | g in present && !Referenced(present, logics, g) :: v(g))
  }

  ghost function Truth(rules: seq<Grouped>, row: Row): int -> bool {
    g => GroupHolds(rules, g, row)
  }

  lemma {:induction false} BucketMembers(rules: seq<Grouped>, g: int)
    ensures forall c :: c in Bucket(rules, g) <==> exists r :: r in rules && r.0 == g && r.1 == Some(c)
    decreases |rules|
  {
    if rules != [] {
      var init, last := rules[..|rules| - 1], rules[|rules| - 1];
      BucketMembers(init, g);
      forall c ensures c in Bucket(rules, g) <==> exists r :: r in rules && r.0 == g && r.1 == Some(c) {
        if c in Bucket(rules, g) {
          if c in Bucket(init, g) {
            var r :| r in init && r.0 == g && r.1 == Some(c);
            assert r in rules;
          } else {
            assert last in rules && last.1 == Some(c);
          }
        }
        if r :| r in rules && r.0 == g && r.1 == Some(c) {
          assert r == last || r in init;
        }
      }
    }
  }

  lemma BucketHolds(rules: seq<Grouped>, g: int, row: Row)
    ensures Holds(All(Bucket(rules, g)), row) <==> GroupHolds(rules, g, row)
  {
    BucketMembers(rules, g);
    AllHolds(Bucket(rules, g), row);
    forall r | r in rules && r.0 == g && r.1.Some? ensures r.1.value in Bucket(rules, g) {
    }
  }

  // ---------------------------------------------------------------
  // Building

  function PairCondition(rules: seq<Grouped>, l: Logic): Condition {
    var (a, b) := (All(Bucket(rules, l.a)), All(Bucket(rules, l.b)));
    if l.op == LOGIC_OP_OR then Any([a, b]) else All([a, b])
  }

  lemma PairMeaning(rules: seq<Grouped>, l: Logic, row: Row)
    ensures Holds(PairCondition(rules, l), row) <==> PairHolds(l, Truth(rules, row))
  {
    hide Bucket, GroupHolds;
    var (a, b) := (All(Bucket(rules, l.a)), All(Bucket(rules, l.b)));
    BucketHolds(rules, l.a, row);
    BucketHolds(rules, l.b, row);
    if l.op == LOGIC_OP_OR { AnyHolds([a, b], row); } else { AllHolds([a, b], row); }
    assert a in [a, b] && b in [a, b];
  }

  ghost predicate FromPair(rules: seq<Grouped>, logics: seq<Logic>, c: Condition) {
    exists l :: l in logics && Effective(Groups(rules), l) && c == PairCondition(rules, l)
  }

  ghost predicate FromGroup(rules: seq<Grouped>, logics: seq<Logic>, c: Condition) {
    exists g :: g in Groups(rules) && !Referenced(Groups(rules), logics, g) && c == All(Bucket(rules, g))
  }

  /** The compiled condition, as a set of conjuncts: effective pairs, and the groups in none of them. */
  ghost predicate Compiled(rules: seq<Grouped>, logics: seq<Logic>, parts: seq<Condition>) {
    var present := Groups(rules);
    && (forall c | c in parts :: FromPair(rules, logics, c) || FromGroup(rules, logics, c))
    && (forall l | l in logics && Effective(present, l) :: PairCondition(rules, l) in parts)
    && (forall g | g in present && !Referenced(present, logics, g) :: All(Bucket(rules, g)) in parts)
  }

  /** Such a set of conjuncts keeps exactly the rows the filter means to keep, in whatever order it lists them. */
  lemma CompiledMeaning(rules: seq<Grouped>, logics: seq<Logic>, parts: seq<Condition>, row: Row)
    requires Compiled(rules, logics, parts)
    ensures Holds(All(parts), row) <==> Keeps(Groups(rules), logics, Truth(rules, row))
  {
    var present, v := Groups(rules), Truth(rules, row);
    AllHolds(parts, row);
    assert Holds(All(parts), row) <==> forall c | c in parts :: Holds(c, row);
    hide Holds, GroupHolds, Bucket, PairHolds, PairCondition, Groups, Referenced, Effective, EvalAll;
    forall l ensures Holds(PairCondition(rules, l), row) <==> PairHolds(l, v) {
      PairMeaning(rules, l, row);
    }
    forall g ensures Holds(All(Bucket(rules, g)), row) <==> v(g) {
      BucketHolds(rules, g, row);
    }
  }

  method FillBuckets(rules: seq<Grouped>) returns (buckets: map<int, seq<Condition>>)
    ensures buckets.Keys == Groups(rules)
    ensures forall g | g in buckets :: buckets[g] == Bucket(rules, g)
  {
    buckets := map[];
    for i := 0 to |rules|
      invariant buckets.Keys == Groups(rules[..i])
      invariant forall g | g in buckets :: buckets[g] == Bucket(rules[..i], g)
    {
      assert rules[..i + 1][..i] == rules[..i];
      assert forall r :: r in rules[..i + 1] <==> r in rules[..i] || r == rules[i];
      EmptyBucket(rules[..i], rules[i].0);
      match rules[i].1 {
        case None =>
        case Some(c) =>
          var g := rules[i].0;
          buckets := buckets[g := (if g in buckets then buckets[g] else []) + [c]];
      }
    }
    assert rules[..|rules|] == rules;
  }

  lemma EmptyBucket(rules: seq<Grouped>, g: int)
    ensures g !in Groups(rules) ==> Bucket(rules, g) == []
  {
    BucketMembers(rules, g);
    if g !in Groups(rules) && Bucket(rules, g) != [] {
      assert Bucket(rules, g)[0] in Bucket(rules, g);
    }
  }

  /** Any element: the order in which groups are visited does not matter. */
  method Pick<T>(s: set<T>) returns (x: T)
    requires s != {}
    ensures x in s
  {
    x :| x in s;
  }

  /** Compiles grouped rules and logic pairs; `None` when no rule has a condition. */
  method BuildGroupedCondition(rules: seq<Grouped>, logics: seq<Logic>) returns (r: Option<Condition>)
    ensures r.None? <==> Groups(rules) == {}
    ensures r.Some? ==> forall row: Row :: Holds(r.value, row) <==> Keeps(Groups(rules), logics, Truth(rules, row))
  {
    hide Bucket, Groups, Keeps, Truth, Holds;
    var buckets := FillBuckets(rules);
    if buckets.Keys == {} { return None; }
    ghost var present := Groups(rules);
    var pairConds: seq<Condition> := [];
    var referenced: set<int> := {};
    for i := 0 to |logics|
      invariant forall l | l in logics[..i] && Effective(present, l) :: PairCondition(rules, l) in pairConds
      invariant forall c | c in pairConds :: FromPair(rules, logics, c)
      invariant forall g :: g in referenced <==> Referenced(present, logics[..i], g)
    {
      var l := logics[i];
      assert forall x :: x in logics[..i + 1] <==> x in logics[..i] || x == l;
      if l.a !in buckets || l.b !in buckets { continue; }
      var a, b := All(buckets[l.a]), All(buckets[l.b]);
      var combined := if l.op == LOGIC_OP_OR then Any([a, b]) else All([a, b]);
      assert Effective(present, l) && combined == PairCondition(rules, l);
      assert FromPair(rules, logics, combined);
      pairConds := pairConds + [combined];
      referenced := referenced + {l.a, l.b};
    }
    assert logics[..|logics|] == logics;
    var outer := pairConds;
    var keys: set<int> := buckets.Keys;
    while keys != {}
      invariant keys <= present && forall c | c in pairConds :: c in outer
      invariant forall g | g in present && g !in keys && !Referenced(present, logics, g) ::
        All(Bucket(rules, g)) in outer
      invariant forall c | c in outer :: FromPair(rules, logics, c) || FromGroup(rules, logics, c)
      decreases |keys|
    {
      var g := Pick(keys);
      keys := keys - {g};
      if g !in referenced {
        assert FromGroup(rules, logics, All(buckets[g]));
        outer := outer + [All(buckets[g])];
      }
    }
    forall row: Row ensures Holds(All(outer), row) <==> Keeps(present, logics, Truth(rules, row)) {
      CompiledMeaning(rules, logics, outer, row);
    }
    r := Some(All(outer));
  }

  // ---------------------------------------------------------------
  // Folding further groups into a filter

  /** A group every kept row must satisfy: in no pair, or in a conjunctive one, or paired with itself. */
  ghost predicate Forced(present: set<int>, logics: seq<Logic>, g: int) {
    && g in present
    && (Referenced(present, logics, g) ==>
          exists l :: l in logics && Effective(present, l) && (g == l.a || g == l.b) &&
            (l.op != LOGIC_OP_OR || l.a == l.b))
  }

  /** What is left after the forced groups: alternatives between two different groups. */
  ghost predicate Alternatives(present: set<int>, logics: seq<Logic>, v: int -> bool) {
    forall l | l in logics && Effective(present, l) && l.op == LOGIC_OP_OR && l.a != l.b :: v(l.a) || v(l.b)
  }

  lemma KeepsSplit(present: set<int>, logics: seq<Logic>, v: int -> bool)
    ensures Keeps(present, logics, v) <==>
              (forall g | Forced(present, logics, g) :: v(g)) && Alternatives(present, logics, v)
  {
    if (forall g | Forced(present, logics, g) :: v(g)) && Alternatives(present, logics, v) {
      forall l | l in logics && Effective(present, l) ensures PairHolds(l, v) {
        if l.op != LOGIC_OP_OR || l.a == l.b {
          assert Forced(present, logics, l.a) && Forced(present, logics, l.b);
        }
      }
    }
  }

  /** Falsifying one group alone violates a filter exactly when the group is forced. */
  lemma OneFalse(present: set<int>, logics: seq<Logic>, g: int)
    ensures Keeps(present, logics, x => x != g) <==> !Forced(present, logics, g)
  {
    KeepsSplit(present, logics, x => x != g);
  }

  /** Folding in `extra` groups adds exactly "and each of them". */
  ghost predicate IsConjunction(user: set<int>, extra: set<int>, logics: seq<Logic>) {
    forall v: int -> bool :: Keeps(user + extra, logics, v) <==> Keeps(user, logics, v) && forall g | g in extra :: v(g)
  }

  /** The check on the logic pairs that decides it: the folded filter forces the extra groups, and otherwise
      exactly the groups the user's filter forces. */
  ghost predicate ForcesOnlyExtra(user: set<int>, extra: set<int>, logics: seq<Logic>) {
    forall g :: Forced(user + extra, logics, g) <==> Forced(user, logics, g) || g in extra
  }

  lemma FoldingIsConjunctionIff(user: set<int>, extra: set<int>, logics: seq<Logic>)
    ensures IsConjunction(user, extra, logics) <==> ForcesOnlyExtra(user, extra, logics)
  {
    if IsConjunction(user, extra, logics) {
      forall g ensures Forced(user + extra, logics, g) <==> Forced(user, logics, g) || g in extra {
        var v := x => x != g;
        OneFalse(user + extra, logics, g);
        OneFalse(user, logics, g);
        assert Keeps(user + extra, logics, v) <==> Keeps(user, logics, v) && forall x | x in extra :: v(x);
      }
    }
    if ForcesOnlyExtra(user, extra, logics) {
      forall v: int -> bool
        ensures Keeps(user + extra, logics, v) <==> Keeps(user, logics, v) && forall g | g in extra :: v(g)
      {
        KeepsSplit(user + extra, logics, v);
        KeepsSplit(user, logics, v);
        ForcedAndAlternatives(user, extra, logics, v);
      }
    }
  }

  lemma ForcedAndAlternatives(user: set<int>, extra: set<int>, logics: seq<Logic>, v: int -> bool)
    requires ForcesOnlyExtra(user, extra, logics)
    ensures (forall g | Forced(user + extra, logics, g) :: v(g)) && Alternatives(user + extra, logics, v)
       <==> && (forall g | Forced(user, logics, g) :: v(g)) && Alternatives(user, logics, v)
            && forall g | g in extra :: v(g)
  {
    hide Forced;
    assert (forall g | Forced(user + extra, logics, g) :: v(g))
      <==> (forall g | Forced(user, logics, g) :: v(g)) && (forall g | g in extra :: v(g));
    if forall g | g in extra :: v(g) {
      assert Alternatives(user, logics, v) ==> Alternatives(user + extra, logics, v) by {
        forall l | l in logics && Effective(user + extra, l) && l.op == LOGIC_OP_OR && l.a != l.b && !Effective(user, l)
          ensures l.a in extra || l.b in extra {
        }
      }
    }
  }

  /** In particular when no logic pair names an extra group, and the extra groups are new. */
  lemma UnnamedGroupsFold(user: set<int>, extra: set<int>, logics: seq<Logic>)
    requires user !! extra && forall l | l in logics :: l.a !in extra && l.b !in extra
    ensures IsConjunction(user, extra, logics)
  {
    assert forall l | l in logics :: Effective(user + extra, l) <==> Effective(user, l);
    forall g ensures Forced(user + extra, logics, g) <==> Forced(user, logics, g) || g in extra {
    }
    FoldingIsConjunctionIff(user, extra, logics);
  }

  /** A dangling alternative that happens to name the new group captures it: the toggle is no longer enforced. */
  lemma DanglingLogicCaptures()
    ensures !IsConjunction({0}, {1}, [Logic(2, 0, 1)])
  {
    var l := Logic(LOGIC_OP_OR, 0, 1);
    assert l in [l] && Effective({0} + {1}, l);
    assert !Forced({0} + {1}, [l], 1);
    FoldingIsConjunctionIff({0}, {1}, [l]);
  }

  /** The truth of the user's groups is not affected by rules in other groups. */
  lemma FoldedTruth(rules: seq<Grouped>, toggles: seq<Grouped>, row: Row)
    requires Groups(rules) !! Groups(toggles)
    ensures Groups(rules + toggles) == Groups(rules) + Groups(toggles)
    ensures forall g | g in Groups(rules) :: Truth(rules + toggles, row)(g) <==> Truth(rules, row)(g)
    ensures forall g | g in Groups(toggles) :: Truth(rules + toggles, row)(g) <==> Truth(toggles, row)(g)
  {
    hide Holds;
    assert forall r :: r in rules + toggles <==> r in rules || r in toggles;
    forall g | g in Groups(rules) ensures GroupHolds(rules + toggles, g, row) <==> GroupHolds(rules, g, row) {
      assert forall r | r in toggles && r.1.Some? :: r.0 in Groups(toggles);
    }
    forall g | g in Groups(toggles) ensures GroupHolds(rules + toggles, g, row) <==> GroupHolds(toggles, g, row) {
      assert forall r | r in rules && r.1.Some? :: r.0 in Groups(rules);
    }
  }

  /** What folding toggles into a filter means for a row, whenever the logic pairs allow it. */
  lemma FoldedMeaning(rules: seq<Grouped>, toggles: seq<Grouped>, logics: seq<Logic>, row: Row)
    requires Groups(rules) !! Groups(toggles) && IsConjunction(Groups(rules), Groups(toggles), logics)
    ensures Keeps(Groups(rules + toggles), logics, Truth(rules + toggles, row)) <==>
              Keeps(Groups(rules), logics, Truth(rules, row))
              && forall t | t in toggles && t.1.Some? :: Holds(t.1.value, row)
  {
    hide Holds;
    FoldedTruth(rules, toggles, row);
    var v := Truth(rules + toggles, row);
    assert Keeps(Groups(rules) + Groups(toggles), logics, v) <==>
             Keeps(Groups(rules), logics, v) && forall g | g in Groups(toggles) :: v(g);
    assert Keeps(Groups(rules), logics, v) <==> Keeps(Groups(rules), logics, Truth(rules, row));
    EachGroupHolds(toggles, row);
  }

  /** Neither the order of the rules nor the order of the pairs matters, nor repetition. */
  lemma OrderIsIrrelevant(a: seq<Grouped>, b: seq<Grouped>, k: seq<Logic>, l: seq<Logic>, row: Row)
    requires (forall r :: r in a <==> r in b) && forall x :: x in k <==> x in l
    ensures Groups(a) == Groups(b)
    ensures Keeps(Groups(a), k, Truth(a, row)) <==> Keeps(Groups(b), l, Truth(b, row))
  {
    hide Holds;
    forall g ensures GroupHolds(a, g, row) <==> GroupHolds(b, g, row) {
    }
    forall g ensures Referenced(Groups(a), k, g) <==> Referenced(Groups(b), l, g) {
    }
  }

  // ---------------------------------------------------------------
  // Rules as they are stored

  datatype Payload =
    | StringFilter(value: string, scond: int)
    | IntFilter(number: int, icond: int)
    | TagFilter(values: seq<string>, tcond: int)

  datatype Rule = Rule(kind: int, group: int, payload: Option<Payload>)

  const KIND_NAME := 1
  const KIND_WP_TYPE := 2
  const KIND_LIBRARY := 3
  const KIND_WIDTH := 5
  const KIND_HEIGHT := 6
  const KIND_SIZE := 7
  const KIND_CONTENT_RATING := 8
  const KIND_TAG := 9

  const IS := 1
  const IS_NOT := 2
  const CONTAINS := 3
  const CONTAINS_NOT := 4

  function Lower(s: string): string {
    seq(|s|, i requires 0 <= i < |s| => if 'A' <= s[i] <= 'Z' then s[i] - 'A' + 'a' else s[i])
  }

  /** Capitals become small letters, and nothing else changes. */
  lemma LowerMeaning(s: string, i: nat)
    requires i < |s|
    ensures |Lower(s)| == |s|
    ensures if s[i] in "ABCDEFGHIJKLMNOPQRSTUVWXYZ" then Lower(s)[i] as int == s[i] as int + 32 else Lower(s)[i] == s[i]
  {
  }

  /** Something for the full-text index to look for. */
  predicate HasTerm(s: string) {
    exists i :: 0 <= i < |s| && s[i] !in {' ', '\t', '\n', '\r'}
  }

  lemma TermMeaning(s: string)
    ensures HasTerm(s) <==> !(forall c | c in s :: c in {' ', '\t', '\n', '\r'})
  {
    if HasTerm(s) {
      var i :| 0 <= i < |s| && s[i] !in {' ', '\t', '\n', '\r'};
      assert s[i] in s;
    }
    if c :| c in s && c !in {' ', '\t', '\n', '\r'} {
      var i :| 0 <= i < |s| && s[i] == c;
      assert s[i] !in {' ', '\t', '\n', '\r'};
    }
  }

  function TextCondition(col: TextColumn, cond: int, value: string): Option<Condition> {
    if cond == CONTAINS then Some(All([Leaf(TextLike(col, value))]))
    else if cond == CONTAINS_NOT then Some(All([Leaf(TextNotLike(col, value))]))
    else if cond == IS then Some(All([Leaf(TextIs(col, value))]))
    else if cond == IS_NOT then Some(All([Leaf(TextIsNot(col, value))]))
    else None
  }

  function IntCondition(col: IntColumn, cond: int, value: int): Option<Condition> {
    match cond
    case 1 => Some(All([Leaf(IntCompare(col, Equal, value))]))
    case 2 => Some(All([Leaf(IntCompare(col, NotEqual, value))]))
    case 3 => Some(All([Leaf(IntCompare(col, Less, value))]))
    case 4 => Some(All([Leaf(IntCompare(col, LessEqual, value))]))
    case 5 => Some(All([Leaf(IntCompare(col, Greater, value))]))
    case 6 => Some(All([Leaf(IntCompare(col, GreaterEqual, value))]))
    case _ => None
  }

  function NameCondition(cond: int, value: string): Option<Condition> {
    if cond == CONTAINS then
      if HasTerm(value) then Some(Any([Leaf(IndexMatches(value)), Leaf(HasTagLike(value))])) else None
    else if cond == CONTAINS_NOT then
      if HasTerm(value) then Some(All([Leaf(IndexMisses(value)), Leaf(LacksTagLike(value))])) else None
    else TextCondition(DisplayName, cond, value)
  }

  function TagCondition(tag: string, cond: int): Option<Condition> {
    if cond == IS || cond == CONTAINS then Some(All([Leaf(HasTag(tag))]))
    else if cond == IS_NOT || cond == CONTAINS_NOT then Some(All([Leaf(LacksTag(tag))]))
    else None
  }

  /** The atoms for the tags that are not empty strings. */
  function TagAtoms(values: seq<string>, wanted: bool): seq<Condition> {
    if values == [] then []
    else
      var t := values[|values| - 1];
      TagAtoms(values[..|values| - 1], wanted)
        + if t == "" then [] else [Leaf(if wanted then HasTag(t) else LacksTag(t))]
  }

  function TagListCondition(values: seq<string>, cond: int): Option<Condition> {
    if TagAtoms(values, true) == [] then None
    else if cond == IS || cond == CONTAINS then Some(Any(TagAtoms(values, true)))
    else if cond == IS_NOT || cond == CONTAINS_NOT then Some(All(TagAtoms(values, false)))
    else None
  }

  method BuildTagListCondition(values: seq<string>, cond: int) returns (r: Option<Condition>)
    ensures r == TagListCondition(values, cond)
  {
    var names: seq<string> := [];
    for i := 0 to |values|
      invariant TagAtoms(names, true) == TagAtoms(values[..i], true) &&
        TagAtoms(names, false) == TagAtoms(values[..i], false)
      invariant |names| == |TagAtoms(values[..i], true)| && "" !in names
    {
      assert values[..i + 1][..i] == values[..i];
      if values[i] != "" {
        assert (names + [values[i]])[..|names|] == names;
        names := names + [values[i]];
      }
    }
    assert values[..|values|] == values;
    if names == [] { return None; }
    var wanted := cond == IS || cond == CONTAINS;
    if !wanted && cond != IS_NOT && cond != CONTAINS_NOT { return None; }
    var parts: seq<Condition> := [];
    for i := 0 to |names|
      invariant parts == TagAtoms(names[..i], wanted)
    {
      assert names[..i + 1][..i] == names[..i];
      parts := parts + [Leaf(if wanted then HasTag(names[i]) else LacksTag(names[i]))];
    }
    assert names[..|names|] == names;
    return Some(if wanted then Any(parts) else All(parts));
  }

  function RuleCondition(r: Rule): Option<Condition> {
    match r.payload
    case None => None
    case Some(IntFilter(n, c)) =>
      if r.kind == KIND_WIDTH then IntCondition(Width, c, n)
      else if r.kind == KIND_HEIGHT then IntCondition(Height, c, n)
      else if r.kind == KIND_SIZE then IntCondition(Size, c, n)
      else None
    case Some(StringFilter(v, c)) =>
      if r.kind == KIND_NAME then NameCondition(c, v)
      else if r.kind == KIND_WP_TYPE then TextCondition(WpType, c, Lower(v))
      else if r.kind == KIND_LIBRARY then TextCondition(LibraryPath, c, v)
      else if r.kind == KIND_CONTENT_RATING then TextCondition(ContentRating, c, v)
      else if r.kind == KIND_TAG then TagCondition(v, c)
      else None
    case Some(TagFilter(vs, c)) => if r.kind == KIND_TAG then TagListCondition(vs, c) else None
  }

  /** A rule without a payload, or with one that its kind has no use for, imposes nothing. */
  lemma MismatchedRules(kind: int, group: int, text: string, number: int, tags: seq<string>, cond: int)
    ensures RuleCondition(Rule(kind, group, None)) == None
    ensures kind !in {5, 6, 7} ==> RuleCondition(Rule(kind, group, Some(IntFilter(number, cond)))) == None
    ensures kind !in {1, 2, 3, 8, 9} ==> RuleCondition(Rule(kind, group, Some(StringFilter(text, cond)))) == None
    ensures RuleCondition(Rule(kind, group, Some(TagFilter(tags, cond)))) ==
              if kind == 9 then TagListCondition(tags, cond) else None
  {
  }

  function Compile(rules: seq<Rule>): (g: seq<Grouped>)
    ensures |g| == |rules|
  {
    seq(|rules|, i requires 0 <= i < |rules| => (rules[i].group, RuleCondition(rules[i])))
  }

  /** What a string rule asks of a nullable column; NULL never passes. */
  predicate TextAsks(cond: int, value: Option<string>, wanted: string, like: (string, string) -> bool) {
    value.Some? && match cond
      case 1 => value.value == wanted
      case 2 => value.value != wanted
      case 3 => like(value.value, wanted)
      case 4 => !like(value.value, wanted)
      case _ => false
  }

  /** What a number rule asks of a nullable column; NULL never passes. */
  predicate NumberAsks(cond: int, value: Option<int>, bound: int) {
    value.Some? && match cond
      case 1 => value.value == bound
      case 2 => value.value != bound
      case 3 => value.value < bound
      case 4 => value.value <= bound
      case 5 => value.value > bound
      case 6 => value.value >= bound
      case _ => false
  }

  /** Single-column rules mean their comparison, and have no condition exactly for an unknown one. */
  lemma ColumnRuleMeaning(kind: int, text: string, number: int, cond: int, group: int, row: Row)
    ensures kind in {5, 6, 7} ==>
      var c := RuleCondition(Rule(kind, group, Some(IntFilter(number, cond))));
      var value := row.num(match kind case 5 => Width case 6 => Height case _ => Size);
      (c.Some? <==> 1 <= cond <= 6) && (c.Some? ==> (Holds(c.value, row) <==> NumberAsks(cond, value, number)))
    ensures kind in {2, 3, 8} ==>
      var c := RuleCondition(Rule(kind, group, Some(StringFilter(text, cond))));
      var column := match kind case 2 => WpType case 3 => LibraryPath case _ => ContentRating;
      var wanted := if kind == 2 then Lower(text) else text;
      && (c.Some? <==> 1 <= cond <= 4)
      && (c.Some? ==> (Holds(c.value, row) <==> TextAsks(cond, row.text(column), wanted, row.like)))
  {
    hide Lower, Holds;
    forall a: Atom ensures Holds(All([Leaf(a)]), row) <==> EvalAtom(a, row) == True {
      SingleLeaf(a, row);
    }
  }

  /** A rating rule that "contains" a text agrees with one that "is" it, on a row, exactly when the row has no
      rating or its rating matches under LIKE just when it is equal; the two negations agree on the same rows. */
  lemma ContainsIsEqualIff(text: string, group: int, row: Row)
    ensures var rating := row.text(ContentRating);
      var agrees := rating.Some? ==> (row.like(rating.value, text) <==> rating.value == text);
      && (RatingRule(text, CONTAINS, group, row) == RatingRule(text, IS, group, row) <==> agrees)
      && (RatingRule(text, CONTAINS_NOT, group, row) == RatingRule(text, IS_NOT, group, row) <==> agrees)
  {
    forall cond: int
      ensures RatingRule(text, cond, group, row) ==
                (1 <= cond <= 4 ==> TextAsks(cond, row.text(ContentRating), text, row.like))
    {
      ColumnRuleMeaning(KIND_CONTENT_RATING, text, 0, cond, group, row);
    }
  }

  /** Whether a rating rule keeps a row. */
  predicate RatingRule(text: string, cond: int, group: int, row: Row) {
    RulePasses(Rule(KIND_CONTENT_RATING, group, Some(StringFilter(text, cond))), row)
  }

  predicate Contains(text: string, part: string) {
    exists i :: 0 <= i <= |text| && part <= text[i..]
  }

  /** A row without tags and without NULLs other than the ones left out. */
  function RowOf(text: map<TextColumn, string>, num: map<IntColumn, int>): Row {
    Row(c => if c in text then Some(text[c]) else None, n => if n in num then Some(num[n]) else None,
        t => false, t => false, (s, part) => Contains(s, part), t => false)
  }

  /** "Everyone 10+" contains "Everyone" and is not "Everyone". */
  lemma ContainsIsNotEqual(group: int)
    ensures var row := RowOf(map[ContentRating := "Everyone 10+"], map[]);
            RatingRule("Everyone", CONTAINS, group, row) && !RatingRule("Everyone", IS, group, row)
  {
    var row := RowOf(map[ContentRating := "Everyone 10+"], map[]);
    var text, part := "Everyone 10+", "Everyone";
    assert text[0..] == text && part <= text;
    assert Contains(text, part);
    ColumnRuleMeaning(KIND_CONTENT_RATING, "Everyone", 0, CONTAINS, group, row);
    ColumnRuleMeaning(KIND_CONTENT_RATING, "Everyone", 0, IS, group, row);
  }

  /** A single-tag rule keeps the rows with the tag, or those without, and has no condition exactly for an unknown
      one; "contains" is the same as "is". */
  lemma TagRuleMeaning(tag: string, cond: int, group: int, row: Row)
    ensures var c := RuleCondition(Rule(KIND_TAG, group, Some(StringFilter(tag, cond))));
      && (c.Some? <==> 1 <= cond <= 4)
      && (cond == 1 || cond == 3 ==> (Holds(c.value, row) <==> row.tagged(tag)))
      && (cond == 2 || cond == 4 ==> (Holds(c.value, row) <==> !row.tagged(tag)))
  {
    SingleLeaf(HasTag(tag), row);
    SingleLeaf(LacksTag(tag), row);
  }

  /** A name rule looks into the index and the tags; "contains not" is the negation of "contains". */
  lemma NameRuleMeaning(text: string, group: int, row: Row)
    ensures var contains := RuleCondition(Rule(KIND_NAME, group, Some(StringFilter(text, CONTAINS))));
      var lacks := RuleCondition(Rule(KIND_NAME, group, Some(StringFilter(text, CONTAINS_NOT))));
      && (contains.None? <==> forall c | c in text :: c in {' ', '\t', '\n', '\r'})
      && (contains.Some? <==> HasTerm(text)) && (lacks.Some? <==> HasTerm(text))
      && (HasTerm(text) ==>
            && (Holds(contains.value, row) <==> row.indexed(text) || row.taggedLike(text))
            && (Holds(lacks.value, row) <==> !Holds(contains.value, row)))
    ensures forall cond: int | cond != CONTAINS && cond != CONTAINS_NOT ::
      var c := RuleCondition(Rule(KIND_NAME, group, Some(StringFilter(text, cond))));
      && (c.Some? <==> cond == 1 || cond == 2)
      && (cond == 1 ==> (Holds(c.value, row) <==> row.text(DisplayName) == Some(text)))
      && (cond == 2 ==> (Holds(c.value, row) <==> row.text(DisplayName).Some? && row.text(DisplayName).value != text))
  {
    SingleLeaf(TextIs(DisplayName, text), row);
    SingleLeaf(TextIsNot(DisplayName, text), row);
    TermMeaning(text);
    var yes := [Leaf(IndexMatches(text)), Leaf(HasTagLike(text))];
    var no := [Leaf(IndexMisses(text)), Leaf(LacksTagLike(text))];
    AnyHolds(yes, row);
    AllHolds(no, row);
    assert yes[0] in yes && yes[1] in yes && no[0] in no && no[1] in no;
    hide HasTerm;
  }

  lemma {:induction false} TagAtomsMeaning(values: seq<string>, wanted: bool, row: Row)
    ensures forall c | c in TagAtoms(values, wanted) ::
      exists t :: t in values && t != "" && c == Leaf(if wanted then HasTag(t) else LacksTag(t))
    ensures forall t | t in values && t != "" ::
      Leaf(if wanted then HasTag(t) else LacksTag(t)) in TagAtoms(values, wanted)
    ensures TagAtoms(values, wanted) == [] <==> forall t | t in values :: t == ""
    decreases |values|
  {
    if values != [] {
      var init, last := values[..|values| - 1], values[|values| - 1];
      TagAtomsMeaning(init, wanted, row);
      assert forall t :: t in values <==> t in init || t == last;
    }
  }

  /** A tag-list rule keeps rows with any of the tags, or with none of them; empty strings do not count, and a
      list without a tag imposes nothing. */
  lemma TagListMeaning(values: seq<string>, row: Row)
    ensures TagListCondition(values, IS).None? <==> forall t | t in values :: t == ""
    ensures TagListCondition(values, IS).Some? ==>
      (Holds(TagListCondition(values, IS).value, row) <==> exists t :: t in values && t != "" && row.tagged(t))
    ensures forall cond: int :: TagListCondition(values, cond).Some? <==>
      1 <= cond <= 4 && exists t :: t in values && t != ""
    ensures TagListCondition(values, CONTAINS) == TagListCondition(values, IS)
    ensures TagListCondition(values, CONTAINS_NOT) == TagListCondition(values, IS_NOT)
    ensures TagListCondition(values, IS_NOT).Some? ==>
      (Holds(TagListCondition(values, IS_NOT).value, row) <==> forall t | t in values && t != "" :: !row.tagged(t))
  {
    TagAtomsMeaning(values, true, row);
    TagAtomsMeaning(values, false, row);
    AnyHolds(TagAtoms(values, true), row);
    AllHolds(TagAtoms(values, false), row);
    assert Holds(Any(TagAtoms(values, true)), row) <==> EvalAny(TagAtoms(values, true), row) == True;
    assert Holds(All(TagAtoms(values, false)), row) <==> EvalAll(TagAtoms(values, false), row) == True;
    forall t: string
      ensures Holds(Leaf(HasTag(t)), row) <==> row.tagged(t)
      ensures Holds(Leaf(LacksTag(t)), row) <==> !row.tagged(t)
    {
      assert EvalAtom(HasTag(t), row) == Lift(row.tagged(t)) && EvalAtom(LacksTag(t), row) == Lift(!row.tagged(t));
    }
    TagListShape(values);
    hide Holds, TagAtoms, EvalAny, EvalAll, TagListCondition;
  }

  lemma TagListShape(values: seq<string>)
    ensures TagListCondition(values, IS).Some? <==> TagAtoms(values, true) != []
    ensures TagListCondition(values, IS).Some? ==>
      && TagListCondition(values, IS) == Some(Any(TagAtoms(values, true)))
      && TagListCondition(values, IS_NOT) == Some(All(TagAtoms(values, false)))
    ensures TagListCondition(values, IS_NOT).Some? <==> TagListCondition(values, IS).Some?
    ensures TagListCondition(values, CONTAINS) == TagListCondition(values, IS)
    ensures TagListCondition(values, CONTAINS_NOT) == TagListCondition(values, IS_NOT)
    ensures forall cond: int :: TagListCondition(values, cond).Some? <==>
      1 <= cond <= 4 && TagListCondition(values, IS).Some?
  {
    hide TagAtoms;
  }

  // ---------------------------------------------------------------
  // The queue filter

  datatype QueueSettings = QueueSettings(
    rules: seq<Rule>, logics: seq<Logic>, skipTypes: seq<string>, filterTags: seq<string>, skipRatings: seq<string>)

  const I32_MAX := 0x7fff_ffff

  /** Groups are 32-bit: counting past the largest wraps around. */
  function Wrap(g: int): int {
    (g + I32_MAX + 1) % (2 * (I32_MAX + 1)) - (I32_MAX + 1)
  }

  function TypeToggle(ty: string): Rule { Rule(KIND_WP_TYPE, 0, Some(StringFilter(ty, IS_NOT))) }
  function TagsToggle(tags: seq<string>): Rule { Rule(KIND_TAG, 0, Some(TagFilter(tags, IS))) }
  function RatingToggle(rating: string): Rule { Rule(KIND_CONTENT_RATING, 0, Some(StringFilter(rating, IS_NOT))) }

  function TypeToggles(types: seq<string>): seq<Rule> {
    seq(|types|, i requires 0 <= i < |types| => TypeToggle(types[i]))
  }

  function RatingToggles(ratings: seq<string>): seq<Rule> {
    seq(|ratings|, i requires 0 <= i < |ratings| => RatingToggle(ratings[i]))
  }

  /** The toggles as rules, not yet in a group. */
  function Toggles(s: QueueSettings): seq<Rule> {
    TypeToggles(s.skipTypes)
      + (if s.filterTags == [] then [] else [TagsToggle(s.filterTags)])
      + RatingToggles(s.skipRatings)
  }

  /** Consecutive toggles get consecutive groups. */
  function Placed(toggles: seq<Rule>, first: int): (rules: seq<Rule>)
    ensures |rules| == |toggles|
  {
    seq(|toggles|, i requires 0 <= i < |toggles| => toggles[i].(group := Wrap(first + i)))
  }

  predicate InRange(rules: seq<Rule>) {
    forall i | 0 <= i < |rules| :: -I32_MAX - 1 <= rules[i].group <= I32_MAX
  }

  /** The group after the largest one in use, or 0. */
  function FirstFree(rules: seq<Rule>): (next: int)
    ensures forall i | 0 <= i < |rules| :: rules[i].group < next
    ensures InRange(rules) ==> -I32_MAX - 1 <= next
  {
    if rules == [] then 0
    else if |rules| == 1 then rules[0].group + 1
    else Max(FirstFree(rules[..|rules| - 1]), rules[|rules| - 1].group + 1)
  }

  method NextGroup(rules: seq<Rule>) returns (next: int)
    ensures next == FirstFree(rules)
  {
    if rules == [] { return 0; }
    var max := rules[0].group;
    for i := 1 to |rules|
      invariant max + 1 == FirstFree(rules[..i])
    {
      assert rules[..i + 1][..i] == rules[..i];
      if rules[i].group > max { max := rules[i].group; }
    }
    assert rules[..|rules|] == rules;
    next := max + 1;
  }

  /** Appends one toggle under the current group and moves on to the next. */
  method AddToggle(rules: seq<Rule>, group: int, t: Rule, ghost user: seq<Rule>, ghost done: seq<Rule>,
                   ghost first: int)
    returns (rules': seq<Rule>, group': int)
    requires rules == user + Placed(done, first) && group == Wrap(first + |done|)
    ensures rules' == user + Placed(done + [t], first) && group' == Wrap(first + |done + [t]|)
  {
    assert Placed(done + [t], first) == Placed(done, first) + [t.(group := Wrap(first + |done|))];
    rules' := rules + [t.(group := group)];
    group' := Wrap(group + 1);
  }

  lemma NoToggles(s: QueueSettings)
    ensures TypeToggles(s.skipTypes[..0]) == [] && RatingToggles(s.skipRatings[..0]) == []
  {
  }

  lemma TogglesOneMore(s: QueueSettings, i: nat)
    ensures i < |s.skipTypes| ==>
      TypeToggles(s.skipTypes[..i + 1]) == TypeToggles(s.skipTypes[..i]) + [TypeToggle(s.skipTypes[i])]
    ensures i < |s.skipRatings| ==>
      RatingToggles(s.skipRatings[..i + 1]) == RatingToggles(s.skipRatings[..i]) + [RatingToggle(s.skipRatings[i])]
  {
  }

  /** The user's rules followed by one rule per quick toggle, each in a group of its own after the largest. */
  method WallpaperQueueFilter(s: QueueSettings) returns (rules: seq<Rule>, logics: seq<Logic>)
    requires InRange(s.rules)
    ensures rules == s.rules + Placed(Toggles(s), FirstFree(s.rules)) && logics == s.logics
  {
    var next := NextGroup(s.rules);
    ghost var first := next;
    var group := Wrap(next);
    rules, logics := s.rules, s.logics;
    assert s.rules + Placed([], first) == s.rules;
    hide Placed, Wrap, TypeToggles, RatingToggles, FirstFree, TypeToggle, RatingToggle, TagsToggle;
    NoToggles(s);
    for i := 0 to |s.skipTypes|
      invariant rules == s.rules + Placed(TypeToggles(s.skipTypes[..i]), first)
      invariant group == Wrap(first + |TypeToggles(s.skipTypes[..i])|)
    {
      TogglesOneMore(s, i);
      ghost var so := TypeToggles(s.skipTypes[..i]);
      rules, group := AddToggle(rules, group, TypeToggle(s.skipTypes[i]), s.rules, so, first);
    }
    assert s.skipTypes[..|s.skipTypes|] == s.skipTypes;
    ghost var done := TypeToggles(s.skipTypes);
    if s.filterTags != [] {
      rules, group := AddToggle(rules, group, TagsToggle(s.filterTags), s.rules, done, first);
      done := done + [TagsToggle(s.filterTags)];
    }
    assert done + [] == done;
    for i := 0 to |s.skipRatings|
      invariant rules == s.rules + Placed(done + RatingToggles(s.skipRatings[..i]), first)
      invariant group == Wrap(first + |done + RatingToggles(s.skipRatings[..i])|)
    {
      TogglesOneMore(s, i);
      ghost var so := done + RatingToggles(s.skipRatings[..i]);
      rules, group := AddToggle(rules, group, RatingToggle(s.skipRatings[i]), s.rules, so, first);
      assert so + [RatingToggle(s.skipRatings[i])] == done + RatingToggles(s.skipRatings[..i + 1]);
    }
    assert s.skipRatings[..|s.skipRatings|] == s.skipRatings;
    assert done + RatingToggles(s.skipRatings) == Toggles(s);
  }

  /** What the quick toggles ask of a row. A row without a type or rating does not pass a toggle on it. */
  ghost predicate PassesToggles(s: QueueSettings, row: Row) {
    && (forall ty | ty in s.skipTypes :: row.text(WpType).Some? && row.text(WpType).value != Lower(ty))
    && ((exists t :: t in s.filterTags && t != "") ==> exists t :: t in s.filterTags && t != "" && row.tagged(t))
    && (forall r | r in s.skipRatings :: row.text(ContentRating).Some? && row.text(ContentRating).value != r)
  }

  predicate RulePasses(r: Rule, row: Row) {
    RuleCondition(r).Some? ==> Holds(RuleCondition(r).value, row)
  }

  lemma ToggleMeaning(text: string, tags: seq<string>, row: Row)
    ensures RulePasses(TypeToggle(text), row) <==> row.text(WpType).Some? && row.text(WpType).value != Lower(text)
    ensures RulePasses(RatingToggle(text), row) <==>
              row.text(ContentRating).Some? && row.text(ContentRating).value != text
    ensures RulePasses(TagsToggle(tags), row) <==>
      ((exists t :: t in tags && t != "") ==> exists t :: t in tags && t != "" && row.tagged(t))
  {
    SingleLeaf(TextIsNot(WpType, Lower(text)), row);
    SingleLeaf(TextIsNot(ContentRating, text), row);
    TagListMeaning(tags, row);
  }

  lemma SingleLeaf(a: Atom, row: Row)
    ensures Holds(All([Leaf(a)]), row) <==> EvalAtom(a, row) == True
  {
    AllHolds([Leaf(a)], row);
    assert Leaf(a) in [Leaf(a)];
    assert Holds(Leaf(a), row) <==> EvalAtom(a, row) == True;
  }

  lemma TogglesMeaning(s: QueueSettings, row: Row)
    ensures (forall r | r in Toggles(s) :: RulePasses(r, row)) <==> PassesToggles(s, row)
  {
    hide RulePasses, Lower;
    forall t: string
      ensures RulePasses(TypeToggle(t), row) <==> row.text(WpType).Some? && row.text(WpType).value != Lower(t)
      ensures RulePasses(RatingToggle(t), row) <==> row.text(ContentRating).Some? && row.text(ContentRating).value != t
    {
      ToggleMeaning(t, [], row);
    }
    ToggleMeaning("", s.filterTags, row);
    ToggleMembers(s);
    if s.filterTags != [] { assert TagsToggle(s.filterTags) in Toggles(s); }
    hide TypeToggle, RatingToggle, TagsToggle, Toggles;
  }

  lemma ToggleMembers(s: QueueSettings)
    ensures forall t | t in s.skipTypes :: TypeToggle(t) in Toggles(s)
    ensures forall t | t in s.skipRatings :: RatingToggle(t) in Toggles(s)
    ensures forall r | r in Toggles(s) ::
      || (exists t :: t in s.skipTypes && r == TypeToggle(t))
      || (s.filterTags != [] && r == TagsToggle(s.filterTags))
      || (exists t :: t in s.skipRatings && r == RatingToggle(t))
  {
    forall t | t in s.skipTypes ensures TypeToggle(t) in Toggles(s) {
      var i :| 0 <= i < |s.skipTypes| && s.skipTypes[i] == t;
      assert TypeToggles(s.skipTypes)[i] == TypeToggle(t);
    }
    forall t | t in s.skipRatings ensures RatingToggle(t) in Toggles(s) {
      var i :| 0 <= i < |s.skipRatings| && s.skipRatings[i] == t;
      assert RatingToggles(s.skipRatings)[i] == RatingToggle(t);
    }
  }

  /** The groups after the largest one still fit 32 bits, so no toggle's group wraps around. */
  predicate Fits(s: QueueSettings) {
    FirstFree(s.rules) + |Toggles(s)| <= I32_MAX + 1
  }

  /** Group numbers are kept to 32 bits by leaving out whole multiples of 2^32. */
  lemma WrapMeaning(g: int)
    ensures -0x8000_0000 <= Wrap(g) <= 0x7fff_ffff && (Wrap(g) - g) % 0x1_0000_0000 == 0
  {
  }

  /** That is exactly when each toggle has the group that was counted for it. */
  lemma FitsMeaning(s: QueueSettings)
    requires InRange(s.rules)
    ensures Fits(s) <==> forall i | 0 <= i < |Folded(s)| :: Folded(s)[i].group == FirstFree(s.rules) + i
  {
    FirstFreeFits(s.rules);
    hide Toggles, FirstFree;
    var n := |Toggles(s)|;
    if n > 0 && !Fits(s) {
      WrapMeaning(FirstFree(s.rules) + (n - 1));
      assert Folded(s)[n - 1].group != FirstFree(s.rules) + (n - 1);
    }
    if Fits(s) {
      forall i | 0 <= i < |Folded(s)| ensures Folded(s)[i].group == FirstFree(s.rules) + i {
        var g: int := FirstFree(s.rules) + i + I32_MAX + 1;
        assert 0 <= g < 2 * (I32_MAX + 1);
      }
    }
  }

  lemma {:induction false} FirstFreeFits(rules: seq<Rule>)
    requires InRange(rules)
    ensures -I32_MAX - 1 <= FirstFree(rules) <= I32_MAX + 1
    decreases |rules|
  {
    if |rules| > 1 { FirstFreeFits(rules[..|rules| - 1]); }
  }

  /** The toggles as the queue filter places them. */
  function Folded(s: QueueSettings): seq<Rule> {
    Placed(Toggles(s), FirstFree(s.rules))
  }

  lemma PlacedGroups(s: QueueSettings)
    requires InRange(s.rules) && Fits(s)
    ensures forall g | g in Groups(Compile(Folded(s))) :: FirstFree(s.rules) <= g < FirstFree(s.rules) + |Toggles(s)|
    ensures forall g | g in Groups(Compile(s.rules)) :: g < FirstFree(s.rules)
  {
    var first := FirstFree(s.rules);
    hide RuleCondition, Toggles, FirstFree;
    var placed := Folded(s);
    forall i | 0 <= i < |placed| ensures placed[i].group == first + i {
      var n: int := first + i + I32_MAX + 1;
      assert 0 <= n < 2 * (I32_MAX + 1);
    }
    forall r | r in Compile(placed) ensures first <= r.0 < first + |Toggles(s)| {
      var i :| 0 <= i < |placed| && Compile(placed)[i] == r;
    }
    forall r | r in Compile(s.rules) ensures r.0 < first {
      var i :| 0 <= i < |s.rules| && Compile(s.rules)[i] == r;
    }
  }

  lemma PlacedConditions(toggles: seq<Rule>, first: int, row: Row)
    ensures (forall c | c in Compile(Placed(toggles, first)) && c.1.Some? :: Holds(c.1.value, row)) <==>
              forall r | r in toggles :: RulePasses(r, row)
  {
    hide Holds, Wrap;
    var compiled := Compile(Placed(toggles, first));
    forall i | 0 <= i < |toggles| ensures compiled[i].1 == RuleCondition(toggles[i]) {
      SameCondition(toggles[i], Wrap(first + i));
    }
    hide RuleCondition;
    if forall c | c in compiled && c.1.Some? :: Holds(c.1.value, row) {
      forall r | r in toggles ensures RulePasses(r, row) {
        var i :| 0 <= i < |toggles| && toggles[i] == r;
        assert compiled[i] in compiled;
      }
    }
    if forall r | r in toggles :: RulePasses(r, row) {
      forall c | c in compiled && c.1.Some? ensures Holds(c.1.value, row) {
        var i :| 0 <= i < |compiled| && compiled[i] == c;
        assert toggles[i] in toggles;
      }
    }
  }

  lemma SameCondition(r: Rule, g: int)
    ensures RuleCondition(r.(group := g)) == RuleCondition(r)
  {
  }

  /** The user's filter with the toggles folded in, and what it was meant to be. */
  ghost predicate FoldedKeeps(s: QueueSettings, row: Row) {
    var all := Compile(s.rules + Folded(s));
    Keeps(Groups(all), s.logics, Truth(all, row))
  }

  ghost predicate Intended(s: QueueSettings, row: Row) {
    var user := Compile(s.rules);
    Keeps(Groups(user), s.logics, Truth(user, row)) && PassesToggles(s, row)
  }

  /** The check on the logic pairs: they force each toggle's group, and of the user's the same ones as before. */
  ghost predicate PairsAllow(s: QueueSettings) {
    ForcesOnlyExtra(Groups(Compile(s.rules)), Groups(Compile(Folded(s))), s.logics)
  }

  /** The folded filter keeps exactly the rows that the user's filter keeps and every toggle lets pass, provided
      the logic pairs force no more and no less than that. */
  lemma QueueMeaning(s: QueueSettings, row: Row)
    requires InRange(s.rules) && Fits(s) && PairsAllow(s)
    ensures FoldedKeeps(s, row) <==> Intended(s, row)
  {
    var user, extra := Compile(s.rules), Compile(Folded(s));
    PlacedGroups(s);
    assert Compile(s.rules + Folded(s)) == user + extra;
    hide Keeps, PassesToggles, Truth, Groups, ForcesOnlyExtra, Holds, Toggles, Placed, Compile, RulePasses, FirstFree;
    FoldingIsConjunctionIff(Groups(user), Groups(extra), s.logics);
    FoldedMeaning(user, extra, s.logics, row);
    PlacedConditions(Toggles(s), FirstFree(s.rules), row);
    TogglesMeaning(s, row);
  }

  /** No logic pair names a group that a toggle gets. */
  predicate Unnamed(s: QueueSettings) {
    var (first, n) := (FirstFree(s.rules), |Toggles(s)|);
    forall l | l in s.logics :: !(first <= l.a < first + n) && !(first <= l.b < first + n)
  }

  lemma QueueMeaningUnnamed(s: QueueSettings, row: Row)
    requires InRange(s.rules) && Fits(s) && Unnamed(s)
    ensures FoldedKeeps(s, row) <==> Intended(s, row)
  {
    hide Keeps, PassesToggles, Truth, Groups, Toggles, Placed, Compile, Forced, FirstFree, Folded;
    var user, extra := Groups(Compile(s.rules)), Groups(Compile(Folded(s)));
    PlacedGroups(s);
    assert user !! extra by {
      forall g | g in user ensures g !in extra {
        assert g < FirstFree(s.rules);
      }
    }
    UnnamedGroupsFold(user, extra, s.logics);
    FoldingIsConjunctionIff(user, extra, s.logics);
    QueueMeaning(s, row);
  }

  // ---------------------------------------------------------------
  // From stored rules to a condition

  method RuleToCondition(r: Rule) returns (c: Option<Condition>)
    ensures c == RuleCondition(r)
  {
    match r.payload {
      case Some(TagFilter(vs, cond)) =>
        if r.kind != KIND_TAG { return None; }
        c := BuildTagListCondition(vs, cond);
      case _ => c := RuleCondition(r);
    }
  }

  /** Without a condition every row is kept. */
  predicate RowKept(c: Option<Condition>, row: Row) {
    c.Some? ==> Holds(c.value, row)
  }

  method WallpaperFiltersToCondition(rules: seq<Rule>, logics: seq<Logic>) returns (c: Option<Condition>)
    ensures forall row: Row :: RowKept(c, row) <==> Keeps(Groups(Compile(rules)), logics, Truth(Compile(rules), row))
  {
    hide RuleCondition, Keeps, Truth, Groups, Holds;
    var grouped: seq<Grouped> := [];
    for i := 0 to |rules|
      invariant grouped == Compile(rules[..i])
    {
      var condition := RuleToCondition(rules[i]);
      assert Compile(rules[..i + 1]) == Compile(rules[..i]) + [(rules[i].group, condition)];
      grouped := grouped + [(rules[i].group, condition)];
    }
    assert rules[..|rules|] == rules;
    c := BuildGroupedCondition(grouped, logics);
    if c.None? {
      forall row: Row ensures Keeps(Groups(grouped), logics, Truth(grouped, row)) {
        NoGroupsKeepAll(logics, Truth(grouped, row));
      }
    }
  }

  lemma NoGroupsKeepAll(logics: seq<Logic>, v: int -> bool)
    ensures Keeps({}, logics, v)
  {
  }

  /** The queue's condition as a whole. It keeps the rows that the user's filter keeps and every quick toggle lets
      pass, as long as the logic pairs force what they should; in particular when none names a toggle's group. */
  method QueueCondition(s: QueueSettings) returns (c: Option<Condition>)
    requires InRange(s.rules)
    ensures forall row: Row :: RowKept(c, row) <==> FoldedKeeps(s, row)
    ensures Fits(s) && (Unnamed(s) || PairsAllow(s)) ==> forall row: Row :: RowKept(c, row) <==> Intended(s, row)
  {
    hide Keeps, Truth, Groups, Compile, PassesToggles, Placed, Toggles, Holds, RowKept, FirstFree, Fits, Unnamed,
      PairsAllow;
    var rules, logics := WallpaperQueueFilter(s);
    c := WallpaperFiltersToCondition(rules, logics);
    if Fits(s) && (Unnamed(s) || PairsAllow(s)) {
      forall row: Row ensures RowKept(c, row) <==> Intended(s, row) {
        if Unnamed(s) { QueueMeaningUnnamed(s, row); } else { QueueMeaning(s, row); }
      }
    }
  }

  /** Every group can fail on its own: some row satisfies the rules of all other groups and not those of this one. */
  ghost predicate Independent(rules: seq<Grouped>) {
    forall g | g in Groups(rules) :: exists row: Row :: FailsOnly(rules, g, row)
  }

  ghost predicate FailsOnly(rules: seq<Grouped>, g: int, row: Row) {
    forall x | x in Groups(rules) :: GroupHolds(rules, x, row) <==> x != g
  }

  /** Over rows, too, the check on the pairs is the exact condition, when no group follows from the others. */
  lemma IntendedIff(s: QueueSettings)
    requires InRange(s.rules) && Fits(s) && Independent(Compile(s.rules + Folded(s)))
    ensures (forall row: Row :: FoldedKeeps(s, row) <==> Intended(s, row)) <==> PairsAllow(s)
  {
    if PairsAllow(s) {
      forall row: Row ensures FoldedKeeps(s, row) <==> Intended(s, row) {
        QueueMeaning(s, row);
      }
    }
    if forall row: Row :: FoldedKeeps(s, row) <==> Intended(s, row) {
      var user, extra := Groups(Compile(s.rules)), Groups(Compile(Folded(s)));
      forall g ensures Forced(user + extra, s.logics, g) <==> Forced(user, s.logics, g) || g in extra {
        if g in user + extra { ForcedByRow(s, g); }
      }
    }
  }

  /** A row that fails one group alone shows whether the group is forced. */
  lemma ForcedByRow(s: QueueSettings, g: int)
    requires InRange(s.rules) && Fits(s) && Independent(Compile(s.rules + Folded(s)))
    requires forall row: Row :: FoldedKeeps(s, row) <==> Intended(s, row)
    requires g in Groups(Compile(s.rules)) + Groups(Compile(Folded(s)))
    ensures var user, extra := Groups(Compile(s.rules)), Groups(Compile(Folded(s)));
            Forced(user + extra, s.logics, g) <==> Forced(user, s.logics, g) || g in extra
  {
    var rules, toggles := Compile(s.rules), Compile(Folded(s));
    var all := Compile(s.rules + Folded(s));
    PlacedGroups(s);
    assert all == rules + toggles;
    FoldedTruth(rules, toggles, Video());
    var row := FailingRow(all, g);
    assert FoldedKeeps(s, row) <==> Intended(s, row);
    assert FoldedKeeps(s, row) <==> Keeps(Groups(all), s.logics, Truth(all, row));
    assert Intended(s, row) <==> Keeps(Groups(rules), s.logics, Truth(rules, row)) && PassesToggles(s, row);
    hide *;
    WhatOneRowShows(rules, toggles, s.logics, g, row);
    PlacedConditions(Toggles(s), FirstFree(s.rules), row);
    TogglesMeaning(s, row);
  }

  ghost function FailingRow(rules: seq<Grouped>, g: int): (row: Row)
    requires Independent(rules) && g in Groups(rules)
    ensures FailsOnly(rules, g, row)
  {
    var row :| FailsOnly(rules, g, row);
    row
  }

  lemma WhatOneRowShows(rules: seq<Grouped>, toggles: seq<Grouped>, logics: seq<Logic>, g: int, row: Row)
    requires Groups(rules) !! Groups(toggles) && FailsOnly(rules + toggles, g, row)
    ensures Keeps(Groups(rules + toggles), logics, Truth(rules + toggles, row)) <==>
      !Forced(Groups(rules) + Groups(toggles), logics, g)
    ensures Keeps(Groups(rules), logics, Truth(rules, row)) <==> !Forced(Groups(rules), logics, g)
    ensures (forall t | t in toggles && t.1.Some? :: Holds(t.1.value, row)) <==> g !in Groups(toggles)
  {
    hide Keeps, Forced, Holds;
    FoldedTruth(rules, toggles, row);
    SameOnGroups(Groups(rules + toggles), logics, Truth(rules + toggles, row), x => x != g);
    SameOnGroups(Groups(rules), logics, Truth(rules, row), x => x != g);
    OneFalse(Groups(rules) + Groups(toggles), logics, g);
    OneFalse(Groups(rules), logics, g);
    EachGroupHolds(toggles, row);
  }

  lemma EachGroupHolds(rules: seq<Grouped>, row: Row)
    ensures (forall g | g in Groups(rules) :: GroupHolds(rules, g, row)) <==>
              forall r | r in rules && r.1.Some? :: Holds(r.1.value, row)
  {
    hide Holds;
    forall r | r in rules && r.1.Some?
      ensures r.0 in Groups(rules) && (GroupHolds(rules, r.0, row) ==> Holds(r.1.value, row))
    {
    }
  }

  lemma SameOnGroups(present: set<int>, logics: seq<Logic>, v: int -> bool, w: int -> bool)
    requires forall g | g in present :: v(g) <==> w(g)
    ensures Keeps(present, logics, v) <==> Keeps(present, logics, w)
  {
  }

  // ---------------------------------------------------------------
  // A toggle that is captured

  /** Wallpapers of any width, or those of group 1, of which there are none yet; videos are to be skipped. */
  function Dangling(): QueueSettings {
    QueueSettings([Rule(KIND_WIDTH, 0, Some(IntFilter(0, 6)))], [Logic(LOGIC_OP_OR, 0, 1)], ["video"], [], [])
  }

  function Video(): Row {
    RowOf(map[WpType := "video"], map[Width := 1920])
  }

  lemma DanglingRules()
    ensures var s := Dangling();
      && InRange(s.rules)
      && s.rules + Folded(s) == [s.rules[0], Rule(KIND_WP_TYPE, 1, Some(StringFilter("video", IS_NOT)))]
  {
    var s := Dangling();
    assert TypeToggles(s.skipTypes) == [TypeToggle("video")];
    assert Toggles(s) == [TypeToggle("video")];
    assert FirstFree(s.rules) == 1 && Wrap(1) == 1;
    assert Placed(Toggles(s), 1) == [Rule(KIND_WP_TYPE, 1, Some(StringFilter("video", IS_NOT)))];
  }

  lemma VideoIsKept()
    ensures InRange(Dangling().rules) && FoldedKeeps(Dangling(), Video()) && !PassesToggles(Dangling(), Video())
  {
    var s, row := Dangling(), Video();
    DanglingRules();
    var wide, skip := s.rules[0], Rule(KIND_WP_TYPE, 1, Some(StringFilter("video", IS_NOT)));
    ColumnRuleMeaning(KIND_WIDTH, "", 0, 6, 0, row);
    VideoIsSkipped();
    hide Lower, Folded, Holds;
    var (a, b) := ((0, RuleCondition(wide)), (1, RuleCondition(skip)));
    var all := Compile([wide, skip]);
    assert all == [a, b];
    assert a in all && b in all && a.1.Some? && b.1.Some?;
    assert Groups(all) == {0, 1};
    assert GroupHolds(all, 0, row);
    var l := Logic(LOGIC_OP_OR, 0, 1);
    assert l in s.logics && Effective({0, 1}, l);
  }

  lemma VideoIsSkipped()
    ensures !PassesToggles(Dangling(), Video()) &&
      RuleCondition(Rule(KIND_WP_TYPE, 1, Some(StringFilter("video", IS_NOT)))).Some?
  {
    assert Lower("video") == "video";
    assert "video" in Dangling().skipTypes;
  }

  /** The compiled queue filter keeps a video although videos are skipped: the skip took group 1. */
  method ToggleCaptured() returns (c: Option<Condition>)
    ensures RowKept(c, Video()) && !PassesToggles(Dangling(), Video())
  {
    c := QueueCondition(Dangling());
    VideoIsKept();
  }
}
