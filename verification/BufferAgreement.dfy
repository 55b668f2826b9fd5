/** A producer's pool describes its formats on the wire, the daemon unpacks them and picks, and the pool
    judges the directive it gets back: `bridge/src/bridge.c`, `src/dma/negotiate.rs`, `bridge/src/pool.c`. */
module BufferAgreement {
  import opened Common
  import opened Errno
  import opened Bytes
  import opened Negotiation
  import opened MessageSizes
  import Framing

  /** One (fourcc, modifier, planes) tuple the producer can allocate. */
  datatype Entry = Entry(fourcc: nat, modifier: nat, planes: nat)

  // ---------------------------------------------------------------
  // Flattening: contiguous runs of one fourcc become (fourcc, count)

  datatype Run = Run(fourcc: nat, count: nat)

  /** One more entry either lengthens the last run or starts a new one. */
  function Grown(runs: seq<Run>, f: nat): seq<Run> {
    if runs != [] && runs[|runs| - 1].fourcc == f
    then runs[|runs| - 1 := Run(f, runs[|runs| - 1].count + 1)]
    else runs + [Run(f, 1)]
  }

  /** The run-length form of an entry list's fourccs. */
  function Runs(es: seq<Entry>): seq<Run> {
    if es == [] then [] else Grown(Runs(es[..|es| - 1]), es[|es| - 1].fourcc)
  }

  function Fourccs(runs: seq<Run>): seq<nat> { seq(|runs|, i requires 0 <= i < |runs| => runs[i].fourcc) }
  function Counts(runs: seq<Run>): seq<nat> { seq(|runs|, i requires 0 <= i < |runs| => runs[i].count) }
  function Modifiers(es: seq<Entry>): seq<nat> { seq(|es|, i requires 0 <= i < |es| => es[i].modifier) }
  function Planes(es: seq<Entry>): seq<nat> { seq(|es|, i requires 0 <= i < |es| => es[i].planes) }

  /** The entries that survive the `uint32_t` count. */
  function Advertised(es: seq<Entry>): seq<Entry> {
    es[..|es| % U32_LIMIT]
  }

  /** The two scratch arrays hold a run-length form. */
  ghost predicate Holds(fourccs: array<nat>, modCounts: array<nat>, runs: seq<Run>)
    reads fourccs, modCounts
  {
    && |runs| <= fourccs.Length && |runs| <= modCounts.Length
    && (forall k | 0 <= k < |runs| :: fourccs[k] == runs[k].fourcc)
    && (forall k | 0 <= k < |runs| :: modCounts[k] == runs[k].count)
  }

  method AddToRuns(f: nat, runCount: nat, fourccs: array<nat>, modCounts: array<nat>, ghost runs: seq<Run>)
    returns (runCount': nat)
    requires fourccs != modCounts && Holds(fourccs, modCounts, runs) && runCount == |runs|
    requires runCount < fourccs.Length && runCount < modCounts.Length
    modifies fourccs, modCounts
    ensures Holds(fourccs, modCounts, Grown(runs, f)) && runCount' == |Grown(runs, f)|
  {
    if runCount == 0 || fourccs[runCount - 1] != f {
      fourccs[runCount] := f;
      modCounts[runCount] := 1;
      return runCount + 1;
    } else {
      modCounts[runCount - 1] := modCounts[runCount - 1] + 1;
      return runCount;
    }
  }

  /** Walks the advertised entries once, filling the caller's scratch arrays; each holds at least one slot per entry. */
  method FillFormatCaps(es: seq<Entry>, fourccs: array<nat>, modCounts: array<nat>, modifiers: array<nat>,
                        planes: array<nat>)
    returns (runCount: nat, n: nat)
    requires fourccs.Length >= |es| && modCounts.Length >= |es| && modifiers.Length >= |es| && planes.Length >= |es|
    requires fourccs != modCounts && fourccs != modifiers && fourccs != planes
    requires modCounts != modifiers && modCounts != planes && modifiers != planes
    modifies fourccs, modCounts, modifiers, planes
    ensures n == |Advertised(es)| && runCount == |Runs(Advertised(es))| <= n
    ensures Holds(fourccs, modCounts, Runs(Advertised(es)))
    ensures forall k | 0 <= k < n :: modifiers[k] == es[k].modifier
    ensures forall k | 0 <= k < n :: planes[k] == es[k].planes
  {
    n := |es| % U32_LIMIT;
    runCount := 0;
    for i := 0 to n
      invariant runCount == |Runs(es[..i])| <= i
      invariant Holds(fourccs, modCounts, Runs(es[..i]))
      invariant forall k | 0 <= k < i :: modifiers[k] == es[k].modifier
      invariant forall k | 0 <= k < i :: planes[k] == es[k].planes
    {
      modifiers[i] := es[i].modifier;
      planes[i] := es[i].planes;
      RunsGrow(es, i);
      runCount := AddToRuns(es[i].fourcc, runCount, fourccs, modCounts, Runs(es[..i]));
    }
  }

  lemma RunsGrow(es: seq<Entry>, i: nat)
    requires i < |es|
    ensures Runs(es[..i + 1]) == Grown(Runs(es[..i]), es[i].fourcc)
  {
    assert es[..i + 1][..i] == es[..i];
  }

  // ---------------------------------------------------------------
  // Unflattening

  function Sum(counts: seq<nat>): nat {
    if counts == [] then 0 else Sum(counts[..|counts| - 1]) + counts[|counts| - 1]
  }

  /** The entry list that parallel arrays denote. */
  function Expand(fourccs: seq<nat>, counts: seq<nat>, modifiers: seq<nat>, planes: seq<nat>): (es: seq<Entry>)
    requires |fourccs| == |counts| && Sum(counts) <= |modifiers| && Sum(counts) <= |planes|
    ensures |es| == Sum(counts)
  {
    if counts == [] then []
    else
      var k := |counts| - 1;
      var base := Sum(counts[..k]);
      Expand(fourccs[..k], counts[..k], modifiers, planes)
        + RunEntries(fourccs[k], counts[k], base, modifiers, planes)
  }

  /** The entries of one run, whose modifiers and plane counts start at `base`. */
  function RunEntries(f: nat, n: nat, base: nat, modifiers: seq<nat>, planes: seq<nat>): (es: seq<Entry>)
    requires base + n <= |modifiers| && base + n <= |planes|
    ensures |es| == n
  {
    seq(n, j requires 0 <= j < n => Entry(f, modifiers[base + j], planes[base + j]))
  }

  /** The capabilities a list of entries gives one fourcc, in list order. */
  function CapsOf(es: seq<Entry>, fourcc: nat): seq<ModCap> {
    if es == [] then []
    else
      var e := es[|es| - 1];
      CapsOf(es[..|es| - 1], fourcc) + if e.fourcc == fourcc then [ModCap(e.modifier, e.planes)] else []
  }

  /** Every listed fourcc, even one with no modifiers, maps to its capabilities in list order. */
  ghost predicate Denotes(formats: FormatCaps, fourccs: seq<nat>, es: seq<Entry>) {
    formats.Keys == Elements(fourccs) && forall f | f in formats :: formats[f] == CapsOf(es, f)
  }

  method SumCounts(counts: seq<nat>) returns (total: nat)
    ensures total == Sum(counts)
  {
    total := 0;
    for i := 0 to |counts|
      invariant total == Sum(counts[..i])
    {
      assert counts[..i + 1][..i] == counts[..i];
      total := total + counts[i];
    }
    assert counts[..|counts|] == counts;
  }

  lemma {:induction false} CapsOfConcat(a: seq<Entry>, b: seq<Entry>, f: nat)
    ensures CapsOf(a + b, f) == CapsOf(a, f) + CapsOf(b, f)
    decreases |b|
  {
    if b == [] {
      assert a + b == a;
    } else {
      var init := b[..|b| - 1];
      assert (a + b)[..|a + b| - 1] == a + init;
      CapsOfConcat(a, init, f);
    }
  }

  lemma {:induction false} CapsOfRun(es: seq<Entry>, fourcc: nat, caps: seq<ModCap>)
    requires |es| == |caps|
    requires forall j | 0 <= j < |es| :: es[j] == Entry(fourcc, caps[j].modifier, caps[j].planes)
    ensures forall f :: CapsOf(es, f) == if f == fourcc then caps else []
    decreases |es|
  {
    if es != [] {
      var n := |es| - 1;
      CapsOfRun(es[..n], fourcc, caps[..n]);
      assert caps == caps[..n] + [caps[n]];
    }
  }

  lemma {:induction false} ExpandPrefix(fourccs: seq<nat>, counts: seq<nat>, modifiers: seq<nat>, planes: seq<nat>,
                                       k: nat)
    requires |fourccs| == |counts| && Sum(counts) <= |modifiers| && Sum(counts) <= |planes| && k < |counts|
    ensures Sum(counts[..k]) + counts[k] == Sum(counts[..k + 1]) <= Sum(counts)
    decreases |counts|
  {
    assert counts[..k + 1][..k] == counts[..k];
    if k + 1 < |counts| {
      var n := |counts| - 1;
      assert counts[..n][..k] == counts[..k] && counts[..n][..k + 1] == counts[..k + 1];
      ExpandPrefix(fourccs[..n], counts[..n], modifiers, planes, k);
    } else {
      assert counts[..k + 1] == counts;
    }
  }

  /** Wire arrays as they arrive: each word is an unsigned 32- or 64-bit value. */
  datatype WireCaps = WireCaps(
    fourccs: seq<nat>, modCounts: seq<nat>, modifiers: seq<nat>, planes: seq<nat>,
    deviceUuid: seq<u32>, driverUuid: seq<u32>, drm: DrmNode,
    sync: bv32, color: bv32, memHint: bv32, extentMax: (nat, nat))

  predicate WellFormed(w: WireCaps) {
    && |w.fourccs| == |w.modCounts|
    && |w.modifiers| == Sum(w.modCounts) == |w.planes|
    && |w.deviceUuid| == 4 == |w.driverUuid|
  }

  /** The first thing wrong with malformed arrays. */
  function FirstFault(w: WireCaps): CapsFault
    requires !WellFormed(w)
  {
    if |w.fourccs| != |w.modCounts| then CountsDiffer
    else if |w.modifiers| != Sum(w.modCounts) then ModifiersDiffer
    else if |w.planes| != Sum(w.modCounts) then PlanesDiffer
    else BadUuid
  }

  function PackUuid(words: seq<u32>): (b: Uuid)
    requires |words| == 4
  {
    U32Bytes(words[0]) + U32Bytes(words[1]) + U32Bytes(words[2]) + U32Bytes(words[3])
  }

  /** Succeeds exactly on well-formed arrays, or names the first fault; yields what they denote, with an empty
      blacklist. */
  method UnflattenCaps(w: WireCaps) returns (r: Result<PeerCaps>)
    ensures !WellFormed(w) ==> r == Err(MalformedCaps(FirstFault(w)))
    ensures WellFormed(w) ==>
      && r.Ok?
      && Denotes(r.value.formats, w.fourccs, Expand(w.fourccs, w.modCounts, w.modifiers, w.planes))
      && r.value == PeerCaps(r.value.formats, DeviceIdentity(PackUuid(w.deviceUuid), PackUuid(w.driverUuid), w.drm),
                             w.sync, w.color, w.memHint, w.extentMax, {})
  {
    if |w.fourccs| != |w.modCounts| { return Err(MalformedCaps(CountsDiffer)); }
    var total := SumCounts(w.modCounts);
    if |w.modifiers| != total { return Err(MalformedCaps(ModifiersDiffer)); }
    if |w.planes| != total { return Err(MalformedCaps(PlanesDiffer)); }
    if |w.deviceUuid| != 4 || |w.driverUuid| != 4 { return Err(MalformedCaps(BadUuid)); }

    var formats: FormatCaps := map[];
    var cursor := 0;
    for i := 0 to |w.fourccs|
      invariant cursor == Sum(w.modCounts[..i]) <= total
      invariant Denotes(formats, w.fourccs[..i], Expand(w.fourccs[..i], w.modCounts[..i], w.modifiers, w.planes))
    {
      var n := w.modCounts[i];
      ExpandPrefix(w.fourccs, w.modCounts, w.modifiers, w.planes, i);
      var caps := TakeCaps(w.modifiers, w.planes, cursor, n);
      var fourcc := w.fourccs[i];
      DenotesStep(w, i, caps, formats);
      cursor := cursor + n;
      formats := formats[fourcc := (if fourcc in formats then formats[fourcc] else []) + caps];
    }
    assert w.fourccs[..|w.fourccs|] == w.fourccs && w.modCounts[..|w.fourccs|] == w.modCounts;
    return Ok(PeerCaps(formats, DeviceIdentity(PackUuid(w.deviceUuid), PackUuid(w.driverUuid), w.drm),
                       w.sync, w.color, w.memHint, w.extentMax, {}));
  }

  method TakeCaps(modifiers: seq<nat>, planes: seq<nat>, cursor: nat, n: nat) returns (caps: seq<ModCap>)
    requires cursor + n <= |modifiers| && cursor + n <= |planes|
    ensures |caps| == n && forall k | 0 <= k < n :: caps[k] == ModCap(modifiers[cursor + k], planes[cursor + k])
  {
    caps := [];
    for j := 0 to n
      invariant |caps| == j
      invariant forall k | 0 <= k < j :: caps[k] == ModCap(modifiers[cursor + k], planes[cursor + k])
    {
      caps := caps + [ModCap(modifiers[cursor + j], planes[cursor + j])];
    }
  }

  lemma DenotesStep(w: WireCaps, i: nat, caps: seq<ModCap>, formats: FormatCaps)
    requires |w.fourccs| == |w.modCounts| && |w.modifiers| == Sum(w.modCounts) == |w.planes| && i < |w.fourccs|
    requires Sum(w.modCounts[..i]) + w.modCounts[i] == Sum(w.modCounts[..i + 1]) <= Sum(w.modCounts)
    requires |caps| == w.modCounts[i]
    requires forall k | 0 <= k < |caps| ::
      caps[k] == ModCap(w.modifiers[Sum(w.modCounts[..i]) + k], w.planes[Sum(w.modCounts[..i]) + k])
    requires Denotes(formats, w.fourccs[..i], Expand(w.fourccs[..i], w.modCounts[..i], w.modifiers, w.planes))
    ensures var f := w.fourccs[i];
            Denotes(formats[f := (if f in formats then formats[f] else []) + caps], w.fourccs[..i + 1],
                    Expand(w.fourccs[..i + 1], w.modCounts[..i + 1], w.modifiers, w.planes))
  {
    var fourcc := w.fourccs[i];
    ExpandStep(w, i, caps);
    hide Expand, CapsOf;
    assert w.fourccs[..i + 1] == w.fourccs[..i] + [fourcc];
    ElementsSnoc(w.fourccs[..i], fourcc);
    assert fourcc in formats <==> fourcc in w.fourccs[..i];
    var before := Expand(w.fourccs[..i], w.modCounts[..i], w.modifiers, w.planes);
    var after := Expand(w.fourccs[..i + 1], w.modCounts[..i + 1], w.modifiers, w.planes);
    var formats' := formats[fourcc := (if fourcc in formats then formats[fourcc] else []) + caps];
    forall f | f in formats' ensures formats'[f] == CapsOf(after, f) {
      assert CapsOf(after, f) == CapsOf(before, f) + if f == fourcc then caps else [];
    }
  }

  /** One more run appends its capabilities to its fourcc, and to nobody else. */
  lemma ExpandStep(w: WireCaps, i: nat, caps: seq<ModCap>)
    requires |w.fourccs| == |w.modCounts| && |w.modifiers| == Sum(w.modCounts) == |w.planes| && i < |w.fourccs|
    requires Sum(w.modCounts[..i]) + w.modCounts[i] == Sum(w.modCounts[..i + 1]) <= Sum(w.modCounts)
    requires |caps| == w.modCounts[i]
    requires forall k | 0 <= k < |caps| ::
      caps[k] == ModCap(w.modifiers[Sum(w.modCounts[..i]) + k], w.planes[Sum(w.modCounts[..i]) + k])
    ensures var before := Expand(w.fourccs[..i], w.modCounts[..i], w.modifiers, w.planes);
            var after := Expand(w.fourccs[..i + 1], w.modCounts[..i + 1], w.modifiers, w.planes);
            forall f :: CapsOf(after, f) == CapsOf(before, f) + if f == w.fourccs[i] then caps else []
    ensures w.fourccs[i] !in w.fourccs[..i] ==>
              CapsOf(Expand(w.fourccs[..i], w.modCounts[..i], w.modifiers, w.planes), w.fourccs[i]) == []
  {
    var fs, cs := w.fourccs[..i + 1], w.modCounts[..i + 1];
    assert fs[..i] == w.fourccs[..i] && cs[..i] == w.modCounts[..i];
    var before := Expand(w.fourccs[..i], w.modCounts[..i], w.modifiers, w.planes);
    var after := Expand(fs, cs, w.modifiers, w.planes);
    var run := after[|before|..];
    assert after == before + run;
    CapsOfRun(run, w.fourccs[i], caps);
    forall f ensures CapsOf(after, f) == CapsOf(before, f) + if f == w.fourccs[i] then caps else [] {
      CapsOfConcat(before, run, f);
    }
    if w.fourccs[i] !in w.fourccs[..i] {
      UnlistedHasNone(w.fourccs[..i], w.modCounts[..i], w.modifiers, w.planes, w.fourccs[i]);
    }
  }

  lemma {:induction false} UnlistedHasNone(fourccs: seq<nat>, counts: seq<nat>, modifiers: seq<nat>, planes: seq<nat>,
                                          f: nat)
    requires |fourccs| == |counts| && Sum(counts) <= |modifiers| && Sum(counts) <= |planes|
    requires f !in fourccs
    ensures CapsOf(Expand(fourccs, counts, modifiers, planes), f) == []
    decreases |counts|
  {
    if counts != [] {
      var k := |counts| - 1;
      var es := Expand(fourccs, counts, modifiers, planes);
      var before := Expand(fourccs[..k], counts[..k], modifiers, planes);
      UnlistedHasNone(fourccs[..k], counts[..k], modifiers, planes, f);
      var run := es[|before|..];
      assert es == before + run;
      CapsOfRun(run, fourccs[k], seq(|run|, j requires 0 <= j < |run| => ModCap(run[j].modifier, run[j].planes)));
      CapsOfConcat(before, run, f);
    }
  }

  // ---------------------------------------------------------------
  // Flattening loses nothing

  /** The number of entries a run-length form stands for, and those entries. */
  function Total(runs: seq<Run>): nat {
    Sum(Counts(runs))
  }

  function Unrolled(runs: seq<Run>, modifiers: seq<nat>, planes: seq<nat>): (es: seq<Entry>)
    requires Total(runs) <= |modifiers| && Total(runs) <= |planes|
    ensures |es| == Total(runs)
  {
    Expand(Fourccs(runs), Counts(runs), modifiers, planes)
  }

  lemma TotalSnoc(runs: seq<Run>, r: Run)
    ensures Total(runs + [r]) == Total(runs) + r.count
  {
    RunsSnoc(runs, r);
    assert (Counts(runs) + [r.count])[..|runs|] == Counts(runs);
  }

  lemma UnrolledSnoc(runs: seq<Run>, r: Run, modifiers: seq<nat>, planes: seq<nat>)
    requires Total(runs) + r.count <= |modifiers| && Total(runs) + r.count <= |planes|
    ensures Total(runs + [r]) == Total(runs) + r.count
    ensures Unrolled(runs + [r], modifiers, planes)
         == Unrolled(runs, modifiers, planes) + RunEntries(r.fourcc, r.count, Total(runs), modifiers, planes)
  {
    TotalSnoc(runs, r);
    RunsSnoc(runs, r);
    hide RunEntries;
    var fs, cs := Fourccs(runs), Counts(runs);
    hide Fourccs, Counts;
    assert (cs + [r.count])[..|cs|] == cs && (fs + [r.fourcc])[..|fs|] == fs;
  }

  lemma LongerRun(f: nat, n: nat, base: nat, modifiers: seq<nat>, planes: seq<nat>)
    requires base + n + 1 <= |modifiers| && base + n + 1 <= |planes|
    ensures RunEntries(f, n + 1, base, modifiers, planes)
         == RunEntries(f, n, base, modifiers, planes) + [Entry(f, modifiers[base + n], planes[base + n])]
  {
  }

  /** Expanding the run-length form gives back the list: same entries, same order. */
  lemma {:induction false} ExpandFlattened(es: seq<Entry>, modifiers: seq<nat>, planes: seq<nat>)
    requires Modifiers(es) <= modifiers && Planes(es) <= planes
    ensures Total(Runs(es)) == |es|
    ensures Unrolled(Runs(es), modifiers, planes) == es
    decreases |es|
  {
    if es != [] {
      var n := |es| - 1;
      var init, e := es[..n], es[n];
      assert modifiers[n] == Modifiers(es)[n] == e.modifier;
      assert planes[n] == Planes(es)[n] == e.planes;
      assert Modifiers(init) <= modifiers && Planes(init) <= planes;
      ExpandFlattened(init, modifiers, planes);
      assert es == init + [e];
      FlattenedSnoc(init, e, modifiers, planes);
    }
  }

  lemma RunsSnoc(runs: seq<Run>, r: Run)
    ensures Fourccs(runs + [r]) == Fourccs(runs) + [r.fourcc]
    ensures Counts(runs + [r]) == Counts(runs) + [r.count]
    ensures |Fourccs(runs)| == |Counts(runs)| == |runs|
  {
  }

  /** Growing either lengthens a last run of the same fourcc or starts one from nothing. */
  lemma LastRun(runs: seq<Run>, f: nat) returns (kept: seq<Run>, c: nat)
    ensures Grown(runs, f) == kept + [Run(f, c + 1)]
    ensures runs == kept + [Run(f, c)] || (runs == kept && c == 0)
  {
    var n := |runs| - 1;
    if runs != [] && runs[n].fourcc == f {
      kept, c := runs[..n], runs[n].count;
      assert runs == kept + [Run(f, c)];
    } else {
      kept, c := runs, 0;
    }
  }

  lemma FlattenedSnoc(init: seq<Entry>, e: Entry, modifiers: seq<nat>, planes: seq<nat>)
    requires |init| < |modifiers| && |init| < |planes|
    requires e == Entry(e.fourcc, modifiers[|init|], planes[|init|])
    requires Total(Runs(init)) == |init| && Unrolled(Runs(init), modifiers, planes) == init
    ensures Total(Runs(init + [e])) == |init| + 1
    ensures Unrolled(Runs(init + [e]), modifiers, planes) == init + [e]
  {
    var before := Runs(init);
    assert (init + [e])[..|init|] == init && (init + [e])[..|init| + 1] == init + [e];
    RunsGrow(init + [e], |init|);
    var kept, c := LastRun(before, e.fourcc);
    hide *;
    if before == kept { EmptyRun(before, e.fourcc, modifiers, planes); }
    OneLonger(kept, e.fourcc, c, modifiers, planes);
  }

  /** Lengthening the last run by one appends the next entry. */
  lemma OneLonger(kept: seq<Run>, f: nat, c: nat, modifiers: seq<nat>, planes: seq<nat>)
    requires Total(kept + [Run(f, c)]) < |modifiers| && Total(kept + [Run(f, c)]) < |planes|
    ensures Total(kept + [Run(f, c + 1)]) == Total(kept + [Run(f, c)]) + 1
    ensures Unrolled(kept + [Run(f, c + 1)], modifiers, planes)
         == Unrolled(kept + [Run(f, c)], modifiers, planes)
            + [Entry(f, modifiers[Total(kept + [Run(f, c)])], planes[Total(kept + [Run(f, c)])])]
  {
    hide Total, Unrolled, RunEntries;
    TotalSnoc(kept, Run(f, c));
    UnrolledSnoc(kept, Run(f, c), modifiers, planes);
    UnrolledSnoc(kept, Run(f, c + 1), modifiers, planes);
    LongerRun(f, c, Total(kept), modifiers, planes);
  }

  lemma EmptyRun(kept: seq<Run>, f: nat, modifiers: seq<nat>, planes: seq<nat>)
    requires Total(kept) <= |modifiers| && Total(kept) <= |planes|
    ensures Total(kept + [Run(f, 0)]) == Total(kept)
    ensures Unrolled(kept + [Run(f, 0)], modifiers, planes) == Unrolled(kept, modifiers, planes)
  {
    hide Total, Unrolled, RunEntries;
    UnrolledSnoc(kept, Run(f, 0), modifiers, planes);
    assert |RunEntries(f, 0, Total(kept), modifiers, planes)| == 0;
  }

  lemma {:induction false} RunFourccs(es: seq<Entry>)
    ensures Elements(Fourccs(Runs(es))) == set e | e in es :: e.fourcc
    decreases |es|
  {
    if es != [] {
      var n := |es| - 1;
      RunFourccs(es[..n]);
      assert es[..n + 1] == es;
      RunsGrow(es, n);
      var before, runs := Runs(es[..n]), Runs(es);
      hide Runs;
      assert es == es[..n] + [es[n]];
      assert (set e | e in es :: e.fourcc) == (set e | e in es[..n] :: e.fourcc) + {es[n].fourcc};
      if |runs| == |before| {
        assert Fourccs(runs) == Fourccs(before);
        assert es[n].fourcc == Fourccs(before)[|before| - 1];
      } else {
        assert Fourccs(runs) == Fourccs(before) + [es[n].fourcc];
        ElementsSnoc(Fourccs(before), es[n].fourcc);
      }
    }
  }

  lemma {:induction false} CapsComeFromEntries(es: seq<Entry>, f: nat, m: ModCap)
    ensures m in CapsOf(es, f) <==> Entry(f, m.modifier, m.planes) in es
    decreases |es|
  {
    if es != [] {
      CapsComeFromEntries(es[..|es| - 1], f, m);
      assert es == es[..|es| - 1] + [es[|es| - 1]];
    }
  }

  // ---------------------------------------------------------------
  // The pool's verdict on a directive

  const MAX_SLOTS := 8
  const WW_OK := 0

  datatype Directive = Directive(
    category: nat, memSource: nat, fourcc: nat, modifier: nat, planes: nat,
    syncMode: bv32, color: bv32, memHint: bv32, width: nat, height: nat, count: nat)

  /** What a pool knows when a directive arrives. */
  datatype PoolCaps = PoolCaps(
    entries: seq<Entry>, sync: bv32, color: bv32, memHint: bv32, extentMax: (nat, nat),
    uuids: Option<(Uuid, Uuid)>, drm: DrmNode, probeWidth: nat, probeHeight: nat)

  predicate Advertises(entries: seq<Entry>, fourcc: nat, modifier: nat) {
    exists i :: 0 <= i < |entries| && entries[i].fourcc == fourcc && entries[i].modifier == modifier
  }

  predicate Optimized(category: nat) {
    category == 0 || category == 1
  }

  /** The directive's checks in the pool's order. */
  method ValidateDirective(pool: PoolCaps, d: Directive) returns (rc: int)
    ensures rc == Verdict(pool, d)
  {
    if d.count == 0 || d.count > MAX_SLOTS { return -EINVAL; }
    if pool.probeWidth == 0 || pool.probeHeight == 0 { return -EINVAL; }
    match d.category {
      case 0 =>
      case 1 =>
      case 2 =>
      case 3 => return -ENOTSUP;
      case _ => return -EINVAL;
    }
    match d.memSource {
      case 0 =>
      case 1 =>
      case 2 => return -ENOTSUP;
      case _ => return -EINVAL;
    }
    if d.category == 0 || d.category == 1 {
      var ok := false;
      for i := 0 to |pool.entries|
        invariant !ok && forall k | 0 <= k < i ::
          !(pool.entries[k].fourcc == d.fourcc && pool.entries[k].modifier == d.modifier)
      {
        if pool.entries[i].fourcc == d.fourcc && pool.entries[i].modifier == d.modifier {
          ok := true;
          break;
        }
      }
      if !ok { return -ENOTSUP; }
    }
    if d.syncMode != SYNC_SYNCOBJ_TIMELINE { return -ENOTSUP; }
    return WW_OK;
  }

  /** Malformed directives are invalid; well-formed ones the pool cannot serve are unsupported. */
  ghost function Verdict(pool: PoolCaps, d: Directive): int {
    if !(1 <= d.count <= MAX_SLOTS) || pool.probeWidth == 0 || pool.probeHeight == 0 || d.category > 3 then -EINVAL
    else if d.category == 3 then -ENOTSUP
    else if d.memSource > 2 then -EINVAL
    else if d.memSource == 2 || (Optimized(d.category) && !Advertises(pool.entries, d.fourcc, d.modifier))
            || d.syncMode != SYNC_SYNCOBJ_TIMELINE then -ENOTSUP
    else WW_OK
  }

  /** A directive is accepted exactly when it is one of a known path, source and size, names an advertised pair
      where the path requires one, and asks for timeline sync. */
  lemma AcceptedIff(pool: PoolCaps, d: Directive)
    ensures Verdict(pool, d) == WW_OK <==>
      && 1 <= d.count <= MAX_SLOTS && pool.probeWidth > 0 && pool.probeHeight > 0
      && d.category <= 2 && d.memSource <= 1
      && (Optimized(d.category) ==> Advertises(pool.entries, d.fourcc, d.modifier))
      && d.syncMode == SYNC_SYNCOBJ_TIMELINE
  {
  }

  // ---------------------------------------------------------------
  // End to end

  /** The four words a UUID travels as. */
  function UuidWords(u: Uuid): seq<u32> {
    [U32Of(u[0], u[1], u[2], u[3]), U32Of(u[4], u[5], u[6], u[7]),
     U32Of(u[8], u[9], u[10], u[11]), U32Of(u[12], u[13], u[14], u[15])]
  }

  lemma UuidRoundTrip(u: Uuid)
    ensures PackUuid(UuidWords(u)) == u
  {
    U32Spelled(u[0..4]);
    U32Spelled(u[4..8]);
    U32Spelled(u[8..12]);
    U32Spelled(u[12..16]);
    assert u == u[0..4] + u[4..8] + u[8..12] + u[12..16];
  }

  /** The format_caps message a pool sends. */
  function CapsMessage(pool: PoolCaps): WireCaps {
    var es := Advertised(pool.entries);
    WireCaps(Fourccs(Runs(es)), Counts(Runs(es)), Modifiers(es), Planes(es),
             if pool.uuids.Some? then UuidWords(pool.uuids.value.0) else [0, 0, 0, 0],
             if pool.uuids.Some? then UuidWords(pool.uuids.value.1) else [0, 0, 0, 0],
             pool.drm, pool.sync, pool.color, pool.memHint, pool.extentMax)
  }

  /** What the daemon should know about a producer: for each fourcc its capabilities, in advertised order. */
  ghost predicate Understood(pool: PoolCaps, caps: PeerCaps) {
    var es := Advertised(pool.entries);
    && caps.formats.Keys == (set e | e in es :: e.fourcc)
    && (forall f | f in caps.formats :: caps.formats[f] == CapsOf(es, f))
    && caps.identity == DeviceIdentity(if pool.uuids.Some? then pool.uuids.value.0 else ZERO_UUID,
                                       if pool.uuids.Some? then pool.uuids.value.1 else ZERO_UUID, pool.drm)
    && caps.sync == pool.sync && caps.color == pool.color && caps.memHint == pool.memHint
  }

  /** A pool's own message is always well formed, and unpacking it recovers exactly the advertised entries,
      grouped by fourcc, whether or not equal fourccs were adjacent. */
  lemma UnflattenInvertsFlatten(pool: PoolCaps, formats: FormatCaps)
    ensures WellFormed(CapsMessage(pool))
    ensures var w := CapsMessage(pool);
      Denotes(formats, w.fourccs, Expand(w.fourccs, w.modCounts, w.modifiers, w.planes)) ==>
      Understood(pool, PeerCaps(formats, DeviceIdentity(PackUuid(w.deviceUuid), PackUuid(w.driverUuid), w.drm),
                                w.sync, w.color, w.memHint, w.extentMax, {}))
  {
    var es := Advertised(pool.entries);
    MessageDenotesEntries(es);
    IdentitySurvives(pool);
    hide Expand, Runs, Sum, CapsOf, PackUuid, Fourccs, Counts, Modifiers, Planes;
  }

  lemma MessageDenotesEntries(es: seq<Entry>)
    ensures |Fourccs(Runs(es))| == |Counts(Runs(es))|
    ensures Sum(Counts(Runs(es))) == |es| == |Modifiers(es)| == |Planes(es)|
    ensures Expand(Fourccs(Runs(es)), Counts(Runs(es)), Modifiers(es), Planes(es)) == es
    ensures Elements(Fourccs(Runs(es))) == set e | e in es :: e.fourcc
  {
    ExpandFlattened(es, Modifiers(es), Planes(es));
    RunFourccs(es);
  }

  lemma IdentitySurvives(pool: PoolCaps)
    ensures PackUuid(CapsMessage(pool).deviceUuid) == (if pool.uuids.Some? then pool.uuids.value.0 else ZERO_UUID)
    ensures PackUuid(CapsMessage(pool).driverUuid) == (if pool.uuids.Some? then pool.uuids.value.1 else ZERO_UUID)
  {
    hide Expand, Runs, Sum, CapsOf, Fourccs, Counts, Modifiers, Planes;
    assert PackUuid([0, 0, 0, 0]) == ZERO_UUID;
    if pool.uuids.Some? {
      UuidRoundTrip(pool.uuids.value.0);
      UuidRoundTrip(pool.uuids.value.1);
    }
  }

  /** The scheme as the renderer copies it into a directive; it may ask for fewer slots, and the extent is its own. */
  function DirectiveOf(s: Scheme, count: nat, width: nat, height: nat): Directive {
    Directive(match s.path
              case OptimizedSameDevice => 0 case OptimizedSameVendor => 1
              case CompatLinear => 2 case CompatCpuReadback => 3,
              match s.memSource case GpuNative => 0 case GpuLinear => 1 case DmabufHeap => 2,
              s.choice.fourcc, s.choice.modifier, s.choice.planes, s.syncMode, s.color, s.memHint, width, height, count)
  }

  lemma PairsAreAdvertised(formats: FormatCaps, es: seq<Entry>, f: nat, modifier: nat)
    requires forall g | g in formats :: formats[g] == CapsOf(es, g)
    requires (f, modifier) in Pairs(formats)
    ensures Advertises(es, f, modifier)
  {
    var i: nat :| i < |formats[f]| && formats[f][i].modifier == modifier;
    var m := formats[f][i];
    assert m in CapsOf(es, f);
    CapsComeFromEntries(es, f, m);
    hide CapsOf;
    var k :| 0 <= k < |es| && es[k] == Entry(f, m.modifier, m.planes);
  }

  lemma PathFollowsModifier(producer: PeerCaps, consumer: PeerCaps, scheme: Scheme)
    requires Picked(producer, consumer, Ok(scheme))
    ensures if scheme.choice.modifier == MOD_LINEAR
            then scheme.path == CompatLinear && scheme.memSource == GpuLinear
            else scheme.path == OptimizedSameDevice && scheme.memSource == GpuNative
    ensures scheme.count == DEFAULT_POOL_COUNT
    ensures PickSync(producer.sync, consumer.sync) == Ok(scheme.syncMode)
  {
  }

  /** Whatever the picker picks for a producer it understood correctly, whatever the consumer and whatever is
      blacklisted, names an advertised pair on the optimized path. */
  lemma PickNamesAdvertisedPair(pool: PoolCaps, producer: PeerCaps, consumer: PeerCaps, scheme: Scheme)
    requires Understood(pool, producer) && Picked(producer, consumer, Ok(scheme))
    ensures scheme.path == OptimizedSameDevice || scheme.path == CompatLinear
    ensures scheme.path == OptimizedSameDevice ==>
              Advertises(pool.entries, scheme.choice.fourcc, scheme.choice.modifier)
  {
    hide Picked, CapsOf, Pairs;
    PathFollowsModifier(producer, consumer, scheme);
    PickedIsAllowed(producer, consumer, scheme);
    if scheme.path == OptimizedSameDevice {
      var es := Advertised(pool.entries);
      PairsAreAdvertised(producer.formats, es, scheme.choice.fourcc, scheme.choice.modifier);
      assert forall k | 0 <= k < |es| :: es[k] == pool.entries[k];
    }
  }

  /** What the picker picks is accepted by the pool it was picked for exactly when both peers support timeline
      sync: for every entry list, device identity, consumer and blacklist, and any slot count the pool can hold. */
  lemma PickedIsAcceptedIffTimeline(pool: PoolCaps, producer: PeerCaps, consumer: PeerCaps, scheme: Scheme,
                                    count: nat, w: nat, h: nat)
    requires pool.probeWidth > 0 && pool.probeHeight > 0 && 1 <= count <= MAX_SLOTS
    requires Understood(pool, producer) && Picked(producer, consumer, Ok(scheme))
    ensures Verdict(pool, DirectiveOf(scheme, count, w, h)) == WW_OK
       <==> pool.sync & consumer.sync & SYNC_SYNCOBJ_TIMELINE != 0
  {
    PickNamesAdvertisedPair(pool, producer, consumer, scheme);
    PathFollowsModifier(producer, consumer, scheme);
    TimelineWins(pool.sync & consumer.sync);
  }

  lemma TimelineWins(common: bv32)
    ensures StrongestMode(common) == SYNC_SYNCOBJ_TIMELINE <==> common & SYNC_SYNCOBJ_TIMELINE != 0
  {
  }

  /** Both backends advertise timeline sync only, so every scheme picked for them is accepted. */
  lemma BackendsAlwaysAccept(pool: PoolCaps, producer: PeerCaps, consumer: PeerCaps, scheme: Scheme,
                             count: nat, w: nat, h: nat)
    requires pool.probeWidth > 0 && pool.probeHeight > 0 && 1 <= count <= MAX_SLOTS
    requires pool.sync == SYNC_SYNCOBJ_TIMELINE
    requires Understood(pool, producer) && Picked(producer, consumer, Ok(scheme))
    ensures Verdict(pool, DirectiveOf(scheme, count, w, h)) == WW_OK
  {
    PickedIsAcceptedIffTimeline(pool, producer, consumer, scheme, count, w, h);
    OnlyTimeline(consumer.sync);
  }

  lemma OnlyTimeline(consumer: bv32)
    ensures SYNC_SYNCOBJ_TIMELINE & consumer != 0 ==> SYNC_SYNCOBJ_TIMELINE & consumer & SYNC_SYNCOBJ_TIMELINE != 0
  {
  }

  /** What advertising reports when nothing else fails: there must be an entry, and the message must fit a frame. */
  function AdvertiseCode(pool: PoolCaps): int {
    var es := Advertised(pool.entries);
    if pool.entries == [] then -ENOTSUP
    else if CapsBodySize(|Runs(es)|, |es|) > Framing.MAX_BODY then -EMSGSIZE
    else WW_OK
  }

  /** A pool's capabilities as they reach the daemon. */
  method Advertise(pool: PoolCaps) returns (rc: int, r: Option<PeerCaps>)
    ensures rc == AdvertiseCode(pool) && (r.Some? <==> rc == WW_OK)
    ensures r.Some? ==> Understood(pool, r.value) && r.value.blacklist == {}
  {
    var n := |pool.entries|;
    if n == 0 { return -ENOTSUP, None; }
    var fourccs, modCounts := new nat[n], new nat[n];
    var modifiers, planes := new nat[n], new nat[n];
    var runCount, m := FillFormatCaps(pool.entries, fourccs, modCounts, modifiers, planes);
    var message := CapsMessage(pool).(fourccs := fourccs[..runCount], modCounts := modCounts[..runCount],
                                      modifiers := modifiers[..m], planes := planes[..m]);
    if CapsBodySize(|message.fourccs|, |message.modifiers|) > Framing.MAX_BODY { return -EMSGSIZE, None; }
    SameArrays(Advertised(pool.entries), message.fourccs, message.modCounts, message.modifiers, message.planes);
    assert message == CapsMessage(pool);
    var caps := UnflattenCaps(message);
    UnflattenInvertsFlatten(pool, if caps.Ok? then caps.value.formats else map[]);
    return WW_OK, Some(caps.value);
  }

  /** How an attempt to agree ends. */
  datatype Outcome =
    | Refused(code: int)                     // nothing was advertised
    | NoScheme(error: NegotiateError)        // nothing could be picked
    | Judged(d: Directive, verdict: int)

  /** The pipeline as it runs: flatten, unpack, retry over bind failures, and have the result judged. */
  method NegotiateBuffers(pool: PoolCaps, consumer: PeerCaps, bindFails: (nat, Choice) -> bool)
    returns (o: Outcome, ghost producer: PeerCaps, ghost picked: Result<Scheme>)
    requires pool.probeWidth > 0 && pool.probeHeight > 0
    ensures o.Refused? <==> AdvertiseCode(pool) != WW_OK
    ensures o.Refused? ==> o.code == AdvertiseCode(pool)
    ensures !o.Refused? ==> Understood(pool, producer) && Picked(producer, consumer, picked)
    ensures o.NoScheme? ==> picked == Err(o.error)
    ensures o.Judged? ==>
      && picked.Ok? && o.d == DirectiveOf(picked.value, picked.value.count, 0, 0)
      && o.verdict == Verdict(pool, o.d)
      && o.d.color == PickColor(pool.color, consumer.color)
      && o.d.memHint in {0, PickMemHint(pool.memHint, consumer.memHint)}
      && o.d.fourcc == picked.value.choice.fourcc && o.d.modifier == picked.value.choice.modifier
      && o.d.planes == picked.value.choice.planes && o.d.count == DEFAULT_POOL_COUNT
      && (o.verdict == WW_OK <==> pool.sync & consumer.sync & SYNC_SYNCOBJ_TIMELINE != 0)
      && (pool.sync == SYNC_SYNCOBJ_TIMELINE ==> o.verdict == WW_OK)
  {
    var code, caps := Advertise(pool);
    if caps.None? {
      picked := Err(NoFormatIntersection);
      producer := consumer;
      return Refused(code), producer, picked;
    }
    var scheme, failed;
    var peer;
    scheme, failed, peer := Renegotiate(caps.value, consumer, bindFails);
    picked, producer := scheme, peer;
    assert Understood(pool, producer);
    hide Understood, Picked;
    match scheme
    case Err(e) => o := NoScheme(e);
    case Ok(s) =>
      PickedIsAcceptedIffTimeline(pool, producer, consumer, s, s.count, 0, 0);
      if pool.sync == SYNC_SYNCOBJ_TIMELINE {
        BackendsAlwaysAccept(pool, producer, consumer, s, s.count, 0, 0);
      }
      var d := DirectiveOf(s, s.count, 0, 0);
      var rc := ValidateDirective(pool, d);
      o := Judged(d, rc);
  }

  /** A pool and a consumer on one device that share a format and have binary sync only. */
  function BinaryPool(): PoolCaps {
    PoolCaps([Entry(1, 7, 1)], SYNC_SYNCOBJ_BINARY, 0, 0, (1, 1), None, DrmNode(1, 1), 1, 1)
  }

  function BinaryPeer(): PeerCaps {
    PeerCaps(map[1 := [ModCap(7, 1)]], DeviceIdentity(ZERO_UUID, ZERO_UUID, DrmNode(1, 1)),
             SYNC_SYNCOBJ_BINARY, 0, 0, (1, 1), {})
  }

  lemma BinaryIsPicked(producer: PeerCaps, picked: Result<Scheme>)
    requires Understood(BinaryPool(), producer) && Picked(producer, BinaryPeer(), picked) && producer.blacklist == {}
    ensures picked.Ok? && picked.value.syncMode == SYNC_SYNCOBJ_BINARY
  {
    var es := Advertised(BinaryPool().entries);
    assert es == [Entry(1, 7, 1)] && es[..0] == [];
    assert CapsOf(es, 1) == [ModCap(7, 1)];
    assert es[0].fourcc in producer.formats;
    assert Offers(SidesOf(producer, BinaryPeer()), 1, false) by {
      assert SharedKind(SidesOf(producer, BinaryPeer()), 1, 0, false);
    }
    assert SYNC_SYNCOBJ_BINARY & SYNC_SYNCOBJ_BINARY == SYNC_SYNCOBJ_BINARY;
  }

  lemma BinaryIsAdvertised()
    ensures AdvertiseCode(BinaryPool()) == WW_OK
  {
    var es := Advertised(BinaryPool().entries);
    assert es == [Entry(1, 7, 1)] && es[..0] == [];
    assert Runs(es) == [Run(1, 1)];
  }

  /** Picked, and yet rejected: the daemon settles for binary sync, which no pool supports. */
  method BinaryOnlyIsRejected() returns (rc: int)
    ensures rc == -ENOTSUP
  {
    hide Understood, Picked, AdvertiseCode;
    BinaryIsAdvertised();
    var code, producer := Advertise(BinaryPool());
    var picked := Pick(producer.value, BinaryPeer());
    BinaryIsPicked(producer.value, picked);
    PathFollowsModifier(producer.value, BinaryPeer(), picked.value);
    rc := ValidateDirective(BinaryPool(), DirectiveOf(picked.value, picked.value.count, 0, 0));
  }

  /** The filled arrays are the message's arrays. */
  lemma SameArrays(es: seq<Entry>, fourccs: seq<nat>, counts: seq<nat>, modifiers: seq<nat>, planes: seq<nat>)
    requires |fourccs| == |counts| == |Runs(es)| && |modifiers| == |planes| == |es|
    requires forall k | 0 <= k < |fourccs| :: fourccs[k] == Runs(es)[k].fourcc
    requires forall k | 0 <= k < |counts| :: counts[k] == Runs(es)[k].count
    requires forall k | 0 <= k < |es| :: modifiers[k] == es[k].modifier
    requires forall k | 0 <= k < |es| :: planes[k] == es[k].planes
    ensures fourccs == Fourccs(Runs(es)) && counts == Counts(Runs(es))
    ensures modifiers == Modifiers(es) && planes == Planes(es)
  {
  }
}
