/** Picking a buffer format for a producer and a consumer: `src/dma/negotiate.rs`. */
module Negotiation {
  import opened Common
  import opened Bytes

  const MOD_LINEAR: nat := 0

  const SYNC_IMPLICIT: bv32 := 1
  const SYNC_SYNCOBJ_BINARY: bv32 := 2
  const SYNC_SYNCOBJ_TIMELINE: bv32 := 4

  const COLOR_MASK_ENCODING: bv32 := 0x1f
  const COLOR_MASK_RANGE: bv32 := 0x60
  const COLOR_MASK_ALPHA: bv32 := 0x180
  const DEFAULT_COLOR: bv32 := 0xc1  // sRGB, limited range, premultiplied

  const MEM_HINT_DEVICE_LOCAL: bv32 := 1
  const MEM_HINT_HOST_VISIBLE: bv32 := 2

  const DEFAULT_POOL_COUNT: nat := 3

  datatype ModCap = ModCap(modifier: nat, planes: nat)
  type FormatCaps = map<nat, seq<ModCap>>
  type Pair = (nat, nat)

  datatype DrmNode = DrmNode(major: nat, minor: nat)
  {
    predicate IsKnown() { major != 0 || minor != 0 }
  }

  const ZERO_UUID: seq<byte> := [0, 0, 0, 0, 0, 0, 0, 0, 0, 0, 0, 0, 0, 0, 0, 0]
  type Uuid = b: seq<byte> | |b| == 16 witness ZERO_UUID

  datatype DeviceIdentity = DeviceIdentity(deviceUuid: Uuid, driverUuid: Uuid, drm: DrmNode)
  {
    /** UUIDs decide when both are known, else the DRM nodes when both are known. */
    predicate SameDevice(other: DeviceIdentity) {
      if deviceUuid != ZERO_UUID && other.deviceUuid != ZERO_UUID then deviceUuid == other.deviceUuid
      else drm.IsKnown() && other.drm.IsKnown() && drm == other.drm
    }
  }

  /** Same-device is symmetric; known UUIDs overrule DRM nodes either way, and with one UUID unknown two
      known DRM nodes decide; a peer that identifies itself in neither way matches nobody. */
  lemma SameDeviceRules(a: DeviceIdentity, b: DeviceIdentity)
    ensures a.SameDevice(b) <==> b.SameDevice(a)
    ensures a.deviceUuid != ZERO_UUID && b.deviceUuid != ZERO_UUID ==>
      (a.SameDevice(b) <==> a.deviceUuid == b.deviceUuid)
    ensures a.deviceUuid == ZERO_UUID || b.deviceUuid == ZERO_UUID ==>
      (a.SameDevice(b) <==>
         a.drm.major == b.drm.major && a.drm.minor == b.drm.minor && !(a.drm.major == 0 && a.drm.minor == 0))
  {
  }

  datatype PeerCaps = PeerCaps(
    formats: FormatCaps,
    identity: DeviceIdentity,
    sync: bv32,
    color: bv32,
    memHint: bv32,
    extentMax: (nat, nat),
    blacklist: set<Pair>)

  datatype PathCategory = OptimizedSameDevice | OptimizedSameVendor | CompatLinear | CompatCpuReadback
  datatype MemSource = GpuNative | GpuLinear | DmabufHeap

  datatype Choice = Choice(fourcc: nat, modifier: nat, planes: nat)

  datatype Scheme = Scheme(
    choice: Choice,
    syncMode: bv32,
    color: bv32,
    memHint: bv32,
    count: nat,
    path: PathCategory,
    memSource: MemSource)

  datatype NegotiateError = NoFormatIntersection | NoSyncIntersection | MalformedCaps(fault: CapsFault)

  datatype CapsFault = CountsDiffer | ModifiersDiffer | PlanesDiffer | BadUuid
  datatype Result<+T> = Ok(value: T) | Err(error: NegotiateError)

  // ---------------------------------------------------------------
  // Same device: a common modifier

  /** The two sides of one negotiation over formats. */
  datatype Sides = Sides(producer: FormatCaps, consumer: FormatCaps, pBlack: set<Pair>, cBlack: set<Pair>)

  predicate Allowed(s: Sides, pair: Pair) {
    pair !in s.pBlack && pair !in s.cBlack
  }

  /** The producer's i-th capability for a fourcc is one the consumer shares, planes included. */
  predicate Shared(s: Sides, fourcc: nat, i: nat) {
    && fourcc in s.producer && i < |s.producer[fourcc]|
    && fourcc in s.consumer
    && Allowed(s, (fourcc, s.producer[fourcc][i].modifier))
    && s.producer[fourcc][i] in s.consumer[fourcc]
  }

  predicate SharedKind(s: Sides, fourcc: nat, i: nat, linear: bool) {
    Shared(s, fourcc, i) && (s.producer[fourcc][i].modifier == MOD_LINEAR) == linear
  }

  ghost predicate Offers(s: Sides, fourcc: nat, linear: bool) {
    exists i: nat :: SharedKind(s, fourcc, i, linear)
  }

  /** The smallest fourcc offering a shared modifier of this kind, with the first such in producer order. */
  ghost predicate BestOfKind(s: Sides, linear: bool, c: Choice) {
    && (forall f: nat | Offers(s, f, linear) :: c.fourcc <= f)
    && exists i: nat ::
         && SharedKind(s, c.fourcc, i, linear)
         && s.producer[c.fourcc][i] == ModCap(c.modifier, c.planes)
         && forall j: nat | 0 <= j < i :: !SharedKind(s, c.fourcc, j, linear)
  }

  ghost predicate NoneOfKind(s: Sides, linear: bool) {
    forall f: nat :: !Offers(s, f, linear)
  }

  /** What the same-device pick means: a shared non-LINEAR modifier wins over any LINEAR one. */
  ghost predicate SameDevicePick(s: Sides, r: Result<Choice>) {
    match r
    case Ok(c) => BestOfKind(s, false, c) || (NoneOfKind(s, false) && BestOfKind(s, true, c))
    case Err(e) => e == NoFormatIntersection && NoneOfKind(s, false) && NoneOfKind(s, true)
  }

  lemma BestIsUnique(s: Sides, linear: bool, a: Choice, b: Choice)
    requires BestOfKind(s, linear, a) && BestOfKind(s, linear, b)
    ensures a == b
  {
    assert Offers(s, a.fourcc, linear) && Offers(s, b.fourcc, linear);
    assert a.fourcc == b.fourcc;
    var i: nat :| SharedKind(s, a.fourcc, i, linear) && s.producer[a.fourcc][i] == ModCap(a.modifier, a.planes)
          && forall j: nat | 0 <= j < i :: !SharedKind(s, a.fourcc, j, linear);
    var k: nat :| SharedKind(s, b.fourcc, k, linear) && s.producer[b.fourcc][k] == ModCap(b.modifier, b.planes)
          && forall j: nat | 0 <= j < k :: !SharedKind(s, b.fourcc, j, linear);
    assert i == k;
  }

  /** The meaning fixes the answer. */
  lemma SameDevicePickIsUnique(s: Sides, a: Result<Choice>, b: Result<Choice>)
    requires SameDevicePick(s, a) && SameDevicePick(s, b)
    ensures a == b
  {
    forall linear: bool, x: Choice | BestOfKind(s, linear, x)
      ensures Offers(s, x.fourcc, linear)
    {
    }
    match (a, b)
    case (Ok(x), Ok(y)) =>
      if BestOfKind(s, false, x) { BestIsUnique(s, false, x, y); } else { BestIsUnique(s, true, x, y); }
    case _ =>
  }

  /** One fourcc's intersection: the shared capabilities, in producer order. */
  ghost predicate IsIntersection(s: Sides, fourcc: nat, upTo: nat, out: seq<ModCap>, origin: seq<nat>)
    requires fourcc in s.producer && upTo <= |s.producer[fourcc]|
  {
    && |origin| == |out|
    && (forall k | 0 <= k < |out| ::
          origin[k] < upTo && Shared(s, fourcc, origin[k]) && out[k] == s.producer[fourcc][origin[k]])
    && (forall k, l | 0 <= k < l < |out| :: origin[k] < origin[l])
    && (forall i: nat | 0 <= i < upTo && Shared(s, fourcc, i) :: i in origin)
  }

  method Intersect(s: Sides, fourcc: nat) returns (out: seq<ModCap>, ghost origin: seq<nat>)
    requires fourcc in s.producer && fourcc in s.consumer
    ensures IsIntersection(s, fourcc, |s.producer[fourcc]|, out, origin)
  {
    var pMods, cMods := s.producer[fourcc], s.consumer[fourcc];
    out, origin := [], [];
    for i := 0 to |pMods|
      invariant IsIntersection(s, fourcc, i, out, origin)
    {
      var pc := pMods[i];
      if (fourcc, pc.modifier) in s.pBlack {
        continue;
      }
      var found := false;
      for j := 0 to |cMods|
        invariant !found && forall k | 0 <= k < j :: cMods[k] != pc || (fourcc, pc.modifier) in s.cBlack
      {
        var cc := cMods[j];
        if (fourcc, cc.modifier) in s.cBlack {
          continue;
        }
        if pc.modifier == cc.modifier {
          if pc.planes != cc.planes {
            continue;
          }
          found := true;
          break;
        }
      }
      if found {
        assert Shared(s, fourcc, i);
        out := out + [pc];
        origin := origin + [i];
      } else {
        assert !Shared(s, fourcc, i);
      }
    }
  }

  method FirstOfKind(caps: seq<ModCap>, linear: bool) returns (at: Option<nat>)
    ensures match at
      case Some(k) => k < |caps| && (caps[k].modifier == MOD_LINEAR) == linear
                      && forall j: nat | 0 <= j < k :: (caps[j].modifier == MOD_LINEAR) != linear
      case None => forall j: nat | 0 <= j < |caps| :: (caps[j].modifier == MOD_LINEAR) != linear
  {
    for k := 0 to |caps|
      invariant forall j: nat | 0 <= j < k :: (caps[j].modifier == MOD_LINEAR) != linear
    {
      if (caps[k].modifier == MOD_LINEAR) == linear {
        return Some(k);
      }
    }
    return None;
  }

  /** One fourcc's best of a kind: the first in producer order, if it offers any. */
  ghost predicate FirstChoice(s: Sides, fourcc: nat, linear: bool, choice: Option<Choice>) {
    match choice
    case None => !Offers(s, fourcc, linear)
    case Some(c) =>
      && c.fourcc == fourcc
      && exists i: nat ::
           && SharedKind(s, fourcc, i, linear)
           && s.producer[fourcc][i] == ModCap(c.modifier, c.planes)
           && forall j: nat | 0 <= j < i :: !SharedKind(s, fourcc, j, linear)
  }

  /** The first of a kind in the intersection is the first of that kind in producer order. */
  lemma FirstInProducerOrder(s: Sides, fourcc: nat, out: seq<ModCap>, origin: seq<nat>, linear: bool, at: Option<nat>)
    requires fourcc in s.producer && IsIntersection(s, fourcc, |s.producer[fourcc]|, out, origin)
    requires match at
      case Some(k) => k < |out| && (out[k].modifier == MOD_LINEAR) == linear
                      && forall j: nat | 0 <= j < k :: (out[j].modifier == MOD_LINEAR) != linear
      case None => forall j: nat | 0 <= j < |out| :: (out[j].modifier == MOD_LINEAR) != linear
    ensures FirstChoice(s, fourcc, linear,
              if at.Some? then Some(Choice(fourcc, out[at.value].modifier, out[at.value].planes)) else None)
  {
    forall i: nat | SharedKind(s, fourcc, i, linear)
      ensures at.Some? && origin[at.value] <= i
    {
      assert i in origin;
      var k :| 0 <= k < |origin| && origin[k] == i;
    }
    if at.Some? {
      assert SharedKind(s, fourcc, origin[at.value], linear);
    }
  }

  /** Nothing of this kind is offered by any fourcc seen so far, or `best` is from the smallest that offers it. */
  ghost predicate BestSoFar(s: Sides, seen: set<nat>, linear: bool, best: Option<Choice>) {
    match best
    case None => forall f | f in seen :: !Offers(s, f, linear)
    case Some(c) =>
      && c.fourcc in seen && FirstChoice(s, c.fourcc, linear, best)
      && forall f | f in seen && Offers(s, f, linear) :: c.fourcc <= f
  }

  lemma BestGrows(s: Sides, seen: set<nat>, linear: bool, best: Option<Choice>, fourcc: nat, choice: Option<Choice>)
    requires BestSoFar(s, seen, linear, best) && FirstChoice(s, fourcc, linear, choice)
    requires forall f | f in seen :: f < fourcc
    ensures BestSoFar(s, seen + {fourcc}, linear, if best.Some? then best else choice)
  {
    if choice.Some? { assert Offers(s, fourcc, linear); }
  }

  lemma BestOfAll(s: Sides, linear: bool, best: Option<Choice>)
    requires BestSoFar(s, s.producer.Keys, linear, best)
    ensures match best case None => NoneOfKind(s, linear) case Some(c) => BestOfKind(s, linear, c)
  {
    assert forall f: nat | Offers(s, f, linear) :: f in s.producer;
  }

  /** One fourcc of the walk: a tiled candidate is preferred, a linear one remembered. */
  method VisitFourcc(s: Sides, fourcc: nat, best: Option<Choice>, fallback: Option<Choice>, ghost seen: set<nat>)
    returns (best': Option<Choice>, fallback': Option<Choice>)
    requires fourcc in s.producer && forall f | f in seen :: f < fourcc
    requires BestSoFar(s, seen, false, best) && (best.None? ==> BestSoFar(s, seen, true, fallback))
    ensures BestSoFar(s, seen + {fourcc}, false, best')
    ensures best'.None? ==> BestSoFar(s, seen + {fourcc}, true, fallback')
  {
    best', fallback' := best, fallback;
    if fourcc !in s.consumer {
      BestGrows(s, seen, false, best, fourcc, None);
      if best.None? { BestGrows(s, seen, true, fallback, fourcc, None); }
      return;
    }
    var caps, origin := Intersect(s, fourcc);
    var at := FirstOfKind(caps, false);
    FirstInProducerOrder(s, fourcc, caps, origin, false, at);
    if at.Some? {
      var choice := Choice(fourcc, caps[at.value].modifier, caps[at.value].planes);
      BestGrows(s, seen, false, best, fourcc, Some(choice));
      if best.None? || fourcc < best.value.fourcc {
        best' := Some(choice);
      }
      return;
    }
    BestGrows(s, seen, false, best, fourcc, None);
    at := FirstOfKind(caps, true);
    FirstInProducerOrder(s, fourcc, caps, origin, true, at);
    if at.Some? {
      var choice := Choice(fourcc, MOD_LINEAR, caps[at.value].planes);
      if best.None? { BestGrows(s, seen, true, fallback, fourcc, Some(choice)); }
      if fallback.None? || fourcc < fallback.value.fourcc {
        fallback' := Some(choice);
      }
    } else if best.None? {
      BestGrows(s, seen, true, fallback, fourcc, None);
    }
  }

  method PickFormatSameDevice(s: Sides) returns (r: Result<Choice>)
    ensures SameDevicePick(s, r)
  {
    var best: Option<Choice>, fallback: Option<Choice> := None, None;
    var fourccs := Sorted(s.producer.Keys);
    for n := 0 to |fourccs|
      invariant BestSoFar(s, Elements(fourccs[..n]), false, best)
      invariant best.None? ==> BestSoFar(s, Elements(fourccs[..n]), true, fallback)
    {
      assert fourccs[n] in Elements(fourccs);
      assert fourccs[..n + 1] == fourccs[..n] + [fourccs[n]];
      ElementsSnoc(fourccs[..n], fourccs[n]);
      best, fallback := VisitFourcc(s, fourccs[n], best, fallback, Elements(fourccs[..n]));
    }
    assert fourccs[..|fourccs|] == fourccs;
    BestOfAll(s, false, best);
    if best.Some? { return Ok(best.value); }
    BestOfAll(s, true, fallback);
    if fallback.Some? { return Ok(fallback.value); }
    return Err(NoFormatIntersection);
  }

  // ---------------------------------------------------------------
  // Different devices: a common fourcc, always LINEAR

  predicate SharedFourcc(s: Sides, f: nat) {
    f in s.producer && f in s.consumer && Allowed(s, (f, MOD_LINEAR))
  }

  ghost predicate CrossDevicePick(s: Sides, r: Result<nat>) {
    match r
    case Ok(f) => SharedFourcc(s, f) && forall g: nat | SharedFourcc(s, g) :: f <= g
    case Err(e) => e == NoFormatIntersection && forall g: nat :: !SharedFourcc(s, g)
  }

  method PickFourccOnly(s: Sides) returns (r: Result<nat>)
    ensures CrossDevicePick(s, r)
  {
    var fourccs := Sorted(s.producer.Keys);
    for n := 0 to |fourccs|
      invariant forall i | 0 <= i < n :: !SharedFourcc(s, fourccs[i])
    {
      var fourcc := fourccs[n];
      assert fourcc in Elements(fourccs);
      if fourcc !in s.consumer { continue; }
      if (fourcc, MOD_LINEAR) in s.pBlack { continue; }
      if (fourcc, MOD_LINEAR) in s.cBlack { continue; }
      forall g: nat | SharedFourcc(s, g) ensures fourcc <= g {
        assert g in Elements(fourccs);
      }
      return Ok(fourcc);
    }
    forall g: nat ensures !SharedFourcc(s, g) {
      if g in s.producer { assert g in Elements(fourccs); }
    }
    return Err(NoFormatIntersection);
  }

  // ---------------------------------------------------------------
  // Sync, colour and memory hints

  function StrongestMode(common: bv32): bv32 {
    if common & SYNC_SYNCOBJ_TIMELINE != 0 then SYNC_SYNCOBJ_TIMELINE
    else if common & SYNC_SYNCOBJ_BINARY != 0 then SYNC_SYNCOBJ_BINARY
    else SYNC_IMPLICIT
  }

  function PickSync(producer: bv32, consumer: bv32): Result<bv32> {
    var common := producer & consumer;
    if common == 0 then Err(NoSyncIntersection) else Ok(StrongestMode(common))
  }

  predicate OneBit(x: bv32) {
    x != 0 && x & (x - 1) == 0
  }

  /** A pick is one bit and no stronger mode is common; it fails exactly when nothing is common.
      It is itself a common mode exactly when some mode the daemon knows is common. */
  lemma SyncIsStrongestCommon(producer: bv32, consumer: bv32)
    ensures var common := producer & consumer; var r := PickSync(producer, consumer);
      && (r.Err? <==> common == 0)
      && (r.Err? ==> r.error == NoSyncIntersection)
      && (r.Ok? ==> IsStrongest(r.value, common))
  {
    ModeIsStrongest(producer & consumer);
  }

  predicate IsStrongest(mode: bv32, common: bv32) {
    && OneBit(mode) && mode & 7 == mode
    && (mode & common != 0 <==> common & 7 != 0)
    && (common & SYNC_SYNCOBJ_BINARY != 0 ==> mode >= SYNC_SYNCOBJ_BINARY)
    && (common & SYNC_SYNCOBJ_TIMELINE != 0 ==> mode >= SYNC_SYNCOBJ_TIMELINE)
  }

  lemma ModeIsStrongest(common: bv32)
    ensures IsStrongest(StrongestMode(common), common)
  {
  }

  /** The exception exists: two peers whose only common bit is unknown agree on a mode neither advertised. */
  lemma UnknownSyncBitPicksImplicit()
    ensures PickSync(8, 8) == Ok(SYNC_IMPLICIT) && SYNC_IMPLICIT & 8 == 0
  {
  }

  function PickAxis(common: bv32, mask: bv32): bv32 {
    var c := common & mask;
    if c != 0 then c & (0 - c) else DEFAULT_COLOR & mask
  }

  function PickColor(producer: bv32, consumer: bv32): bv32 {
    var common := producer & consumer;
    PickAxis(common, COLOR_MASK_ENCODING) | PickAxis(common, COLOR_MASK_RANGE) | PickAxis(common, COLOR_MASK_ALPHA)
  }

  /** One axis of a colour: a single bit, the lowest common one if any is common, else the default's. */
  predicate AxisPicked(color: bv32, common: bv32, mask: bv32) {
    var bit := color & mask;
    && OneBit(bit)
    && (common & mask != 0 ==> bit & common != 0 && common & mask & (bit - 1) == 0)
    && (common & mask == 0 ==> bit == DEFAULT_COLOR & mask)
  }

  /** The picked colour has exactly one bit on each axis and none elsewhere. */
  lemma ColorHasOneBitPerAxis(producer: bv32, consumer: bv32)
    ensures var color := PickColor(producer, consumer); var common := producer & consumer;
      && AxisPicked(color, common, COLOR_MASK_ENCODING)
      && AxisPicked(color, common, COLOR_MASK_RANGE)
      && AxisPicked(color, common, COLOR_MASK_ALPHA)
      && color & 0x1ff == color
  {
    var common := producer & consumer;
    AxisIsLowest(common, COLOR_MASK_ENCODING);
    AxisIsLowest(common, COLOR_MASK_RANGE);
    AxisIsLowest(common, COLOR_MASK_ALPHA);
  }

  lemma AxisIsLowest(common: bv32, mask: bv32)
    requires mask in {COLOR_MASK_ENCODING, COLOR_MASK_RANGE, COLOR_MASK_ALPHA}
    ensures AxisPicked(PickAxis(common, mask), common, mask)
    ensures PickAxis(common, mask) & mask == PickAxis(common, mask)
  {
  }

  function PickMemHint(producer: bv32, consumer: bv32): bv32 {
    var common := producer & consumer;
    if common & MEM_HINT_DEVICE_LOCAL != 0 then MEM_HINT_DEVICE_LOCAL
    else if common & MEM_HINT_HOST_VISIBLE != 0 then MEM_HINT_HOST_VISIBLE
    else if common != 0 then common
    else MEM_HINT_HOST_VISIBLE
  }

  /** A common hint is kept, device-local memory before host-visible; without one system memory is assumed. */
  lemma MemHintIsCommonIfAny(producer: bv32, consumer: bv32)
    ensures var (common, hint) := (producer & consumer, PickMemHint(producer, consumer));
      && (common != 0 ==> hint != 0 && hint & common == hint)
      && (common == 0 ==> hint == MEM_HINT_HOST_VISIBLE)
      && (common & MEM_HINT_DEVICE_LOCAL != 0 <==> hint == MEM_HINT_DEVICE_LOCAL)
      && (common != 0 ==> (hint & 3 != 0 ==> OneBit(hint)) && (common & 3 == 0 ==> hint == common))
  {
  }

  // ---------------------------------------------------------------
  // The whole pick

  function SidesOf(producer: PeerCaps, consumer: PeerCaps): Sides {
    Sides(producer.formats, consumer.formats, producer.blacklist, consumer.blacklist)
  }

  /** What a pick means. A missing common sync mode is reported before a missing common format. */
  ghost predicate Picked(producer: PeerCaps, consumer: PeerCaps, r: Result<Scheme>) {
    var sides := SidesOf(producer, consumer);
    var sync := PickSync(producer.sync, consumer.sync);
    match r
    case Err(e) =>
      if sync.Err? then e == NoSyncIntersection
      else if producer.identity.SameDevice(consumer.identity) then SameDevicePick(sides, Err(e))
      else CrossDevicePick(sides, Err(e))
    case Ok(scheme) =>
      && sync == Ok(scheme.syncMode)
      && scheme.color == PickColor(producer.color, consumer.color)
      && scheme.count == DEFAULT_POOL_COUNT
      && (if scheme.choice.modifier == MOD_LINEAR
          then scheme.path == CompatLinear && scheme.memSource == GpuLinear
          else scheme.path == OptimizedSameDevice && scheme.memSource == GpuNative)
      && if producer.identity.SameDevice(consumer.identity)
         then SameDevicePick(sides, Ok(scheme.choice)) &&
           scheme.memHint == PickMemHint(producer.memHint, consumer.memHint)
         else && CrossDevicePick(sides, Ok(scheme.choice.fourcc))
              && scheme.choice.modifier == MOD_LINEAR && scheme.choice.planes == 1 && scheme.memHint == 0
  }

  method Pick(producer: PeerCaps, consumer: PeerCaps) returns (r: Result<Scheme>)
    ensures Picked(producer, consumer, r)
  {
    var sameDev := producer.identity.SameDevice(consumer.identity);
    var sync := PickSync(producer.sync, consumer.sync);
    if sync.Err? {
      return Err(NoSyncIntersection);
    }
    var color := PickColor(producer.color, consumer.color);
    if sameDev {
      var choice := PickFormatSameDevice(SidesOf(producer, consumer));
      if choice.Err? {
        return Err(choice.error);
      }
      var linear := choice.value.modifier == MOD_LINEAR;
      return Ok(Scheme(choice.value, sync.value, color, PickMemHint(producer.memHint, consumer.memHint),
        DEFAULT_POOL_COUNT,
                       if linear then CompatLinear else OptimizedSameDevice,
                       if linear then GpuLinear else GpuNative));
    }
    var fourcc := PickFourccOnly(SidesOf(producer, consumer));
    if fourcc.Err? {
      return Err(fourcc.error);
    }
    return Ok(Scheme(Choice(fourcc.value, MOD_LINEAR, 1), sync.value, color, 0, DEFAULT_POOL_COUNT, CompatLinear,
      GpuLinear));
  }

  /** Peers show that they are one device: by the same UUID, or, where one has none, by one known DRM node. */
  predicate ShowOneDevice(a: DeviceIdentity, b: DeviceIdentity) {
    || (a.deviceUuid == b.deviceUuid && a.deviceUuid != ZERO_UUID)
    || (&& (a.deviceUuid == ZERO_UUID || b.deviceUuid == ZERO_UUID)
        && a.drm.major == b.drm.major && a.drm.minor == b.drm.minor && !(a.drm.major == 0 && a.drm.minor == 0))
  }

  /** Both list the capability for the fourcc, and neither has seen the pair fail. */
  predicate BothAllow(producer: PeerCaps, consumer: PeerCaps, f: nat, m: ModCap) {
    && f in producer.formats && m in producer.formats[f] && f in consumer.formats && m in consumer.formats[f]
    && (f, m.modifier) !in producer.blacklist && (f, m.modifier) !in consumer.blacklist
  }

  /** Peers that show they are one device, have a common sync mode and both allow a tiled modifier get a tiled one
      that both allow, on the optimized path; that one, when there is no other. */
  lemma SharedTilingIsUsed(producer: PeerCaps, consumer: PeerCaps, r: Result<Scheme>, f: nat, m: ModCap)
    requires Picked(producer, consumer, r) && producer.sync & consumer.sync != 0
    requires ShowOneDevice(producer.identity, consumer.identity)
    requires BothAllow(producer, consumer, f, m) && m.modifier != MOD_LINEAR
    ensures r.Ok? && r.value.path == OptimizedSameDevice && r.value.memSource == GpuNative
    ensures var c := r.value.choice;
      && c.modifier != MOD_LINEAR && c.fourcc <= f
      && BothAllow(producer, consumer, c.fourcc, ModCap(c.modifier, c.planes))
      && ((forall g, n | BothAllow(producer, consumer, g, n) && n.modifier != MOD_LINEAR :: g == f && n == m) ==>
            c == Choice(f, m.modifier, m.planes))
  {
    SameDeviceRules(producer.identity, consumer.identity);
    var s := SidesOf(producer, consumer);
    var i: nat :| i < |producer.formats[f]| && producer.formats[f][i] == m;
    assert SharedKind(s, f, i, false);
    assert Offers(s, f, false);
    var c := r.value.choice;
    assert BothAllow(producer, consumer, c.fourcc, ModCap(c.modifier, c.planes));
  }

  /** Peers that do not show it get LINEAR in one plane for the smallest fourcc both know, on the compatible path. */
  lemma SeparateDevicesUseLinear(producer: PeerCaps, consumer: PeerCaps, r: Result<Scheme>, f: nat)
    requires Picked(producer, consumer, r) && producer.sync & consumer.sync != 0
    requires !ShowOneDevice(producer.identity, consumer.identity)
    requires f in producer.formats && f in consumer.formats
    requires (f, MOD_LINEAR) !in producer.blacklist && (f, MOD_LINEAR) !in consumer.blacklist
    ensures r.Ok? && r.value.path == CompatLinear && r.value.memSource == GpuLinear && r.value.memHint == 0
    ensures var c := r.value.choice;
      && c.modifier == MOD_LINEAR && c.planes == 1
      && c.fourcc <= f && c.fourcc in producer.formats && c.fourcc in consumer.formats
  {
    SameDeviceRules(producer.identity, consumer.identity);
    assert SharedFourcc(SidesOf(producer, consumer), f);
  }

  /** The meaning of a pick leaves no choice. */
  lemma PickIsDetermined(producer: PeerCaps, consumer: PeerCaps, a: Result<Scheme>, b: Result<Scheme>)
    requires Picked(producer, consumer, a) && Picked(producer, consumer, b)
    ensures a == b
  {
    var sides := SidesOf(producer, consumer);
    if PickSync(producer.sync, consumer.sync).Ok? && producer.identity.SameDevice(consumer.identity) {
      SameDevicePickIsUnique(sides,
        match a case Ok(x) => Ok(x.choice) case Err(e) => Err(e),
        match b case Ok(x) => Ok(x.choice) case Err(e) => Err(e));
    }
  }

  /** A picked pair is on neither side's blacklist, and the producer's fourcc. */
  lemma PickedIsAllowed(producer: PeerCaps, consumer: PeerCaps, scheme: Scheme)
    requires Picked(producer, consumer, Ok(scheme))
    ensures var pair := (scheme.choice.fourcc, scheme.choice.modifier);
      && pair !in producer.blacklist && pair !in consumer.blacklist
      && pair in Universe(producer.formats)
      && (scheme.choice.modifier != MOD_LINEAR ==> pair in Pairs(producer.formats))
  {
    var s := SidesOf(producer, consumer);
    if producer.identity.SameDevice(consumer.identity) {
      var linear := !BestOfKind(s, false, scheme.choice);
      var i: nat :| SharedKind(s, scheme.choice.fourcc, i, linear)
            && s.producer[scheme.choice.fourcc][i] == ModCap(scheme.choice.modifier, scheme.choice.planes);
      assert (scheme.choice.fourcc, scheme.choice.modifier) ==
               (scheme.choice.fourcc, s.producer[scheme.choice.fourcc][i].modifier);
    }
  }

  // ---------------------------------------------------------------
  // Retrying after bind failures

  /** The distinct (fourcc, modifier) pairs a producer advertises. */
  function Pairs(formats: FormatCaps): set<Pair> {
    set f, i | f in formats && 0 <= i < |formats[f]| :: (f, formats[f][i].modifier)
  }

  function Linears(fourccs: set<nat>): set<Pair> {
    set f | f in fourccs :: (f, MOD_LINEAR)
  }

  /** All a pick can ever come up with. */
  function Universe(formats: FormatCaps): set<Pair> {
    Pairs(formats) + Linears(formats.Keys)
  }

  lemma {:induction false} LinearsCount(fourccs: set<nat>)
    ensures |Linears(fourccs)| == |fourccs|
  {
    if fourccs != {} {
      var f :| f in fourccs;
      LinearsCount(fourccs - {f});
      assert Linears(fourccs) == Linears(fourccs - {f}) + {(f, MOD_LINEAR)};
    }
  }

  lemma UniverseCount(formats: FormatCaps)
    ensures |Universe(formats)| <= |Pairs(formats)| + |formats|
  {
    LinearsCount(formats.Keys);
    UnionCount(Pairs(formats), Linears(formats.Keys));
  }

  lemma UnionCount(a: set<Pair>, b: set<Pair>)
    ensures |a + b| <= |a| + |b|
  {
    assert a + b == a + (b - a);
    assert |b - a| <= |b| by { assert b - a <= b; SubsetCount(b - a, b); }
  }

  /** The producer's caps after the given pairs were blacklisted in turn. */
  function Blacklisted(caps: PeerCaps, pairs: seq<Pair>): PeerCaps {
    caps.(blacklist := caps.blacklist + Elements(pairs))
  }

  /** `blacklist_format`: false when the pair was there already. */
  method BlacklistFormat(caps: PeerCaps, pair: Pair) returns (inserted: bool, caps': PeerCaps)
    ensures caps' == caps.(blacklist := caps.blacklist + {pair})
    ensures inserted <==> caps' != caps
  {
    inserted := pair !in caps.blacklist;
    caps' := caps.(blacklist := caps.blacklist + {pair});
  }

  /** Distinct pairs the producer can come up with, none of them blacklisted before. */
  ghost predicate Attempts(producer: PeerCaps, consumer: PeerCaps, failed: seq<Pair>) {
    NoDuplicates(failed) && Elements(failed) <= Universe(producer.formats) - producer.blacklist - consumer.blacklist
  }

  lemma AnotherAttempt(producer: PeerCaps, consumer: PeerCaps, failed: seq<Pair>, scheme: Scheme)
    requires Attempts(producer, consumer, failed)
    requires Picked(Blacklisted(producer, failed), consumer, Ok(scheme))
    ensures var more := failed + [(scheme.choice.fourcc, scheme.choice.modifier)];
      && Attempts(producer, consumer, more) && |more| <= |Universe(producer.formats)|
      && Blacklisted(producer, more)
         == Blacklisted(producer, failed).(blacklist :=
              Blacklisted(producer, failed).blacklist + {(scheme.choice.fourcc, scheme.choice.modifier)})
  {
    var pair := (scheme.choice.fourcc, scheme.choice.modifier);
    PickedIsAllowed(Blacklisted(producer, failed), consumer, scheme);
    ElementsSnoc(failed, pair);
    assert forall k | 0 <= k < |failed| :: failed[k] in Elements(failed);
    DistinctFit(failed + [pair], Universe(producer.formats));
  }

  /** Pick, let the renderer try to bind, and on failure blacklist the pair on the producer and pick again.
      `bindFails` is arbitrary. No pair is ever tried twice, so it ends: after at most as many failures as the
      producer has distinct pairs and fourccs. */
  method Renegotiate(producer: PeerCaps, consumer: PeerCaps, bindFails: (nat, Choice) -> bool)
    returns (r: Result<Scheme>, failed: seq<Pair>, final: PeerCaps)
    ensures Attempts(producer, consumer, failed)
    ensures |failed| <= |Pairs(producer.formats)| + |producer.formats|
    ensures final == Blacklisted(producer, failed)
    ensures Picked(final, consumer, r)
    ensures r.Ok? ==> !bindFails(|failed|, r.value.choice)
  {
    failed, final := [], producer;
    UniverseCount(producer.formats);
    while true
      invariant Attempts(producer, consumer, failed) && |failed| <= |Universe(producer.formats)|
      invariant final == Blacklisted(producer, failed)
      decreases |Universe(producer.formats)| - |failed|
    {
      r := Pick(final, consumer);
      if r.Err? || !bindFails(|failed|, r.value.choice) {
        return;
      }
      AnotherAttempt(producer, consumer, failed, r.value);
      var pair := (r.value.choice.fourcc, r.value.choice.modifier);
      var inserted, caps := BlacklistFormat(final, pair);
      failed, final := failed + [pair], caps;
    }
  }
}
