/** Who owns a decoded control message: receiving, freeing, and handing its memory on. `bridge/src/bridge.c`. */
module ControlMessages {
  import opened Common
  import opened Errno
  import opened Bytes
  import opened Wire
  import opened Codec
  import opened Decoding
  import opened Framing
  import opened Truncation

  const SPAWN_VERSION := 5
  const INIT := 1
  const SETTING_CHANGED := 2

  /** The fields of each control request; other opcodes are unknown. */
  function Layout(op: nat): Option<seq<Kind>> {
    match op
    case 1 => Some(Init())
    case 2 => Some(SettingChanged())
    case 3 => Some(Empty())
    case 4 => Some(Empty())
    case 5 => Some(PointerMotion())
    case 6 => Some(SetFps())
    case 7 => Some(Empty())
    case 9 => Some(NegotiateBuffers())
    case 10 => Some(PointerButton())
    case 11 => Some(PointerAxis())
    case _ => None
  }

  /** `ww_bridge_control_t`: the opcode and the decoded member of the union. */
  datatype Control = Control(op: nat, body: seq<Slot>)

  const NOTHING := Control(0, [])

  /** The decoded form a control has after a success. */
  predicate WellFormed(c: Control) {
    Layout(c.op).Some? && |c.body| == |Layout(c.op).value|
  }

  /** Decodes a body by its opcode. */
  method DecodeControl(h: Ledger, op: nat, body: seq<byte>) returns (rc: int, out: Control)
    requires h.Valid()
    modifies h
    ensures h.Valid() && h.live == old(h.live) + AllOwn(out.body) && h.refusals >= old(h.refusals) && out.op == op
    ensures rc != WW_OK ==> AllOwn(out.body) == multiset{}
    ensures rc == WW_OK ==> WellFormed(out) && ParseMessage(body, Layout(op).value) == Parsed(Values(out.body), |body|)
    ensures h.refusals == old(h.refusals) ==> rc == BodyCode(op, body)
  {
    hide AllOwn, Values, ParseMessage;
    NoMembers();
    var slots: seq<Slot> := [];
    match Layout(op) {
      case Some(ks) => rc, slots := Decode(h, body, ks);
      case None => rc := WW_ERR_UNKNOWN_OPCODE;
    }
    out := Control(op, slots);
  }

  /** Receives and decodes the next request. The body buffer never outlives the call; a failure leaves the
      memory as it was. Files stay open exactly when the call broke off inside a header: those delivered with the
      header bytes it had consumed, all of them unless a delivery was cut. */
  method RecvControl(ep: Endpoint, h: Ledger) returns (rc: int, out: Control)
    requires h.Valid()
    modifies ep`inbox, ep`open, ep`interrupts, ep`faults, ep`cuts, h
    ensures h.Valid() && h.live == old(h.live) + AllOwn(out.body)
    ensures h.refusals >= old(h.refusals) && ep.faults >= old(ep.faults) && |ep.inbox| <= |old(ep.inbox)|
    ensures rc != WW_OK ==> AllOwn(out.body) == multiset{}
    ensures ep.open != old(ep.open) ==> rc != WW_OK && |old(ep.inbox)| - |ep.inbox| < 4
    ensures ep.cuts >= old(ep.cuts)
    ensures ep.faults == old(ep.faults) && Fitting(old(ep.inbox)) ==> ep.cuts == old(ep.cuts)
    ensures Fitting(old(ep.inbox)) ==>
      LeftOpen(old(ep.open), ep.open, Unclosed(old(ep.inbox), ep.inbox), ep.cuts == old(ep.cuts))
    ensures rc == WW_OK ==> WellFormed(out) && NextFrame(old(ep.inbox)).Whole?
    ensures rc == WW_OK ==> var f := NextFrame(old(ep.inbox)).f;
              && f.op == out.op && ParseMessage(f.body, Layout(out.op).value) == Parsed(Values(out.body), |f.body|)
              && (ep.cuts == old(ep.cuts) ==> f.fds == [])
    ensures ep.faults == old(ep.faults) && h.refusals == old(h.refusals) && Fitting(old(ep.inbox)) ==>
              rc == ControlCode(NextFrame(old(ep.inbox))) && (|old(ep.inbox)| < 4 ==> ep.inbox == [])
  {
    hide FdsOf, AllOwn, Values, ParseMessage, Layout, BodyCode;
    NoMembers();
    HeaderFiles(ep.inbox);
    hide NextFrame, Head, HeaderFds, Unclosed, Part, LeftOpen;
    var op, ptr, body, fds;
    rc, op, ptr, body, fds := ep.RecvFrame(h, MAX_FDS);
    StillOpen(old(ep.inbox), ep.inbox, fds, ep.cuts == old(ep.cuts), old(ep.open));
    if rc != 0 { return rc, NOTHING; }
    PartIsWhole(fds, NextFrame(old(ep.inbox)).f.fds);
    ep.CloseAll(fds, old(ep.open));
    if |fds| > 0 {
      h.Free(ptr, old(h.live));
      return WW_ERR_UNKNOWN_OPCODE, NOTHING;
    }
    rc, out := DecodeControl(h, op, body);
    h.Free(ptr, old(h.live) + AllOwn(out.body));
  }

  /** Of some files those delivered were left open: all of them when no delivery was cut. */
  ghost predicate LeftOpen(before: multiset<int>, after: multiset<int>, fds: seq<int>, whole: bool) {
    before <= after <= before + multiset(fds) && (whole ==> after == before + multiset(fds))
  }

  lemma StillOpen(before: seq<Cell>, after: seq<Cell>, fds: seq<int>, whole: bool, open: multiset<int>)
    requires |after| <= |before|
    ensures |before| - |after| < 4 && Part(fds, Unclosed(before, after), whole) ==>
              LeftOpen(open, open + multiset(fds), Unclosed(before, after), whole)
    ensures |before| - |after| >= 4 ==> LeftOpen(open, open, Unclosed(before, after), whole)
  {
  }

  /** The smallest such input: one byte with one file, then the end of the stream. */
  method HeaderCutLeaks(ep: Endpoint, h: Ledger, b: byte, fd: int) returns (rc: int)
    requires h.Valid() && ep.inbox == [Cell(b, [fd])]
    modifies ep`inbox, ep`open, ep`interrupts, ep`faults, ep`cuts, h
    ensures ep.faults == old(ep.faults) && h.refusals == old(h.refusals) ==>
              rc == -ENOTCONN && ep.open == old(ep.open) + multiset{fd}
  {
    OneFile(b, fd);
    hide FdsOf;
    var out;
    rc, out := RecvControl(ep, h);
  }

  lemma OneFile(b: byte, fd: int)
    ensures FdsOf([Cell(b, [fd])]) == [fd] && [Cell(b, [fd])][..1] == [Cell(b, [fd])]
  {
    assert [Cell(b, [fd])][..0] == [];
  }

  /** What decoding a body reports when memory suffices. */
  function BodyCode(op: nat, body: seq<byte>): int {
    match Layout(op)
    case None => WW_ERR_UNKNOWN_OPCODE
    case Some(ks) =>
      match ParseMessage(body, ks)
      case Parsed(_, _) => WW_OK
      case Bad(c) => c
  }

  /** What an undisturbed receive reports: requests must carry no files. */
  function ControlCode(n: Next): int {
    match n
    case Cut => -ENOTCONN
    case BadLength => WW_ERR_SHORT
    case Whole(f, _) => if f.fds != [] then WW_ERR_UNKNOWN_OPCODE else BodyCode(f.op, f.body)
  }

  /** Requests without a list or a string have one size, and that alone decides. */
  lemma RequestSizes(op: u16, body: seq<byte>)
    ensures op in {3, 4, 7} ==> (BodyCode(op, body) == WW_OK <==> body == [])
    ensures op == 5 ==> (BodyCode(op, body) == WW_OK <==> |body| == 20)
    ensures op == 6 ==> (BodyCode(op, body) == WW_OK <==> |body| == 4)
    ensures op == 9 ==> (BodyCode(op, body) == WW_OK <==> |body| == 40)
    ensures op == 10 ==> (BodyCode(op, body) == WW_OK <==> |body| == 28)
    ensures op == 11 ==> (BodyCode(op, body) == WW_OK <==> |body| == 32)
    ensures op !in {1, 2, 3, 4, 5, 6, 7, 9, 10, 11} ==> BodyCode(op, body) == WW_ERR_UNKNOWN_OPCODE
  {
    TableSizes(op);
    if Layout(op).Some? && AllFixed(Layout(op).value) { SizeDecides(op, body); }
    if Layout(op).None? { assert BodyCode(op, body) == WW_ERR_UNKNOWN_OPCODE; }
    hide BodyCode, Layout, AllFixed, FixedSize;
  }

  lemma SizeDecides(op: u16, body: seq<byte>)
    requires Layout(op).Some? && AllFixed(Layout(op).value)
    ensures BodyCode(op, body) == WW_OK <==> |body| == FixedSize(Layout(op).value)
  {
    hide Layout, FixedSize, AllFixed;
    FixedMessage(body, Layout(op).value);
    hide ParseMessage;
  }

  lemma TableSizes(op: u16)
    ensures Layout(op).Some? <==> op in {1, 2, 3, 4, 5, 6, 7, 9, 10, 11}
    ensures op in {3, 4, 5, 6, 7, 9, 10, 11} ==>
      var size := match op case 5 => 20 case 6 => 4 case 9 => 40 case 10 => 28 case 11 => 32 case _ => 0;
      AllFixed(Layout(op).value) && FixedSize(Layout(op).value) == size
  {
    assert FixedSize(Codec.NegotiateBuffers()) == 40;
  }

  /** What a request is refused for, in the order of the checks: a connection that ends, a frame too short for its
      header, files, an opcode nobody knows, and a body cut short or followed by something. */
  lemma RefusalCodes(op: u16, vs: seq<Value>, fds: seq<int>, cut: nat, more: seq<byte>, rest: seq<Cell>)
    ensures ControlCode(Cut) == -107 && ControlCode(BadLength) == WW_ERR_SHORT
    ensures fds != [] ==> forall body :: ControlCode(Whole(Frame(op, body, fds), rest)) == WW_ERR_UNKNOWN_OPCODE
    ensures Layout(op).None? ==> forall body :: ControlCode(Whole(Frame(op, body, []), rest)) == WW_ERR_UNKNOWN_OPCODE
    ensures Layout(op).Some? && FitsAll(vs, Layout(op).value) ==>
      var body := MessageBytes(0, vs, Layout(op).value);
      && (cut < |body| ==> ControlCode(Whole(Frame(op, body[..cut], []), rest)) == WW_ERR_SHORT)
      && (more != [] ==> ControlCode(Whole(Frame(op, body + more, []), rest)) == WW_ERR_TRAILING)
  {
    if Layout(op).Some? && FitsAll(vs, Layout(op).value) {
      var ks := Layout(op).value;
      if cut < |MessageBytes(0, vs, ks)| { CutMessageIsShort(vs, ks, cut); }
      if more != [] { LongMessageTrails(vs, ks, more); }
    }
    hide ParseMessage, MessageBytes, FitsAll, Layout;
  }

  lemma NoMembers()
    ensures AllOwn([]) == multiset{}
  {
  }

  /** The fields of each event, renderer to daemon. */
  function EventLayout(op: nat): Option<seq<Kind>> {
    match op
    case 1 => Some(Ready())
    case 2 => Some(BindBuffers())
    case 3 => Some(FrameReady())
    case 4 => Some(ErrorReport())
    case 5 => Some(Empty())
    case 6 => Some(FormatCaps())
    case 7 => Some(BindFailed())
    case 8 => Some(InitNack())
    case 9 => Some(ReportState())
    case _ => None
  }

  /** Of the events those without a list or a string have one size as well, and the rest are open-ended. */
  lemma EventSizes(op: u16, body: seq<byte>)
    requires EventLayout(op).Some?
    ensures op in {1, 3, 5} <==> AllFixed(EventLayout(op).value)
    ensures op in {1, 3, 5} ==>
      var size := if op == 1 then 8 else if op == 3 then 28 else 0;
      ParseMessage(body, EventLayout(op).value).Parsed? <==> |body| == size
  {
    OpenEnded();
    if op in {1, 3, 5} { FixedMessage(body, EventLayout(op).value); }
    assert FixedSize(Ready()) == 8 && FixedSize(FrameReady()) == 28;
    hide ParseMessage, FixedSize, AllFixed;
  }

  lemma OpenEnded()
    ensures AllFixed(Ready()) && AllFixed(FrameReady()) && AllFixed(Empty())
    ensures !AllFixed(BindBuffers()) && !AllFixed(ErrorReport()) && !AllFixed(FormatCaps()) && !AllFixed(BindFailed())
    ensures !AllFixed(InitNack()) && !AllFixed(ReportState())
  {
    assert BindBuffers()[8] == KArrayU32 && ErrorReport()[0] == KString && FormatCaps()[0] == KArrayU32;
    assert BindFailed()[3] == KString && InitNack()[2] == KString && ReportState()[0] == KKvList;
  }

  /** End to end: a message encoded from an empty buffer and sent as a frame is what the receiver finds, and
      decodes to what was sent, whatever follows on the stream. */
  lemma MessageArrives(op: u16, ks: seq<Kind>, vs: seq<Value>, fds: seq<int>, rest: seq<Cell>)
    requires Layout(op) == Some(ks) || EventLayout(op) == Some(ks)
    requires FitsAll(vs, ks) && |MessageBytes(0, vs, ks)| <= MAX_BODY && |fds| <= MAX_FDS
    ensures var f := Frame(op, MessageBytes(0, vs, ks), fds); var s := FrameCells(f) + rest;
      NextFrame(s) == Whole(f, rest) && Fitting(s) && ParseMessage(f.body, ks) == Parsed(vs, |f.body|)
  {
    hide NextFrame, ParseMessage, MessageBytes, FrameCells, Fitting, FitsAll, Layout, EventLayout;
    RoundTrip(vs, ks);
    FrameArrives(Frame(op, MessageBytes(0, vs, ks), fds), rest);
  }

  /** In particular an undisturbed receiver accepts a well-formed request. */
  lemma RequestArrives(op: u16, vs: seq<Value>, rest: seq<Cell>)
    requires Layout(op).Some? && FitsAll(vs, Layout(op).value)
    requires |MessageBytes(0, vs, Layout(op).value)| <= MAX_BODY
    ensures ControlCode(NextFrame(FrameCells(Frame(op, MessageBytes(0, vs, Layout(op).value), [])) + rest)) == WW_OK
  {
    hide NextFrame, ParseMessage, MessageBytes, FrameCells, Fitting, FitsAll, Layout;
    MessageArrives(op, Layout(op).value, vs, [], rest);
  }

  /** Releases whatever a control owns, after a success, a failure or an ownership transfer. */
  method ControlFree(h: Ledger, msg: Control, ghost rest: multiset<int>) returns (cleared: Control)
    requires h.Valid() && h.live == rest + AllOwn(msg.body)
    modifies h
    ensures h.Valid() && h.live == rest && h.refusals == old(h.refusals) && cleared == NOTHING
  {
    var emptied := FreeMessage(h, msg.body, rest);
    cleared := NOTHING;
  }

  // ---------------------------------------------------------------
  // The init handshake

  /** `ww_bridge_init_t` */
  datatype InitData = InitData(version: int, settings: Slot, properties: Slot)

  const NO_INIT := InitData(0, SPairs(0, []), SString(NULL_STRING))

  /** Moves the memory of a decoded init to the caller. On a version mismatch the caller gets -EPROTO and
      still owns it; in every other failure it owns nothing. */
  method RecvInit(ep: Endpoint, h: Ledger) returns (rc: int, out: InitData)
    requires h.Valid()
    modifies ep`inbox, ep`open, ep`interrupts, ep`faults, ep`cuts, h
    ensures h.Valid() && h.live == old(h.live) + Owns(out.settings) + Owns(out.properties)
    ensures h.refusals >= old(h.refusals) && ep.faults >= old(ep.faults) && |ep.inbox| <= |old(ep.inbox)|
    ensures ep.cuts >= old(ep.cuts)
    ensures ep.faults == old(ep.faults) && Fitting(old(ep.inbox)) ==> ep.cuts == old(ep.cuts)
    ensures Fitting(old(ep.inbox)) ==>
      LeftOpen(old(ep.open), ep.open, Unclosed(old(ep.inbox), ep.inbox), ep.cuts == old(ep.cuts))
    ensures ep.faults == old(ep.faults) && h.refusals == old(h.refusals) && Fitting(old(ep.inbox)) ==>
              rc == InitCode(NextFrame(old(ep.inbox)))
    ensures rc == 0 ==> out.version == SPAWN_VERSION && NextFrame(old(ep.inbox)).Whole?
    ensures rc == 0 ==> var f := NextFrame(old(ep.inbox)).f;
              f.op == INIT
              && ParseMessage(f.body, Init()) ==
                   Parsed([VU32(SPAWN_VERSION), ValueOf(out.settings), ValueOf(out.properties)], |f.body|)
    ensures rc != 0 && Owns(out.settings) + Owns(out.properties) != multiset{} ==>
              rc == -EPROTO && out.version != SPAWN_VERSION
    ensures ep.faults == old(ep.faults) && h.refusals == old(h.refusals) && Fitting(old(ep.inbox)) ==>
              var n := NextFrame(old(ep.inbox));
              n.Whole? && n.f.op == INIT && ControlCode(n) == WW_OK ==> HandsOver(n.f.body, out)
  {
    hide NextFrame, Fitting, FdsOf, AllOwn, Values, ParseMessage, Owns;
    ZeroOwnsNothing(KKvList);
    ZeroOwnsNothing(KString);
    out := NO_INIT;
    var ctl;
    rc, ctl := RecvControl(ep, h);
    if rc != 0 { return; }
    if ctl.op != INIT {
      ctl := ControlFree(h, ctl, old(h.live));
      return -EPROTO, out;
    }
    ThreeMembers(ctl.body);
    InitShape(NextFrame(old(ep.inbox)).f.body, ctl.body);
    out := InitData(ctl.body[0].word, ctl.body[1], ctl.body[2]);
    ctl := ctl.(body := Zeroed(Init()));
    if out.version != SPAWN_VERSION { return -EPROTO, out; }
  }

  /** The caller has what a body says, member by member. */
  ghost predicate HandsOver(body: seq<byte>, out: InitData) {
    var p := ParseMessage(body, Init());
    p.Parsed? && |p.value| == 3 && p.value[0].VU32? && p.value[0].word == out.version
    && p.value[1] == ValueOf(out.settings) && p.value[2] == ValueOf(out.properties)
  }

  /** The daemon's init, encoded and framed, on an undisturbed stream: the version decides whether it is accepted,
      and either way the caller gets the settings and properties that were sent, and owns them. */
  method InitArrives(ep: Endpoint, h: Ledger, version: u32, settings: seq<Kv>, properties: Text, ghost rest: seq<Cell>)
    returns (rc: int, out: InitData)
    requires h.Valid() && FitsAll(InitValues(version, settings, properties), Init())
    requires |InitBytes(version, settings, properties)| <= MAX_BODY
    requires ep.inbox == FrameCells(Frame(1, InitBytes(version, settings, properties), [])) + rest
    modifies ep`inbox, ep`open, ep`interrupts, ep`faults, ep`cuts, h
    ensures h.Valid() && h.live == old(h.live) + Owns(out.settings) + Owns(out.properties)
    ensures ep.faults == old(ep.faults) && h.refusals == old(h.refusals) ==>
      && rc == (if version == 5 then 0 else -EPROTO)
      && out.version == version
      && ValueOf(out.settings) == VKvList(settings) && ValueOf(out.properties) == VString(properties)
  {
    hide NextFrame, ParseMessage, MessageBytes, FrameCells, Fitting, FitsAll, Layout, ControlCode, InitCode, HandsOver,
      InitValues, ValueOf, LeftOpen, Unclosed;
    InitIsRequest();
    MessageArrives(1, Init(), InitValues(version, settings, properties), [], rest);
    RequestArrives(1, InitValues(version, settings, properties), rest);
    rc, out := RecvInit(ep, h);
    InitIsKnown(version, settings, properties, NextFrame(old(ep.inbox)), out);
  }

  function InitValues(version: u32, settings: seq<Kv>, properties: Text): seq<Value> {
    [VU32(version), VKvList(settings), VString(properties)]
  }

  function InitBytes(version: u32, settings: seq<Kv>, properties: Text): seq<byte>
    requires FitsAll(InitValues(version, settings, properties), Init())
  {
    MessageBytes(0, InitValues(version, settings, properties), Init())
  }

  lemma InitIsRequest()
    ensures Layout(1) == Some(Init()) && INIT == 1
  {
  }

  lemma InitIsKnown(version: u32, settings: seq<Kv>, properties: Text, n: Next, out: InitData)
    requires n.Whole? && n.f.op == INIT && ControlCode(n) == WW_OK
    requires ParseMessage(n.f.body, Init()) == Parsed(InitValues(version, settings, properties), |n.f.body|)
    ensures InitCode(n) == if version == 5 then 0 else -EPROTO
    ensures HandsOver(n.f.body, out) ==>
      && out.version == version
      && ValueOf(out.settings) == VKvList(settings) && ValueOf(out.properties) == VString(properties)
  {
    hide ParseMessage, ControlCode, ValueOf;
  }

  /** What an undisturbed handshake reports. */
  function InitCode(n: Next): int {
    if ControlCode(n) == WW_OK && (n.f.op != INIT || VersionOf(n.f.body) != VU32(SPAWN_VERSION)) then -EPROTO
    else ControlCode(n)
  }

  function VersionOf(body: seq<byte>): Value {
    match ParseMessage(body, Init())
    case Parsed(vs, _) => vs[0]
    case Bad(_) => VU32(0)
  }

  lemma ThreeMembers(s: seq<Slot>)
    requires |s| == 3
    ensures AllOwn(s) == Owns(s[0]) + (Owns(s[1]) + Owns(s[2]))
    ensures Values(s) == [ValueOf(s[0]), ValueOf(s[1]), ValueOf(s[2])]
  {
    hide Owns, ValueOf;
    assert s[1..][1..][1..] == [] && s[1..][0] == s[1] && s[1..][1..][0] == s[2];
    assert AllOwn(s[1..][1..]) == Owns(s[2]);
    assert AllOwn(s[1..]) == Owns(s[1]) + Owns(s[2]);
    assert s[..2][..1][..0] == [] && s[..2][1] == s[1] && s[..2][..1][0] == s[0];
    assert Values(s[..2][..1]) == [ValueOf(s[0])];
    assert Values(s[..2]) == [ValueOf(s[0]), ValueOf(s[1])];
  }

  /** The first member of a decoded init is its version word. */
  lemma InitShape(bytes: seq<byte>, s: seq<Slot>)
    requires |s| == 3 && ParseMessage(bytes, Init()) == Parsed(Values(s), |bytes|)
    ensures s[0].SU32? && Owns(s[0]) == multiset{}
  {
    ThreeMembers(s);
    FirstField(bytes, Init());
  }

  lemma FirstField(bytes: seq<byte>, ks: seq<Kind>)
    requires |ks| == 3 && ks[0] == KU32 && ParseFields(bytes, 0, ks).Parsed?
    ensures ParseFields(bytes, 0, ks).value[0].VU32?
  {
    hide ParseField;
    assert ks[..2][..1][..0] == [];
    assert ParseFields(bytes, 0, ks[..2]).Parsed?;
    assert ParseFields(bytes, 0, ks[..2][..1]).Parsed?;
    WordField(bytes, 0);
  }

  lemma WordField(bytes: seq<byte>, pos: nat)
    ensures ParseField(bytes, pos, KU32).Parsed? ==> ParseField(bytes, pos, KU32).value.VU32?
  {
  }

  method InitFree(h: Ledger, i: InitData, ghost rest: multiset<int>) returns (cleared: InitData)
    requires h.Valid() && h.live == rest + Owns(i.settings) + Owns(i.properties)
    modifies h
    ensures h.Valid() && h.live == rest && h.refusals == old(h.refusals) && cleared == NO_INIT
  {
    hide Owns;
    var s := FreeSlot(h, i.settings, rest + Owns(i.properties));
    var t := FreeSlot(h, i.properties, rest);
    cleared := NO_INIT;
  }

  /** The whole handshake, whatever it returned, leaks nothing and frees nothing twice. */
  method Handshake(ep: Endpoint, h: Ledger) returns (rc: int, version: int)
    requires h.Valid()
    modifies ep`inbox, ep`open, ep`interrupts, ep`faults, ep`cuts, h
    ensures h.Valid() && h.live == old(h.live) && |ep.inbox| <= |old(ep.inbox)|
    ensures ep.cuts >= old(ep.cuts)
    ensures ep.faults == old(ep.faults) && Fitting(old(ep.inbox)) ==> ep.cuts == old(ep.cuts)
    ensures Fitting(old(ep.inbox)) ==>
      LeftOpen(old(ep.open), ep.open, Unclosed(old(ep.inbox), ep.inbox), ep.cuts == old(ep.cuts))
    ensures ep.faults == old(ep.faults) && h.refusals == old(h.refusals) && Fitting(old(ep.inbox)) ==>
              rc == InitCode(NextFrame(old(ep.inbox)))
  {
    hide *;
    var data;
    rc, data := RecvInit(ep, h);
    version := data.version;
    data := InitFree(h, data, old(h.live));
  }

  // ---------------------------------------------------------------
  // Changed settings

  /** Takes the list out of the control, which then owns nothing. */
  method SettingChangedFromControl(h: Ledger, ctl: Control) returns (rc: int, left: Control, taken: Slot)
    requires WellFormed(ctl)
    ensures rc in {0, -EINVAL} && (rc == 0 <==> ctl.op == SETTING_CHANGED)
    ensures rc == 0 ==> taken == ctl.body[0] && AllOwn(left.body) == multiset{} && left.op == ctl.op
    ensures rc != 0 ==> left == ctl && taken == Zero(KKvList)
    ensures AllOwn(ctl.body) == AllOwn(left.body) + Owns(taken)
  {
    hide Owns;
    ZeroOwnsNothing(KKvList);
    if ctl.op != SETTING_CHANGED { return -EINVAL, ctl, Zero(KKvList); }
    assert ctl.body[1..] == [];
    left, taken := ctl.(body := [Zero(KKvList)]), ctl.body[0];
    assert left.body[1..] == [];
    rc := 0;
  }

  /** After the transfer both owners can be freed, in either order, exactly once each. */
  method TransferAndFree(h: Ledger, ctl: Control, controlFirst: bool, ghost rest: multiset<int>)
    requires h.Valid() && WellFormed(ctl) && h.live == rest + AllOwn(ctl.body)
    modifies h
    ensures h.Valid() && h.live == rest
  {
    hide Owns, AllOwn;
    var rc, left, taken := SettingChangedFromControl(h, ctl);
    if controlFirst {
      var c := ControlFree(h, left, rest + Owns(taken));
      var t := FreeSlot(h, taken, rest);
    } else {
      var t := FreeSlot(h, taken, rest + AllOwn(left.body));
      var c := ControlFree(h, left, rest);
    }
  }
}
