/** Placing a texture on a display, and mapping pointer positions back. Lengths are real numbers: rounding is not
    modelled. `src/display/layout.rs`. */
module Layouts {
  import opened Common

  datatype FillMode = Stretched | PreserveAspectFit | PreserveAspectCrop | Centered

  datatype Rect = Rect(x: real, y: real, w: real, h: real)

  /** A position in percent; values above 100 count as 100. */
  datatype Location = Location(x: nat, y: nat)

  datatype Size = Size(w: real, h: real)

  datatype Placement = Placement(source: Rect, dest: Rect)

  function MinReal(a: real, b: real): real {
    if a < b then a else b
  }

  function MaxReal(a: real, b: real): real {
    if a < b then b else a
  }

  function Factor(percent: nat): real {
    (if percent > 100 then 100 else percent) as real / 100.0
  }

  /** The share of free space before the picture. */
  function Offset(slack: real, factor: real): real {
    slack * factor
  }

  function Scaled(len: real, scale: real): real {
    len * scale
  }

  /** One axis at native size: offset and length in the texture, then in the display. */
  function AxisCentered(tex: real, disp: real, factor: real): (real, real, real, real) {
    if tex <= disp then (0.0, tex, Offset(disp - tex, factor), tex)
    else (Offset(tex - disp, factor), disp, 0.0, disp)
  }

  function Compute(tex: Size, disp: Size, mode: FillMode, at: Location): Placement {
    if tex.w <= 0.0 || tex.h <= 0.0 || disp.w <= 0.0 || disp.h <= 0.0 then
      Placement(Rect(0.0, 0.0, MaxReal(tex.w, 0.0), MaxReal(tex.h, 0.0)),
                Rect(0.0, 0.0, MaxReal(disp.w, 0.0), MaxReal(disp.h, 0.0)))
    else
      var (fx, fy) := (Factor(at.x), Factor(at.y));
      var (whole, full) := (Rect(0.0, 0.0, tex.w, tex.h), Rect(0.0, 0.0, disp.w, disp.h));
      match mode
      case Stretched => Placement(whole, full)
      case PreserveAspectFit =>
        var scale := MinReal(disp.w / tex.w, disp.h / tex.h);
        var (dw, dh) := (Scaled(tex.w, scale), Scaled(tex.h, scale));
        Placement(whole, Rect(Offset(disp.w - dw, fx), Offset(disp.h - dh, fy), dw, dh))
      case PreserveAspectCrop =>
        var scale := MaxReal(disp.w / tex.w, disp.h / tex.h);
        var (sw, sh) := (disp.w / scale, disp.h / scale);
        Placement(Rect(Offset(tex.w - sw, fx), Offset(tex.h - sh, fy), sw, sh), full)
      case Centered =>
        var (sx, sw, dx, dw) := AxisCentered(tex.w, disp.w, fx);
        var (sy, sh, dy, dh) := AxisCentered(tex.h, disp.h, fy);
        Placement(Rect(sx, sy, sw, sh), Rect(dx, dy, dw, dh))
  }

  predicate Positive(s: Size) {
    s.w > 0.0 && s.h > 0.0
  }

  predicate Within(r: Rect, s: Size) {
    0.0 <= r.x && 0.0 <= r.y && r.w >= 0.0 && r.h >= 0.0 && r.x + r.w <= s.w && r.y + r.h <= s.h
  }

  // ---------------------------------------------------------------
  // Arithmetic

  lemma FactorInRange(p: nat)
    ensures 0.0 <= Factor(p) <= 1.0
  {
  }

  /** A part of some slack. */
  lemma PartOf(slack: real, f: real)
    requires slack >= 0.0 && 0.0 <= f <= 1.0
    ensures 0.0 <= Offset(slack, f) <= slack
  {
    assert slack * f <= slack * 1.0 by { ProductGrows(slack, f, 1.0); }
    ProductGrows(slack, 0.0, f);
  }

  lemma ProductGrows(k: real, a: real, b: real)
    requires k >= 0.0 && a <= b
    ensures k * a <= k * b
  {
    assert k * (b - a) >= 0.0;
  }

  lemma DivTimes(a: real, b: real)
    requires b != 0.0
    ensures b * (a / b) == a
  {
  }

  lemma QuotientPositive(a: real, b: real)
    requires a > 0.0 && b > 0.0
    ensures a / b > 0.0
  {
    DivTimes(a, b);
    if a / b <= 0.0 { ProductGrows(b, a / b, 0.0); }
  }

  /** `fit` touches the smaller of two quotients: one axis is filled and the other is not exceeded. */
  lemma FitScale(tex: Size, disp: Size)
    requires Positive(tex) && Positive(disp)
    ensures var s := MinReal(disp.w / tex.w, disp.h / tex.h);
      s > 0.0 && 0.0 <= Scaled(tex.w, s) <= disp.w && 0.0 <= Scaled(tex.h, s) <= disp.h
      && (Scaled(tex.w, s) == disp.w || Scaled(tex.h, s) == disp.h)
  {
    DivTimes(disp.w, tex.w);
    DivTimes(disp.h, tex.h);
    QuotientPositive(disp.w, tex.w);
    QuotientPositive(disp.h, tex.h);
    var s := MinReal(disp.w / tex.w, disp.h / tex.h);
    ProductGrows(tex.w, s, disp.w / tex.w);
    ProductGrows(tex.h, s, disp.h / tex.h);
    ProductGrows(tex.w, 0.0, s);
    ProductGrows(tex.h, 0.0, s);
  }

  /** Dividing by the larger quotient is multiplying by the smaller inverse quotient. */
  lemma CropScale(tex: Size, disp: Size)
    requires Positive(tex) && Positive(disp)
    ensures var s := MaxReal(disp.w / tex.w, disp.h / tex.h); var inv := MinReal(tex.w / disp.w, tex.h / disp.h);
      s > 0.0 && disp.w / s == Scaled(disp.w, inv) && disp.h / s == Scaled(disp.h, inv)
  {
    QuotientPositive(disp.w, tex.w);
    QuotientPositive(disp.h, tex.h);
    InverseOrder(disp.w, tex.w, disp.h, tex.h);
    var s := MaxReal(disp.w / tex.w, disp.h / tex.h);
    if disp.w / tex.w < disp.h / tex.h {
      DivideByQuotient(disp.w, disp.h, tex.h);
      DivideByQuotient(disp.h, disp.h, tex.h);
    } else {
      DivideByQuotient(disp.w, disp.w, tex.w);
      DivideByQuotient(disp.h, disp.w, tex.w);
    }
  }

  lemma DivideByQuotient(x: real, a: real, b: real)
    requires a > 0.0 && b > 0.0
    ensures a / b > 0.0 && x / (a / b) == x * (b / a)
  {
    QuotientPositive(a, b);
    var q, r := a / b, b / a;
    DivTimes(a, b);
    DivTimes(b, a);
    assert b * q == a && a * r == b;
    assert q * r == 1.0 by {
      assert b * (q * r) == (b * q) * r == a * r == b;
      CancelLeft(b, q * r, 1.0);
    }
    DivTimes(x, q);
    assert q * (x * r) == x * (q * r) == x;
    CancelLeft(q, x / q, x * r);
  }

  lemma CancelLeft(k: real, a: real, b: real)
    requires k > 0.0 && k * a == k * b
    ensures a == b
  {
    assert k * (a - b) == 0.0;
  }

  lemma InverseOrder(a: real, b: real, c: real, d: real)
    requires a > 0.0 && b > 0.0 && c > 0.0 && d > 0.0
    ensures a / b < c / d <==> d / c < b / a
    ensures a / b == c / d <==> d / c == b / a
  {
    CrossMultiply(a, b, c, d);
    CrossMultiply(d, c, b, a);
    assert a * d == d * a && b * c == c * b;
  }

  lemma CrossMultiply(a: real, b: real, c: real, d: real)
    requires b > 0.0 && d > 0.0
    ensures a / b < c / d <==> a * d < b * c
    ensures a / b == c / d <==> a * d == b * c
  {
    DivTimes(a, b);
    DivTimes(c, d);
    var p, q := a / b, c / d;
    assert b * p == a && d * q == c;
    assert a * d == (b * d) * p && b * c == (b * d) * q;
    assert b * d > 0.0;
    SameOrder(b * d, p, q);
  }

  lemma SameOrder(k: real, a: real, b: real)
    requires k > 0.0
    ensures a < b <==> k * a < k * b
    ensures a == b <==> k * a == k * b
  {
    assert k * b - k * a == k * (b - a);
  }

  // ---------------------------------------------------------------
  // Placements

  /** The texture part is inside the texture and the display part inside the display, whatever the mode. */
  lemma PlacementStaysInside(tex: Size, disp: Size, mode: FillMode, at: Location)
    requires Positive(tex) && Positive(disp)
    ensures Within(Compute(tex, disp, mode, at).source, tex) && Within(Compute(tex, disp, mode, at).dest, disp)
  {
    FactorInRange(at.x);
    FactorInRange(at.y);
    var (fx, fy) := (Factor(at.x), Factor(at.y));
    hide Factor;
    match mode
    case Stretched =>
    case PreserveAspectFit => FitStaysInside(tex, disp, fx, fy);
    case PreserveAspectCrop => CropStaysInside(tex, disp, at);
    case Centered =>
      AxisStaysInside(tex.w, disp.w, fx);
      AxisStaysInside(tex.h, disp.h, fy);
  }

  lemma FitStaysInside(tex: Size, disp: Size, fx: real, fy: real)
    requires Positive(tex) && Positive(disp) && 0.0 <= fx <= 1.0 && 0.0 <= fy <= 1.0
    ensures var s := MinReal(disp.w / tex.w, disp.h / tex.h); var (dw, dh) := (Scaled(tex.w, s), Scaled(tex.h, s));
      Within(Rect(Offset(disp.w - dw, fx), Offset(disp.h - dh, fy), dw, dh), disp)
  {
    FitScale(tex, disp);
    hide Offset, Scaled, MinReal;
    var s := MinReal(disp.w / tex.w, disp.h / tex.h);
    PartOf(disp.w - Scaled(tex.w, s), fx);
    PartOf(disp.h - Scaled(tex.h, s), fy);
  }

  lemma CropStaysInside(tex: Size, disp: Size, at: Location)
    requires Positive(tex) && Positive(disp)
    ensures Within(Compute(tex, disp, PreserveAspectCrop, at).source, tex)
  {
    FactorInRange(at.x);
    FactorInRange(at.y);
    hide Offset, Scaled;
    CropMirrorsFit(tex, disp, at);
    hide Factor, MinReal, MaxReal, Offset, Scaled;
    FitStaysInside(disp, tex, Factor(at.x), Factor(at.y));
  }

  lemma AxisStaysInside(tex: real, disp: real, f: real)
    requires tex > 0.0 && disp > 0.0 && 0.0 <= f <= 1.0
    ensures var a := AxisCentered(tex, disp, f);
      0.0 <= a.0 && a.0 + a.1 <= tex && 0.0 <= a.2 && a.2 + a.3 <= disp && a.1 == a.3 == MinReal(tex, disp)
  {
    hide Offset;
    if tex <= disp { PartOf(disp - tex, f); } else { PartOf(tex - disp, f); }
  }

  /** Fit shows the whole texture, keeps its aspect ratio, fills one axis, and could not be any larger. */
  lemma FitIsLargestWholePicture(tex: Size, disp: Size, at: Location, scale: real)
    requires Positive(tex) && Positive(disp)
    ensures var p := Compute(tex, disp, PreserveAspectFit, at);
      && p.source == Rect(0.0, 0.0, tex.w, tex.h)
      && p.dest.w * tex.h == p.dest.h * tex.w
      && (p.dest.w == disp.w || p.dest.h == disp.h)
      && (Scaled(tex.w, scale) <= disp.w && Scaled(tex.h, scale) <= disp.h ==>
            Scaled(tex.w, scale) <= p.dest.w && Scaled(tex.h, scale) <= p.dest.h)
  {
    hide Factor, Offset;
    FitScale(tex, disp);
    var s := MinReal(disp.w / tex.w, disp.h / tex.h);
    SameAspect(tex.w, tex.h, s);
    if Scaled(tex.w, scale) <= disp.w && Scaled(tex.h, scale) <= disp.h {
      LargerScale(tex.w, s, scale);
      LargerScale(tex.h, s, scale);
      LargerScale(tex.w, scale, s);
      LargerScale(tex.h, scale, s);
    }
    hide Scaled, MinReal;
  }

  lemma SameAspect(w: real, h: real, s: real)
    ensures Scaled(w, s) * h == Scaled(h, s) * w
  {
  }

  lemma LargerScale(len: real, a: real, b: real)
    requires len > 0.0
    ensures Scaled(len, a) < Scaled(len, b) <==> a < b
  {
    SameOrder(len, a, b);
  }

  /** Crop fills the display, shows a part with the display's aspect ratio, and uses one axis of the texture whole. */
  lemma CropFillsTheDisplay(tex: Size, disp: Size, at: Location)
    requires Positive(tex) && Positive(disp)
    ensures var p := Compute(tex, disp, PreserveAspectCrop, at);
      && p.dest == Rect(0.0, 0.0, disp.w, disp.h)
      && p.source.w * disp.h == p.source.h * disp.w
      && (p.source.w == tex.w || p.source.h == tex.h)
  {
    CropMirrorsFit(tex, disp, at);
    FitIsLargestWholePicture(disp, tex, at, 1.0);
  }

  /** What crop takes from a texture is where fit would put the display's shape on it. */
  lemma CropMirrorsFit(tex: Size, disp: Size, at: Location)
    requires Positive(tex) && Positive(disp)
    ensures Compute(tex, disp, PreserveAspectCrop, at).source == Compute(disp, tex, PreserveAspectFit, at).dest
  {
    hide Factor, Offset, Scaled;
    CropScale(tex, disp);
  }

  /** Centered is one texture pixel per display pixel. */
  lemma CenteredIsOneToOne(tex: Size, disp: Size, at: Location)
    requires Positive(tex) && Positive(disp)
    ensures var p := Compute(tex, disp, Centered, at);
      && p.source.w == p.dest.w == MinReal(tex.w, disp.w) && p.source.h == p.dest.h == MinReal(tex.h, disp.h)
      && (p.source.x == 0.0 || p.dest.x == 0.0) && (p.source.y == 0.0 || p.dest.y == 0.0)
  {
    hide Factor, Offset;
  }

  function Percent(p: nat): real {
    if p > 100 then 100.0 else p as real
  }

  /** Whatever the mode, the location says which share of the free or cropped space comes first: 0 pins to the top
      left, 50 centres, 100 pins to the bottom right. */
  lemma LocationSharesTheSlack(tex: Size, disp: Size, mode: FillMode, at: Location)
    requires Positive(tex) && Positive(disp)
    ensures var (s, d) := (Compute(tex, disp, mode, at).source, Compute(tex, disp, mode, at).dest);
      && 100.0 * s.x == Percent(at.x) * (tex.w - s.w) && 100.0 * s.y == Percent(at.y) * (tex.h - s.h)
      && 100.0 * d.x == Percent(at.x) * (disp.w - d.w) && 100.0 * d.y == Percent(at.y) * (disp.h - d.h)
  {
    var p := Compute(tex, disp, mode, at);
    hide Scaled, MinReal, MaxReal, Percent, Factor, Offset;
    ShareOf(tex.w - p.source.w, at.x);
    ShareOf(tex.h - p.source.h, at.y);
    ShareOf(disp.w - p.dest.w, at.x);
    ShareOf(disp.h - p.dest.h, at.y);
  }

  lemma ShareOf(slack: real, p: nat)
    ensures 100.0 * Offset(slack, Factor(p)) == Percent(p) * slack
    ensures slack == 0.0 ==> Offset(slack, Factor(p)) == 0.0 && Percent(p) * slack == 0.0
  {
    assert 100.0 * Factor(p) == Percent(p);
    assert 100.0 * (slack * Factor(p)) == (100.0 * Factor(p)) * slack;
  }

  /** Stretched shows the whole texture on the whole display; so do inputs without extent, with negative lengths
      counted as none. */
  lemma StretchedIsWhole(tex: Size, disp: Size, mode: FillMode, at: Location)
    requires mode == Stretched || !Positive(tex) || !Positive(disp)
    ensures Compute(tex, disp, mode, at) ==
      Placement(Rect(0.0, 0.0, MaxReal(tex.w, 0.0), MaxReal(tex.h, 0.0)),
                Rect(0.0, 0.0, MaxReal(disp.w, 0.0), MaxReal(disp.h, 0.0)))
  {
  }

  // ---------------------------------------------------------------
  // Pointer positions

  /** What a display shows: a part of the texture, where, and under which of the eight buffer transforms. */
  datatype Projected = Projected(source: Rect, dest: Rect, transform: nat)

  type Point = (real, real)

  /** From display to buffer on the unit square; unknown transforms change nothing. */
  function ToBuffer(t: nat, p: Point): Point {
    var (u, v) := p;
    match t
    case 0 => (u, v)
    case 1 => (1.0 - v, u)
    case 2 => (1.0 - u, 1.0 - v)
    case 3 => (v, 1.0 - u)
    case 4 => (1.0 - u, v)
    case 5 => (v, u)
    case 6 => (u, 1.0 - v)
    case 7 => (1.0 - v, 1.0 - u)
    case _ => (u, v)
  }

  function ToUnit(p: real, start: real, len: real): real
    requires len != 0.0
  {
    (p - start) / len
  }

  function FromUnit(u: real, start: real, len: real): real {
    start + u * len
  }

  function DisplayPointToTexture(p: Point, c: Projected): Option<Point> {
    if c.dest.w <= 0.0 || c.dest.h <= 0.0 then None
    else
      var (u, v) := (ToUnit(p.0, c.dest.x, c.dest.w), ToUnit(p.1, c.dest.y, c.dest.h));
      if !(0.0 <= u <= 1.0) || !(0.0 <= v <= 1.0) then None
      else
        var (bu, bv) := ToBuffer(c.transform, (u, v));
        Some((FromUnit(bu, c.source.x, c.source.w), FromUnit(bv, c.source.y, c.source.h)))
  }

  /** A quarter turn that takes the top left corner to the bottom left one. */
  function QuarterTurn(p: Point): Point {
    (p.1, 1.0 - p.0)
  }

  function Turned(quarters: nat, p: Point): Point {
    if quarters == 0 then p else QuarterTurn(Turned(quarters - 1, p))
  }

  function Mirrored(p: Point): Point {
    (1.0 - p.0, p.1)
  }

  /** From buffer to display, from the numbering alone: transforms 4 to 7 mirror first, and each then turns by
      its last two bits. */
  function ToDisplay(t: nat, p: Point): Point {
    if t > 7 then p
    else Turned(t % 4, if t >= 4 then Mirrored(p) else p)
  }

  predicate OnUnitSquare(p: Point) {
    0.0 <= p.0 <= 1.0 && 0.0 <= p.1 <= 1.0
  }

  /** The table inverts the forward transform, in both directions, for every transform. */
  lemma TransformsInvert(t: nat, p: Point)
    ensures ToBuffer(t, ToDisplay(t, p)) == p && ToDisplay(t, ToBuffer(t, p)) == p
    ensures OnUnitSquare(p) ==> OnUnitSquare(ToBuffer(t, p)) && OnUnitSquare(ToDisplay(t, p))
  {
    TurnedOut(if t >= 4 then Mirrored(p) else p);
    TurnedOut(if t >= 4 then Mirrored(ToBuffer(t, p)) else ToBuffer(t, p));
    hide Turned;
    match t
    case 0 => case 1 => case 2 => case 3 => case 4 => case 5 => case 6 => case 7 => case _ =>
  }

  lemma TurnedOut(p: Point)
    ensures Turned(0, p) == p && Turned(1, p) == (p.1, 1.0 - p.0)
    ensures Turned(2, p) == (1.0 - p.0, 1.0 - p.1) && Turned(3, p) == (1.0 - p.1, p.0)
  {
    assert Turned(2, p) == QuarterTurn(Turned(1, p));
    assert Turned(3, p) == QuarterTurn(Turned(2, p));
  }

  predicate Inside(p: Point, r: Rect) {
    r.x <= p.0 <= r.x + r.w && r.y <= p.1 <= r.y + r.h
  }

  lemma UnitRange(p: real, start: real, len: real)
    requires len > 0.0
    ensures 0.0 <= ToUnit(p, start, len) <= 1.0 <==> start <= p <= start + len
    ensures FromUnit(ToUnit(p, start, len), start, len) == p
  {
    var u := ToUnit(p, start, len);
    DivTimes(p - start, len);
    SameOrder(len, u, 0.0);
    SameOrder(len, 1.0, u);
  }

  lemma UnitSpan(u: real, len: real)
    requires len > 0.0
    ensures 0.0 <= u <= 1.0 <==> 0.0 <= len * u <= len
  {
    SameOrder(len, u, 0.0);
    SameOrder(len, 1.0, u);
  }

  lemma TimesThenDiv(u: real, len: real)
    requires len > 0.0
    ensures (len * u) / len == u
  {
    DivTimes(len * u, len);
    CancelLeft(len, (len * u) / len, u);
  }

  lemma ScaledRange(u: real, start: real, len: real)
    requires len > 0.0
    ensures 0.0 <= u <= 1.0 <==> start <= FromUnit(u, start, len) <= start + len
    ensures ToUnit(FromUnit(u, start, len), start, len) == u
  {
    UnitSpan(u, len);
    TimesThenDiv(u, len);
    assert FromUnit(u, start, len) == start + len * u;
    assert FromUnit(u, start, len) - start == len * u;
  }

  /** Where on the display a texture point is shown. */
  function TexturePointToDisplay(q: Point, c: Projected): Point
    requires c.source.w > 0.0 && c.source.h > 0.0
  {
    var (u, v) := ToDisplay(c.transform, (ToUnit(q.0, c.source.x, c.source.w), ToUnit(q.1, c.source.y, c.source.h)));
    (FromUnit(u, c.dest.x, c.dest.w), FromUnit(v, c.dest.y, c.dest.h))
  }

  /** A pointer position maps to nothing exactly when it is outside the displayed part, and otherwise into the
      shown part of the texture, from where the forward placement leads back to it. */
  lemma PointerMapsBack(p: Point, c: Projected)
    requires c.dest.w > 0.0 && c.dest.h > 0.0 && c.source.w > 0.0 && c.source.h > 0.0
    ensures DisplayPointToTexture(p, c).Some? <==> Inside(p, c.dest)
    ensures Inside(p, c.dest) ==> var q := DisplayPointToTexture(p, c).value;
      Inside(q, c.source) && TexturePointToDisplay(q, c) == p
  {
    hide ToBuffer, ToDisplay, ToUnit, FromUnit;
    UnitRange(p.0, c.dest.x, c.dest.w);
    UnitRange(p.1, c.dest.y, c.dest.h);
    var uv := (ToUnit(p.0, c.dest.x, c.dest.w), ToUnit(p.1, c.dest.y, c.dest.h));
    TransformsInvert(c.transform, uv);
    var b := ToBuffer(c.transform, uv);
    ScaledRange(b.0, c.source.x, c.source.w);
    ScaledRange(b.1, c.source.y, c.source.h);
  }

  /** Conversely every point of the shown part of the texture is reached, from exactly where it is shown. */
  lemma EveryTexturePointIsReached(q: Point, c: Projected)
    requires c.dest.w > 0.0 && c.dest.h > 0.0 && c.source.w > 0.0 && c.source.h > 0.0 && Inside(q, c.source)
    ensures var p := TexturePointToDisplay(q, c);
      Inside(p, c.dest) && DisplayPointToTexture(p, c) == Some(q)
  {
    hide ToBuffer, ToDisplay, ToUnit, FromUnit;
    UnitRange(q.0, c.source.x, c.source.w);
    UnitRange(q.1, c.source.y, c.source.h);
    var b := (ToUnit(q.0, c.source.x, c.source.w), ToUnit(q.1, c.source.y, c.source.h));
    TransformsInvert(c.transform, b);
    var uv := ToDisplay(c.transform, b);
    ScaledRange(uv.0, c.dest.x, c.dest.w);
    ScaledRange(uv.1, c.dest.y, c.dest.h);
  }
}
