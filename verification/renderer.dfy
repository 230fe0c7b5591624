/** The background renderer of public/webgl-bg.js, as seen from outside the
    GPU: the render-loop flags, the configuration entry point
    `updateWebGLState`, the ordered-dither table of the fragment shader and
    the drawing-buffer size. */
module Renderer {
  import opened Js

  // ---------------------------------------------------------------------------
  // Shader parameters and their configuration

  /** The uniforms a configuration can change (colours are kept as the string
      handed to the colour parser). */
  datatype Uniforms = Uniforms(px: real, density: real, speed: real, burst: real,
                               bg: string, fg: string, shape: real)

  /** The uniform values the script starts with. */
  const InitialUniforms: Uniforms := Uniforms(30.0, 0.22, 0.6, 0.85, "#18181B", "#00598A", 1.0)

  const MinPx: real := 6.0

  /** The ranges `updateWebGLState` keeps the numeric uniforms in. */
  predicate InRange(u: Uniforms)
  {
    u.px >= MinPx && 0.0 <= u.density <= 1.0 && u.speed >= 0.0 && u.burst >= 0.0
  }

  /** A configuration object; an absent field is `Undefined`. */
  datatype Config = Config(bgColor: JsValue, fgColor: JsValue, speed: JsValue, density: JsValue,
                           px: JsValue, burst: JsValue, shape: JsValue)

  /** `{}`. */
  const EmptyConfig: Config := Config(Undefined, Undefined, Undefined, Undefined, Undefined, Undefined, Undefined)

  /** `toNumber`: a finite number, read from a number or (through
      `parseFloat`) from a string; `None` for everything else. */
  function ToNumber(v: JsValue, parseFloat: string -> Number): (r: Option<real>)
    ensures v.Num? ==> (r.Some? <==> v.n.Finite?) && (r.Some? ==> r.value == v.n.r)
    ensures v.Str? ==> (r.Some? <==> parseFloat(v.s).Finite?) && (r.Some? ==> r.value == parseFloat(v.s).r)
    ensures !v.Num? && !v.Str? ==> r.None?
  {
    var n := match v
      case Num(x) => x
      case Str(s) => parseFloat(s)
      case _ => NaN;
    if n.Finite? then Some(n.r) else None
  }

  /** `Math.max(lo, x)`. */
  function AtLeast(lo: real, x: real): (r: real)
    ensures r >= lo && r >= x && (r == lo || r == x)
  {
    if x < lo then lo else x
  }

  /** `clamp01`: the point of [0, 1] nearest to `x`. */
  function Clamp01(x: real): (r: real)
    ensures 0.0 <= r <= 1.0
    ensures 0.0 <= x <= 1.0 ==> r == x
    ensures x < 0.0 ==> r == 0.0
    ensures x > 1.0 ==> r == 1.0
  {
    if x < 0.0 then 0.0 else if x > 1.0 then 1.0 else x
  }

  /** `String(config.shape || "").toLowerCase()`, for string values (see
      README for other values). */
  function ShapeText(v: JsValue): string
  {
    if v.Str? then AsciiLower(v.s) else ""
  }

  /** The shape a configuration selects: 1 for squares, 0 for triangles,
      `None` to keep the current one. */
  function ShapeOf(v: JsValue): (r: Option<real>)
    ensures r == Some(1.0) <==> ShapeText(v) in {"squares", "square"}
    ensures r == Some(0.0) <==> ShapeText(v) in {"triangles", "triangle"}
    ensures r.Some? ==> r.value == 0.0 || r.value == 1.0
  {
    var sh := ShapeText(v);
    if sh == "squares" || sh == "square" then Some(1.0)
    else if sh == "triangles" || sh == "triangle" then Some(0.0)
    else None
  }

  /** How one numeric uniform follows its configuration field: unchanged
      when the field is not a finite number, otherwise the value raised to
      the floor `lo`. */
  predicate FlooredField(before: real, n: Option<real>, lo: real, after: real)
  {
    && (n.None? ==> after == before)
    && (n.Some? ==> after >= lo && (n.value >= lo ==> after == n.value) && (n.value < lo ==> after == lo))
  }

  /** One numeric uniform after its field is read: kept for `None`, else
      `Math.max(lo, n)`. */
  function FloorOr(before: real, n: Option<real>, lo: real): (r: real)
    ensures FlooredField(before, n, lo, r)
  {
    if n.Some? then AtLeast(lo, n.value) else before
  }

  /** The density uniform after its field is read: kept for `None`, else
      clamped into [0, 1]. */
  function ClampOr(before: real, n: Option<real>): (r: real)
    ensures n.None? ==> r == before
    ensures n.Some? ==> 0.0 <= r <= 1.0 && (0.0 <= n.value <= 1.0 ==> r == n.value)
    ensures n.Some? ==> r == Clamp01(n.value)
  {
    if n.Some? then Clamp01(n.value) else before
  }

  /** A colour uniform: replaced by a string field, kept otherwise. */
  function ColourOr(before: string, v: JsValue): (r: string)
    ensures v.Str? ==> r == v.s
    ensures !v.Str? ==> r == before
  {
    if v.Str? then v.s else before
  }

  /** The uniforms after applying a configuration. */
  function ApplyConfig(u: Uniforms, cfg: Config, parseFloat: string -> Number): (r: Uniforms)
    ensures cfg.bgColor.Str? ==> r.bg == cfg.bgColor.s
    ensures !cfg.bgColor.Str? ==> r.bg == u.bg
    ensures cfg.fgColor.Str? ==> r.fg == cfg.fgColor.s
    ensures !cfg.fgColor.Str? ==> r.fg == u.fg
    ensures FlooredField(u.speed, ToNumber(cfg.speed, parseFloat), 0.0, r.speed)
    ensures FlooredField(u.burst, ToNumber(cfg.burst, parseFloat), 0.0, r.burst)
    ensures FlooredField(u.px, ToNumber(cfg.px, parseFloat), MinPx, r.px)
    ensures var d := ToNumber(cfg.density, parseFloat);
      && (d.None? ==> r.density == u.density)
      && (d.Some? ==> 0.0 <= r.density <= 1.0 && (0.0 <= d.value <= 1.0 ==> r.density == d.value))
      && (d.Some? ==> r.density == Clamp01(d.value))
    ensures ShapeOf(cfg.shape).None? ==> r.shape == u.shape
    ensures ShapeOf(cfg.shape).Some? ==> r.shape == ShapeOf(cfg.shape).value
  {
    var sh := ShapeOf(cfg.shape);
    Uniforms(
      px := FloorOr(u.px, ToNumber(cfg.px, parseFloat), MinPx),
      density := ClampOr(u.density, ToNumber(cfg.density, parseFloat)),
      speed := FloorOr(u.speed, ToNumber(cfg.speed, parseFloat), 0.0),
      burst := FloorOr(u.burst, ToNumber(cfg.burst, parseFloat), 0.0),
      bg := ColourOr(u.bg, cfg.bgColor),
      fg := ColourOr(u.fg, cfg.fgColor),
      shape := if sh.Some? then sh.value else u.shape)
  }

  // ---------------------------------------------------------------------------
  // Renderer state

  /** A frame handle from `requestAnimationFrame`; never 0. */
  type FrameId = h: nat | h > 0 witness 1

  /** `raf` is the scheduled frame (0 for none); `firstApplied` is
      `didApplyFirstState`; `canvasOpacity` is the canvas's inline opacity. */
  datatype State = State(uniforms: Uniforms, running: bool, raf: nat, firstApplied: bool, canvasOpacity: string)

  /** The flags agree: a frame is scheduled exactly while running. */
  predicate Consistent(s: State)
  {
    s.running <==> s.raf != 0
  }

  /** `startRender`: schedules a frame unless one is already scheduled. */
  function StartRender(s: State, frame: FrameId): (r: State)
    ensures r.raf != 0
    ensures s.raf != 0 ==> r == s
    ensures r.(raf := s.raf) == s
  {
    if s.raf != 0 then s else s.(raf := frame)
  }

  /** `stopRender`: cancels the scheduled frame, if any. */
  function StopRender(s: State): (r: State)
    ensures r.raf == 0
    ensures s.raf == 0 ==> r == s
    ensures r.(raf := s.raf) == s
  {
    if s.raf == 0 then s else s.(raf := 0)
  }

  /** `render(now)`: the browser calls it only for a scheduled frame, and
      it schedules the next one; a consistent state stays consistent and
      keeps running. */
  function RenderFrame(s: State, next: FrameId): (r: State)
    requires s.raf != 0
    ensures r.raf != 0 && r.(raf := s.raf) == s
    ensures Consistent(s) ==> Consistent(r) && r.running
  {
    s.(raf := next)
  }

  /** The script's start: canvas hidden, initial uniforms, running, and the
      first frame scheduled. */
  function Boot(frame: FrameId): (r: State)
    ensures Consistent(r) && r.running && InRange(r.uniforms)
    ensures !r.firstApplied && r.canvasOpacity == "0"
  {
    StartRender(State(InitialUniforms, true, 0, false, "0"), frame)
  }

  /** `window.setWebGLRunning(v)`: `running` becomes `!!v`; the loop starts or
      stops only when that changes the flag. */
  function SetWebGLRunning(s: State, v: JsValue, frame: FrameId): (r: State)
    ensures r.running == Truthy(v)
    ensures Truthy(v) == s.running ==> r == s
    ensures Consistent(s) ==> Consistent(r)
    ensures r.uniforms == s.uniforms && r.firstApplied == s.firstApplied && r.canvasOpacity == s.canvasOpacity
  {
    var next := Truthy(v);
    if next == s.running then s
    else if next then StartRender(s.(running := true), frame)
    else StopRender(s.(running := false))
  }

  /** Calling `setWebGLRunning` again with the same value changes nothing. */
  lemma SetWebGLRunningIdempotent(s: State, v: JsValue, f1: FrameId, f2: FrameId)
    ensures SetWebGLRunning(SetWebGLRunning(s, v, f1), v, f2) == SetWebGLRunning(s, v, f1)
  {
  }

  /** Starting twice is starting once, and stopping twice is stopping once. */
  lemma StartStopIdempotent(s: State, f1: FrameId, f2: FrameId)
    ensures StartRender(StartRender(s, f1), f2) == StartRender(s, f1)
    ensures StopRender(StopRender(s)) == StopRender(s)
  {
  }

  /** The `pagehide` listener stops the loop without clearing `running`. */
  function PageHide(s: State): (r: State)
    ensures r.raf == 0 && r.running == s.running
  {
    StopRender(s)
  }

  /** As written, after `pagehide` a running renderer is left with no frame
      scheduled, and `setWebGLRunning(true)` cannot restart it, because the
      flag already says it runs. */
  lemma PageHideThenResume(s: State, f: FrameId)
    requires Consistent(s) && s.running
    ensures !Consistent(PageHide(s))
    ensures SetWebGLRunning(PageHide(s), Bool(true), f).raf == 0
  {
  }

  /** The result of `updateWebGLState`: the new state and whether the
      `webglbg:ready` event was dispatched. */
  datatype Applied = Applied(state: State, readyDispatched: bool)

  /** `window.updateWebGLState(config)`: the uniforms follow the
      configuration, the loop flags are untouched, and the first call (only)
      reveals the canvas and dispatches the ready event. */
  function UpdateWebGLState(s: State, cfg: Config, parseFloat: string -> Number): (r: Applied)
    ensures r.state.uniforms == ApplyConfig(s.uniforms, cfg, parseFloat)
    ensures r.state.running == s.running && r.state.raf == s.raf
    ensures r.state.firstApplied
    ensures r.readyDispatched <==> !s.firstApplied
    ensures !s.firstApplied ==> r.state.canvasOpacity == "1"
    ensures s.firstApplied ==> r.state.canvasOpacity == s.canvasOpacity
  {
    var u := ApplyConfig(s.uniforms, cfg, parseFloat);
    if s.firstApplied then Applied(s.(uniforms := u), false)
    else Applied(s.(uniforms := u, firstApplied := true, canvasOpacity := "1"), true)
  }

  /** The ready event fires at most once: a later call never dispatches it. */
  lemma ReadyOnce(s: State, c1: Config, c2: Config, parseFloat: string -> Number)
    ensures !UpdateWebGLState(UpdateWebGLState(s, c1, parseFloat).state, c2, parseFloat).readyDispatched
  {
  }

  /** Applying the same configuration twice gives the uniforms of applying
      it once. */
  lemma ApplyConfigIdempotent(u: Uniforms, cfg: Config, parseFloat: string -> Number)
    ensures ApplyConfig(ApplyConfig(u, cfg, parseFloat), cfg, parseFloat) == ApplyConfig(u, cfg, parseFloat)
  {
  }

  /** `{}` changes no uniform. */
  lemma EmptyConfigKeepsUniforms(u: Uniforms, parseFloat: string -> Number)
    ensures ApplyConfig(u, EmptyConfig, parseFloat) == u
  {
  }

  /** Configuration keeps the numeric uniforms in range. */
  lemma ApplyConfigKeepsRange(u: Uniforms, cfg: Config, parseFloat: string -> Number)
    requires InRange(u)
    ensures InRange(ApplyConfig(u, cfg, parseFloat))
  {
  }

  /** Shape names are matched ignoring case; other names keep the shape. */
  lemma ShapeNames()
    ensures ShapeOf(Str("Squares")) == Some(1.0) && ShapeOf(Str("SQUARE")) == Some(1.0)
    ensures ShapeOf(Str("Triangles")) == Some(0.0) && ShapeOf(Str("triangle")) == Some(0.0)
    ensures ShapeOf(Str("circles")) == None && ShapeOf(Undefined) == None
  {
    AsciiLowerNoUpper("circles");
  }

  // ---------------------------------------------------------------------------
  // The ordered-dither table of the fragment shader

  /** `bayer4`'s table, in the shader's own if-chain order (any index past
      14 reads 5). */
  function Bayer4(i: int): (v: nat)
    ensures v < 16
  {
    if i == 0 then 0 else if i == 1 then 8 else if i == 2 then 2 else if i == 3 then 10
    else if i == 4 then 12 else if i == 5 then 4 else if i == 6 then 14 else if i == 7 then 6
    else if i == 8 then 3 else if i == 9 then 11 else if i == 10 then 1 else if i == 11 then 9
    else if i == 12 then 15 else if i == 13 then 7 else if i == 14 then 13 else 5
  }

  /** The 2x2 Bayer matrix. */
  function Bayer2(y: nat, x: nat): nat
    requires y < 2 && x < 2
  {
    if y == 0 then (if x == 0 then 0 else 2) else (if x == 0 then 3 else 1)
  }

  /** The shader's table is the standard recursive 4x4 Bayer matrix,
      `4 * B2(y mod 2, x mod 2) + B2(y div 2, x div 2)`. */
  lemma Bayer4IsRecursiveBayer(y: nat, x: nat)
    requires y < 4 && x < 4
    ensures Bayer4(y * 4 + x) == 4 * Bayer2(y % 2, x % 2) + Bayer2(y / 2, x / 2)
  {
  }

  /** The position of value `v` in the table. */
  function BayerPosition(v: nat): nat
  {
    if v == 0 then 0 else if v == 8 then 1 else if v == 2 then 2 else if v == 10 then 3
    else if v == 12 then 4 else if v == 4 then 5 else if v == 14 then 6 else if v == 6 then 7
    else if v == 3 then 8 else if v == 11 then 9 else if v == 1 then 10 else if v == 9 then 11
    else if v == 15 then 12 else if v == 7 then 13 else if v == 13 then 14 else 15
  }

  /** The sixteen entries are a permutation of 0..15: no value twice, and
      every value at the position `BayerPosition` gives. */
  lemma Bayer4Permutation()
    ensures forall i, j :: 0 <= i < j < 16 ==> Bayer4(i) != Bayer4(j)
    ensures forall v :: 0 <= v < 16 ==> BayerPosition(v) < 16 && Bayer4(BayerPosition(v)) == v
  {
  }

  /** The dither threshold `(v + 0.5) / 16` of cell `i`. */
  function Threshold(i: int): real
  {
    (Bayer4(i) as real + 0.5) / 16.0
  }

  /** The thresholds lie strictly inside (0, 1) and are pairwise distinct. */
  lemma ThresholdsDistinct()
    ensures forall i :: 0 <= i < 16 ==> 0.0 < Threshold(i) < 1.0
    ensures forall i, j :: 0 <= i < j < 16 ==> Threshold(i) != Threshold(j)
  {
    Bayer4Permutation();
  }

  /** GLSL `mod(a, 4.0)`: `a - 4 * floor(a / 4)`. */
  function Mod4(a: real): (r: real)
    ensures 0.0 <= r < 4.0
  {
    a - 4.0 * ((a / 4.0).Floor as real)
  }

  /** The table index `y * 4 + x` of a fragment, with `x = int(mod(p.x, 4))`
      and `y = int(mod(p.y, 4))`: always one of the sixteen cells. */
  function BayerIndex(px: real, py: real): (i: int)
    ensures 0 <= i < 16
  {
    var x := Mod4(px).Floor;
    var y := Mod4(py).Floor;
    y * 4 + x
  }

  /** `bayer4(p)`: the dither threshold of the fragment at `p`, strictly
      between 0 and 1. */
  function DitherThreshold(px: real, py: real): (t: real)
    ensures 0.0 < t < 1.0
  {
    ThresholdsDistinct();
    Threshold(BayerIndex(px, py))
  }

  /** `mod(a, 4.0)` does not change when `a` moves by 4. */
  lemma Mod4Periodic(a: real)
    ensures Mod4(a + 4.0) == Mod4(a)
  {
    var k := (a / 4.0).Floor;
    assert (a + 4.0) / 4.0 == a / 4.0 + 1.0;
    assert k as real <= a / 4.0 < k as real + 1.0;
    assert ((a + 4.0) / 4.0).Floor == k + 1;
  }

  /** The dither pattern tiles the screen: it repeats every four pixels in
      each direction. */
  lemma DitherPeriodic(px: real, py: real)
    ensures DitherThreshold(px + 4.0, py) == DitherThreshold(px, py)
    ensures DitherThreshold(px, py + 4.0) == DitherThreshold(px, py)
  {
    Mod4Periodic(px);
    Mod4Periodic(py);
  }

  // ---------------------------------------------------------------------------
  // Drawing-buffer size

  /** `Math.min(1.5, window.devicePixelRatio || 1)`: a zero or NaN ratio
      counts as 1, and the ratio is capped at 1.5; a ratio of negative
      infinity passes through. */
  function PixelRatio(devicePixelRatio: Number): (r: Number)
    ensures devicePixelRatio == NaN || devicePixelRatio == Finite(0.0) ==> r == Finite(1.0)
    ensures devicePixelRatio.Finite? && devicePixelRatio.r != 0.0 ==>
      && r.Finite? && r.r <= 1.5 && r.r <= devicePixelRatio.r
      && (r.r == 1.5 || r.r == devicePixelRatio.r)
    ensures devicePixelRatio == Infinity(false) ==> r == Finite(1.5)
    ensures devicePixelRatio == Infinity(true) ==> r == Infinity(true)
  {
    match devicePixelRatio
    case NaN => Finite(1.0)
    case Finite(x) => if x == 0.0 then Finite(1.0) else if x > 1.5 then Finite(1.5) else Finite(x)
    case Infinity(negative) => if negative then Infinity(true) else Finite(1.5)
  }

  /** One side of the drawing buffer in `resize`: `Math.max(1,
      Math.floor(extent * dpr))` for a viewport extent of `extent` CSS
      pixels. For a finite ratio it is the whole number of device pixels the
      extent covers, but at least one. */
  function BufferSide(extent: nat, dpr: Number): (r: Number)
    ensures dpr.Finite? ==> r.Finite? && r.r >= 1.0 && r.r == r.r.Floor as real
    ensures dpr.Finite? && (extent as real * dpr.r).Floor >= 1 ==>
      r.r <= extent as real * dpr.r < r.r + 1.0
    ensures dpr.Finite? && (extent as real * dpr.r).Floor < 1 ==> r == Finite(1.0)
    ensures dpr.Infinity? && extent > 0 ==> r == (if dpr.negative then Finite(1.0) else Infinity(false))
    ensures dpr.NaN? || (dpr.Infinity? && extent == 0) ==> r == NaN
  {
    match dpr
    case Finite(d) =>
      var f := (extent as real * d).Floor;
      if f < 1 then Finite(1.0) else Finite(f as real)
    case NaN => NaN
    case Infinity(negative) =>
      if extent == 0 then NaN                // 0 * Infinity
      else if negative then Finite(1.0)      // Math.max(1, -Infinity)
      else Infinity(false)
  }

  /** `resize()`: the drawing-buffer width and height for the viewport and
      the ratio fixed at start-up. */
  function Resize(innerWidth: nat, innerHeight: nat, devicePixelRatio: Number): (size: (Number, Number))
  {
    var dpr := PixelRatio(devicePixelRatio);
    (BufferSide(innerWidth, dpr), BufferSide(innerHeight, dpr))
  }

  /** Whatever ratio the browser reports, short of negative infinity, each
      side of the drawing buffer is a whole number of pixels, at least one,
      and at most one and a half times the viewport extent when that is not
      smaller. */
  lemma ResizeBounds(innerWidth: nat, innerHeight: nat, devicePixelRatio: Number)
    requires devicePixelRatio != Infinity(true)
    ensures var (w, h) := Resize(innerWidth, innerHeight, devicePixelRatio);
      && w.Finite? && w.r >= 1.0 && w.r == w.r.Floor as real
      && h.Finite? && h.r >= 1.0 && h.r == h.r.Floor as real
      && (w.r == 1.0 || w.r <= 1.5 * innerWidth as real)
      && (h.r == 1.0 || h.r <= 1.5 * innerHeight as real)
  {
    var dpr := PixelRatio(devicePixelRatio);
    assert dpr.Finite? && dpr.r <= 1.5;
    SideBound(innerWidth, dpr.r);
    SideBound(innerHeight, dpr.r);
  }

  /** Scaling an extent by a ratio of at most 1.5 gives at most one and a
      half times the extent. */
  lemma SideBound(extent: nat, d: real)
    requires d <= 1.5
    ensures var r := BufferSide(extent, Finite(d)); r.r == 1.0 || r.r <= 1.5 * extent as real
  {
    assert extent as real * d <= extent as real * 1.5;
  }

  /** A ratio of negative infinity, as written, gives a buffer of one pixel
      per side for a non-empty viewport, and NaN for an empty one. */
  lemma ResizeNegativeInfinity(innerWidth: nat)
    ensures Resize(innerWidth, 0, Infinity(true)).1 == NaN
    ensures innerWidth > 0 ==> Resize(innerWidth, 0, Infinity(true)).0 == Finite(1.0)
  {
  }
}
