/** The page as a whole: the director of public/main.js and the renderer of
    public/webgl-bg.js, which load in either order and meet through three
    globals: `window.updateWebGLState` / `window.setWebGLRunning` (present
    once the renderer has booted), `window.__pendingWebGLState` (a
    configuration parked by the director while the renderer is absent) and
    the one-shot `webglbg:ready` listener the director installs. */
module Page {
  import opened Js
  import Renderer
  import Director

  /** `renderer` is `None` until webgl-bg.js has run; `listenerArmed` says the
      `webglbg:ready` listener is still installed; `revealArmed` says a
      `loadeddata` listener that reveals the video is installed on it. The
      canvas's opacity is kept in the renderer's state: before the renderer
      boots, whatever the director writes there is overwritten by the boot,
      which hides the canvas and then reveals it on the first configuration. */
  datatype Page = Page(director: Director.State, renderer: Option<Renderer.State>,
                       pending: Option<Renderer.Config>, listenerArmed: bool, revealArmed: bool)

  /** Before either script has run. */
  const Start: Page := Page(Director.Initial, None, None, false, false)

  /** The renderer with the canvas's opacity set to `o`, when it is there. */
  function WithCanvas(r: Option<Renderer.State>, o: string): (r': Option<Renderer.State>)
    ensures r'.Some? <==> r.Some?
    ensures r'.Some? ==> r'.value.canvasOpacity == o && r'.value.(canvasOpacity := r.value.canvasOpacity) == r.value
  {
    if r.Some? then Some(r.value.(canvasOpacity := o)) else None
  }

  /** The `webglbg:ready` listener (`{ once: true }`): removed by the first
      event; it applies the parked configuration, if any, and clears it. A
      renewed ready event from that call would find no listener. */
  function OnReady(p: Page, parseFloat: string -> Number): (r: Page)
    ensures !r.listenerArmed && r.director == p.director
    ensures !p.listenerArmed ==> r == p
    ensures p.listenerArmed && p.pending.Some? && p.renderer.Some? ==>
      r.pending.None? && r.renderer.Some? &&
      r.renderer.value.uniforms == Renderer.ApplyConfig(p.renderer.value.uniforms, p.pending.value, parseFloat)
    ensures p.listenerArmed && !(p.pending.Some? && p.renderer.Some?) ==> r == p.(listenerArmed := false)
  {
    if !p.listenerArmed then p
    else
      var q := p.(listenerArmed := false);
      if q.pending.Some? && q.renderer.Some? then
        var applied := Renderer.UpdateWebGLState(q.renderer.value, q.pending.value, parseFloat);
        q.(renderer := Some(applied.state), pending := None)
      else q
  }

  /** `window.updateWebGLState(cfg)` called on a loaded renderer; the ready
      event it may dispatch runs the listener synchronously. */
  function ApplyState(p: Page, cfg: Renderer.Config, parseFloat: string -> Number): (r: Page)
    requires p.renderer.Some?
    ensures r.renderer.Some? && r.director == p.director
    ensures r.renderer.value.firstApplied && r.renderer.value.canvasOpacity == "1" <== p.renderer.value.canvasOpacity == "1" || !p.renderer.value.firstApplied
    ensures r.renderer.value.running == p.renderer.value.running && r.renderer.value.raf == p.renderer.value.raf
    ensures p.renderer.value.firstApplied ==> r == p.(renderer := Some(Renderer.UpdateWebGLState(p.renderer.value, cfg, parseFloat).state))
  {
    var applied := Renderer.UpdateWebGLState(p.renderer.value, cfg, parseFloat);
    var q := p.(renderer := Some(applied.state));
    if applied.readyDispatched then OnReady(q, parseFloat) else q
  }

  /** One effect of the director on the page. `showWebGL` makes the canvas
      opaque; `hideWebGL` and the reveal of the video make it transparent; a
      reveal deferred to `loadeddata` installs its listener. Actions that
      touch neither the renderer nor the canvas leave this state alone. */
  function Perform(p: Page, a: Director.Action, parseFloat: string -> Number, frame: Renderer.FrameId): (r: Page)
    ensures r.director == p.director
    ensures r.renderer.Some? <==> p.renderer.Some?
    ensures !Director.IsRendererAction(a) && !Director.IsCanvasAction(a) ==> r == p
    ensures a.ShowWebGL? ==> r == p.(renderer := WithCanvas(p.renderer, "1"))
    ensures a.HideWebGL? || a.RevealVideo? ==> r == p.(renderer := WithCanvas(p.renderer, "0"))
    ensures a.RevealVideoWhenLoaded? ==> r == p.(revealArmed := true)
  {
    match a
    case SetWebGLRunning(on) =>
      if p.renderer.Some? then p.(renderer := Some(Renderer.SetWebGLRunning(p.renderer.value, Bool(on), frame)))
      else p
    case ApplyWebGLState(cfg) =>
      if p.renderer.Some? then ApplyState(p, cfg, parseFloat) else p
    case StorePendingWebGLState(cfg) => p.(pending := Some(cfg))
    case ShowWebGL => p.(renderer := WithCanvas(p.renderer, "1"))
    case HideWebGL => p.(renderer := WithCanvas(p.renderer, "0"))
    case RevealVideo => p.(renderer := WithCanvas(p.renderer, "0"))
    case RevealVideoWhenLoaded => p.(revealArmed := true)
    case _ => p
  }

  /** Actions that touch neither the renderer nor the canvas. */
  predicate Inert(acts: seq<Director.Action>)
  {
    forall a :: a in acts ==> !Director.IsRendererAction(a) && !Director.IsCanvasAction(a)
  }

  function PerformAll(p: Page, acts: seq<Director.Action>, parseFloat: string -> Number, frame: Renderer.FrameId): (r: Page)
    ensures r.director == p.director
    ensures r.renderer.Some? <==> p.renderer.Some?
    decreases |acts|
  {
    if acts == [] then p
    else PerformAll(Perform(p, acts[0], parseFloat, frame), acts[1..], parseFloat, frame)
  }

  lemma {:induction false} PerformAllAppend(p: Page, a: seq<Director.Action>, b: seq<Director.Action>,
                                           parseFloat: string -> Number, frame: Renderer.FrameId)
    ensures PerformAll(p, a + b, parseFloat, frame) == PerformAll(PerformAll(p, a, parseFloat, frame), b, parseFloat, frame)
    decreases |a|
  {
    if a == [] {
      assert a + b == b;
    } else {
      assert (a + b)[0] == a[0];
      assert (a + b)[1..] == a[1..] + b;
      PerformAllAppend(Perform(p, a[0], parseFloat, frame), a[1..], b, parseFloat, frame);
    }
  }

  /** Actions that touch neither the renderer nor the canvas change nothing
      here. */
  lemma {:induction false} PerformInert(p: Page, acts: seq<Director.Action>,
                                       parseFloat: string -> Number, frame: Renderer.FrameId)
    requires Inert(acts)
    ensures PerformAll(p, acts, parseFloat, frame) == p
    decreases |acts|
  {
    if acts != [] {
      assert acts[0] in acts;
      PerformInert(p, acts[1..], parseFloat, frame);
    }
  }

  /** Entering a slide: the director decides with the renderer's presence as
      it is now, and its actions are performed in order. */
  function EnterSlide(p: Page, slide: Option<Director.Slide>, env: Director.Env,
                      parseFloat: string -> Number, frame: Renderer.FrameId): (r: Page)
    ensures r.renderer.Some? <==> p.renderer.Some?
    ensures r.director == Director.OnEnterSlide(p.director, slide, env.(rendererLoaded := p.renderer.Some?)).state
  {
    var step := Director.OnEnterSlide(p.director, slide, env.(rendererLoaded := p.renderer.Some?));
    PerformAll(p.(director := step.state), step.actions, parseFloat, frame)
  }

  /** `initSlides` (background part): with at least one slide, enter the first
      one at once and then install the ready listener. */
  function InitSlides(p: Page, slides: seq<Director.Slide>, env: Director.Env,
                      parseFloat: string -> Number, frame: Renderer.FrameId): (r: Page)
    ensures slides == [] ==> r == p
    ensures slides != [] ==> r.listenerArmed
    ensures slides != [] ==> r.director.activeSlideId == slides[0].id || slides[0].id == "" || p.director.activeSlideId == slides[0].id
  {
    if slides == [] then p
    else EnterSlide(p, Some(slides[0]), env, parseFloat, frame).(listenerArmed := true)
  }

  /** `window.__pendingWebGLState` or `{}`. */
  function PendingOrEmpty(pending: Option<Renderer.Config>): Renderer.Config
  {
    if pending.Some? then pending.value else Renderer.EmptyConfig
  }

  /** webgl-bg.js runs: the loop starts, then the parked configuration (or
      `{}`) is applied, which reveals the canvas and dispatches the ready
      event, and the parked configuration is cleared. When the listener is
      still armed it applies the parked configuration a second time; since
      applying a configuration twice is applying it once, the uniforms are
      those of a single application either way. */
  function BootRenderer(p: Page, parseFloat: string -> Number, frame: Renderer.FrameId): (r: Page)
    requires p.renderer.None?
    ensures r.director == p.director && r.revealArmed == p.revealArmed
    ensures r.renderer.Some? && r.pending.None? && !r.listenerArmed
    ensures r.renderer.value.uniforms == Renderer.ApplyConfig(Renderer.InitialUniforms, PendingOrEmpty(p.pending), parseFloat)
    ensures Renderer.Consistent(r.renderer.value) && r.renderer.value.running
    ensures r.renderer.value.firstApplied && r.renderer.value.canvasOpacity == "1"
  {
    var cfg := PendingOrEmpty(p.pending);
    Renderer.ApplyConfigIdempotent(Renderer.InitialUniforms, cfg, parseFloat);
    ApplyState(p.(renderer := Some(Renderer.Boot(frame))), cfg, parseFloat).(pending := None)
  }

  /** What holds once the renderer is there: its uniforms are in range, its
      first configuration has been applied (so the ready event has fired),
      and nothing is parked. */
  predicate Settled(p: Page)
  {
    p.renderer.Some? ==>
      && Renderer.InRange(p.renderer.value.uniforms)
      && p.renderer.value.firstApplied
      && p.pending.None?
  }

  lemma BootSettles(p: Page, parseFloat: string -> Number, frame: Renderer.FrameId)
    requires p.renderer.None?
    ensures Settled(BootRenderer(p, parseFloat, frame))
  {
    Renderer.ApplyConfigKeepsRange(Renderer.InitialUniforms, PendingOrEmpty(p.pending), parseFloat);
  }

  /** With the renderer present and settled, a renderer action keeps the page
      settled, as long as it does not park a configuration. */
  lemma PerformSettled(p: Page, a: Director.Action, parseFloat: string -> Number, frame: Renderer.FrameId)
    requires Settled(p)
    requires p.renderer.Some? ==> !a.StorePendingWebGLState?
    ensures Settled(Perform(p, a, parseFloat, frame))
  {
    if a.ApplyWebGLState? && p.renderer.Some? {
      Renderer.ApplyConfigKeepsRange(p.renderer.value.uniforms, a.cfg, parseFloat);
    }
  }

  lemma {:induction false} PerformAllSettled(p: Page, acts: seq<Director.Action>,
                                            parseFloat: string -> Number, frame: Renderer.FrameId)
    requires Settled(p)
    requires p.renderer.Some? ==> forall a :: a in acts ==> !a.StorePendingWebGLState?
    ensures Settled(PerformAll(p, acts, parseFloat, frame))
    decreases |acts|
  {
    if acts != [] {
      assert acts[0] in acts;
      PerformSettled(p, acts[0], parseFloat, frame);
      var q := Perform(p, acts[0], parseFloat, frame);
      assert forall a :: a in acts[1..] ==> a in acts;
      PerformAllSettled(q, acts[1..], parseFloat, frame);
    }
  }

  /** Entering slides never unsettles the page: once the renderer is there
      the director hands it configurations directly and parks nothing. */
  lemma EnterSlideSettled(p: Page, slide: Option<Director.Slide>, env: Director.Env,
                          parseFloat: string -> Number, frame: Renderer.FrameId)
    requires Settled(p)
    ensures Settled(EnterSlide(p, slide, env, parseFloat, frame))
  {
    var e := env.(rendererLoaded := p.renderer.Some?);
    var step := Director.OnEnterSlide(p.director, slide, e);
    if p.renderer.Some? {
      forall a | a in step.actions
        ensures !a.StorePendingWebGLState?
      {
        if a.StorePendingWebGLState? {
          assert Director.IsRendererAction(a);
        }
      }
    }
    PerformAllSettled(p.(director := step.state), step.actions, parseFloat, frame);
  }

  /** The renderer after `setWebGLRunning(on)`, when it is there. */
  function RunningSet(r: Option<Renderer.State>, on: bool, frame: Renderer.FrameId): Option<Renderer.State>
  {
    if r.Some? then Some(Renderer.SetWebGLRunning(r.value, Bool(on), frame)) else None
  }

  /** A guarded single effect. */
  lemma PerformWhen(p: Page, c: bool, a: Director.Action, parseFloat: string -> Number, frame: Renderer.FrameId)
    ensures PerformAll(p, Director.When(c, a), parseFloat, frame) == if c then Perform(p, a, parseFloat, frame) else p
  {
    if c {
      assert Director.When(c, a)[1..] == [];
    }
  }

  /** The actions `EnterSlide` performs, split at the mode. */
  lemma EnteredActions(p: Page, slide: Director.Slide, env: Director.Env)
    requires Director.Enters(p.director, Some(slide))
    ensures var e := env.(rendererLoaded := p.renderer.Some?);
      var entered := p.director.(activeSlideId := slide.id);
      Director.OnEnterSlide(p.director, Some(slide), e) ==
        if Director.IsVideoSlide(slide) then Director.VideoMode(entered, slide, e)
        else Director.WebGLMode(entered, slide, e)
  {
  }

  /** Actions that touch neither the renderer nor the canvas, in front of
      others, change nothing. */
  lemma SkipInert(p: Page, x: seq<Director.Action>, y: seq<Director.Action>,
                  parseFloat: string -> Number, frame: Renderer.FrameId)
    requires Inert(x)
    ensures PerformAll(p, x + y, parseFloat, frame) == PerformAll(p, y, parseFloat, frame)
  {
    PerformAllAppend(p, x, y, parseFloat, frame);
    PerformInert(p, x, parseFloat, frame);
  }

  /** The same, after others. */
  lemma DropInert(p: Page, x: seq<Director.Action>, y: seq<Director.Action>,
                  parseFloat: string -> Number, frame: Renderer.FrameId)
    requires Inert(y)
    ensures PerformAll(p, x + y, parseFloat, frame) == PerformAll(p, x, parseFloat, frame)
  {
    PerformAllAppend(p, x, y, parseFloat, frame);
    PerformInert(PerformAll(p, x, parseFloat, frame), y, parseFloat, frame);
  }

  /** The reveal of the video: at once it hides the canvas; deferred, it
      installs the `loadeddata` listener (starting playback touches neither). */
  lemma RevealEffect(p: Page, env: Director.Env, parseFloat: string -> Number, frame: Renderer.FrameId)
    ensures PerformAll(p, Director.Reveal(env), parseFloat, frame) ==
      if !env.hasVideo then p
      else if env.videoHasFrame then p.(renderer := WithCanvas(p.renderer, "0"))
      else p.(revealArmed := true)
  {
    var acts := Director.Reveal(env);
    if env.hasVideo && env.videoHasFrame {
      assert acts[1..] == [];
    } else if env.hasVideo {
      var armed := p.(revealArmed := true);
      assert acts[1..] == [Director.PlayVideo];
      assert Perform(p, Director.RevealVideoWhenLoaded, parseFloat, frame) == armed;
      PerformOne(armed, Director.PlayVideo, parseFloat, frame);
    }
  }

  /** The page side of video mode: of the source change, the canvas shown,
      the video hidden and the reveal, only showing the canvas and the
      reveal reach this state. */
  lemma VideoPageEffect(q: Page, srcActions: seq<Director.Action>, env: Director.Env,
                        parseFloat: string -> Number, frame: Renderer.FrameId)
    requires forall a :: a in srcActions ==> a.PrepareVideo?
    ensures Director.PageOnly(srcActions)
    ensures PerformAll(q, Director.VideoPageActions(srcActions, env), parseFloat, frame) ==
      PerformAll(PerformAll(q, Director.When(env.hasCanvas, Director.ShowWebGL), parseFloat, frame),
                 Director.Reveal(env), parseFloat, frame)
  {
    var show := Director.When(env.hasCanvas, Director.ShowWebGL);
    var hideVideo := Director.When(env.hasVideo, Director.HideVideo);
    var unveil := Director.Reveal(env);
    assert Director.VideoPageActions(srcActions, env) == srcActions + show + hideVideo + unveil;
    assert Inert(srcActions) && Inert(hideVideo);
    PerformAllAppend(q, srcActions + show + hideVideo, unveil, parseFloat, frame);
    DropInert(q, srcActions + show, hideVideo, parseFloat, frame);
    SkipInert(q, srcActions, show, parseFloat, frame);
  }

  /** Entering a video slide stops the renderer's loop (when it is there),
      keeps the canvas visible while the video has no frame and hides it once
      the video is revealed; when the frame is still missing the reveal waits
      for `loadeddata`. Nothing is configured or parked. */
  lemma VideoEntry(p: Page, slide: Director.Slide, env: Director.Env,
                   parseFloat: string -> Number, frame: Renderer.FrameId)
    requires Director.Enters(p.director, Some(slide)) && Director.IsVideoSlide(slide)
    ensures var r := EnterSlide(p, Some(slide), env, parseFloat, frame);
      var stopped := RunningSet(p.renderer, false, frame);
      && r.renderer == (if env.hasVideo && env.videoHasFrame then WithCanvas(stopped, "0")
                        else if env.hasCanvas then WithCanvas(stopped, "1")
                        else stopped)
      && r.pending == p.pending && r.listenerArmed == p.listenerArmed
      && r.revealArmed == (p.revealArmed || (env.hasVideo && !env.videoHasFrame))
  {
    var e := env.(rendererLoaded := p.renderer.Some?);
    var entered := p.director.(activeSlideId := slide.id);
    EnteredActions(p, slide, env);
    var src := Director.SetVideoSrcIfNeeded(entered, e.hasVideo, slide.videoSrc);
    var stop := Director.When(e.rendererLoaded, Director.SetWebGLRunning(false));
    var page := Director.VideoPageActions(src.actions, e);
    var q := p.(director := src.state);
    var acts := [Director.CancelPauseTimer] + (stop + page);
    assert Director.OnEnterSlide(p.director, Some(slide), e) == Director.Step(src.state, acts);
    assert acts[0] == Director.CancelPauseTimer && acts[1..] == stop + page;
    assert PerformAll(q, acts, parseFloat, frame) == PerformAll(q, stop + page, parseFloat, frame);
    PerformAllAppend(q, stop, page, parseFloat, frame);
    PerformWhen(q, e.rendererLoaded, Director.SetWebGLRunning(false), parseFloat, frame);
    var q1 := PerformAll(q, stop, parseFloat, frame);
    VideoPageEffect(q1, src.actions, e, parseFloat, frame);
    PerformWhen(q1, e.hasCanvas, Director.ShowWebGL, parseFloat, frame);
    RevealEffect(PerformAll(q1, Director.When(e.hasCanvas, Director.ShowWebGL), parseFloat, frame), e, parseFloat, frame);
  }

  /** The `loadeddata` event on the video: an installed reveal listener
      (`{ once: true }`) hides the canvas and is removed. */
  function LoadedData(p: Page): (r: Page)
    ensures !r.revealArmed && r.director == p.director && r.pending == p.pending
    ensures r.renderer.Some? <==> p.renderer.Some?
    ensures p.revealArmed && p.renderer.Some? ==> r.renderer.value.canvasOpacity == "0"
    ensures !p.revealArmed ==> r == p
  {
    if p.revealArmed then p.(renderer := WithCanvas(p.renderer, "0"), revealArmed := false) else p
  }

  /** With the renderer there, a video slide whose video has no frame yet
      keeps the canvas visible after it is entered, and the video's first
      `loadeddata` then hides the canvas. */
  lemma DeferredReveal(p: Page, slide: Director.Slide, env: Director.Env,
                       parseFloat: string -> Number, frame: Renderer.FrameId)
    requires Director.Enters(p.director, Some(slide)) && Director.IsVideoSlide(slide)
    requires p.renderer.Some? && env.hasCanvas && env.hasVideo && !env.videoHasFrame
    ensures var r := EnterSlide(p, Some(slide), env, parseFloat, frame);
      && r.renderer.Some? && r.renderer.value.canvasOpacity == "1"
      && LoadedData(r).renderer.value.canvasOpacity == "0"
  {
    VideoEntry(p, slide, env, parseFloat, frame);
  }

  /** The effects of shader mode, with the inert ones dropped: the loop
      restarts, the canvas is shown, and the slide's configuration is
      handed over. */
  lemma ShaderActions(q: Page, slide: Director.Slide, e: Director.Env,
                      parseFloat: string -> Number, frame: Renderer.FrameId)
    ensures PerformAll(q, Director.WebGLMode(q.director, slide, e).actions, parseFloat, frame) ==
        ShaderEffect(q, slide.id, e.rendererLoaded, e.hasCanvas, parseFloat, frame)
  {
    var fade := Director.When(e.hasVideo, Director.HideVideo) + Director.When(e.hasVideo, Director.PauseVideoAfterFade);
    var start := Director.When(e.rendererLoaded, Director.SetWebGLRunning(true));
    var show := Director.When(e.hasCanvas, Director.ShowWebGL);
    var apply := Director.ApplyWebGLStateFromSlide(slide.id, e.rendererLoaded);
    var preload := Director.When(e.hasVideo, Director.PreloadMetadata);
    assert Director.WebGLMode(q.director, slide, e).actions == fade + start + show + apply + preload;
    assert Inert(fade) && Inert(preload);
    DropInert(q, fade + start + show + apply, preload, parseFloat, frame);
    PerformAllAppend(q, fade + start + show, apply, parseFloat, frame);
    PerformAllAppend(q, fade + start, show, parseFloat, frame);
    SkipInert(q, fade, start, parseFloat, frame);
  }

  /** A single action is performed as itself. */
  lemma PerformOne(p: Page, a: Director.Action, parseFloat: string -> Number, frame: Renderer.FrameId)
    ensures PerformAll(p, [a], parseFloat, frame) == Perform(p, a, parseFloat, frame)
  {
    assert [a][1..] == [];
  }

  /** What shader mode does to the page: the loop start, the canvas reveal
      and then the configuration actions. */
  function ShaderEffect(q: Page, id: string, loaded: bool, hasCanvas: bool,
                        parseFloat: string -> Number, frame: Renderer.FrameId): Page
  {
    var start := Director.When(loaded, Director.SetWebGLRunning(true));
    var show := Director.When(hasCanvas, Director.ShowWebGL);
    var apply := Director.ApplyWebGLStateFromSlide(id, loaded);
    PerformAll(PerformAll(PerformAll(q, start, parseFloat, frame), show, parseFloat, frame), apply, parseFloat, frame)
  }

  /** Entering a shader slide performs the shader-mode effect on the page
      with the slide made active. */
  lemma ShaderEntry(p: Page, slide: Director.Slide, env: Director.Env,
                    parseFloat: string -> Number, frame: Renderer.FrameId)
    requires Director.Enters(p.director, Some(slide)) && !Director.IsVideoSlide(slide)
    ensures EnterSlide(p, Some(slide), env, parseFloat, frame) ==
      ShaderEffect(p.(director := p.director.(activeSlideId := slide.id)), slide.id,
                   p.renderer.Some?, env.hasCanvas, parseFloat, frame)
  {
    var e := env.(rendererLoaded := p.renderer.Some?);
    var q := p.(director := p.director.(activeSlideId := slide.id));
    EnteredActions(p, slide, env);
    ShaderActions(q, slide, e, parseFloat, frame);
  }

  /** Without a renderer, shader mode only parks the configuration of the
      configuring slides. */
  lemma ShaderEffectUnloaded(q: Page, id: string, hasCanvas: bool,
                             parseFloat: string -> Number, frame: Renderer.FrameId)
    requires q.renderer.None?
    ensures ShaderEffect(q, id, false, hasCanvas, parseFloat, frame) ==
      if id in Director.WebGLSlides then q.(pending := Some(Director.SlideConfig)) else q
  {
    var start := Director.When(false, Director.SetWebGLRunning(true));
    var show := Director.When(hasCanvas, Director.ShowWebGL);
    var apply := Director.ApplyWebGLStateFromSlide(id, false);
    PerformWhen(q, false, Director.SetWebGLRunning(true), parseFloat, frame);
    assert PerformAll(q, start, parseFloat, frame) == q;
    PerformWhen(q, hasCanvas, Director.ShowWebGL, parseFloat, frame);
    assert PerformAll(q, show, parseFloat, frame) == q;
    if id in Director.WebGLSlides {
      PerformOne(q, Director.StorePendingWebGLState(Director.SlideConfig), parseFloat, frame);
    }
  }

  /** With a renderer that has been configured once, shader mode restarts
      the loop, shows the canvas, and applies the configuration of the
      configuring slides. */
  lemma ShaderEffectLoaded(q: Page, id: string, hasCanvas: bool,
                           parseFloat: string -> Number, frame: Renderer.FrameId)
    requires q.renderer.Some? && q.renderer.value.firstApplied
    ensures var r := ShaderEffect(q, id, true, hasCanvas, parseFloat, frame);
      && r.director == q.director && r.pending == q.pending
      && r.listenerArmed == q.listenerArmed && r.revealArmed == q.revealArmed
      && r.renderer.Some? && r.renderer.value.running
      && r.renderer.value.canvasOpacity == (if hasCanvas then "1" else q.renderer.value.canvasOpacity)
      && r.renderer.value.uniforms == (if id in Director.WebGLSlides
           then Renderer.ApplyConfig(q.renderer.value.uniforms, Director.SlideConfig, parseFloat)
           else q.renderer.value.uniforms)
  {
    var start := Director.When(true, Director.SetWebGLRunning(true));
    var show := Director.When(hasCanvas, Director.ShowWebGL);
    var apply := Director.ApplyWebGLStateFromSlide(id, true);
    PerformWhen(q, true, Director.SetWebGLRunning(true), parseFloat, frame);
    var q1 := Perform(q, Director.SetWebGLRunning(true), parseFloat, frame);
    assert PerformAll(q, start, parseFloat, frame) == q1;
    PerformWhen(q1, hasCanvas, Director.ShowWebGL, parseFloat, frame);
    var q2 := PerformAll(q1, show, parseFloat, frame);
    assert q2.renderer.Some? && q2.renderer.value.firstApplied && q2.renderer.value.running;
    if id in Director.WebGLSlides {
      PerformOne(q2, Director.ApplyWebGLState(Director.SlideConfig), parseFloat, frame);
    }
  }

  /** Entering a shader slide before the renderer has booted parks the
      configuration of the configuring slides. */
  lemma ShaderEntryParks(p: Page, slide: Director.Slide, env: Director.Env,
                         parseFloat: string -> Number, frame: Renderer.FrameId)
    requires Director.Enters(p.director, Some(slide)) && !Director.IsVideoSlide(slide)
    requires p.renderer.None?
    ensures var r := EnterSlide(p, Some(slide), env, parseFloat, frame);
      && r.renderer.None? && r.listenerArmed == p.listenerArmed && r.revealArmed == p.revealArmed
      && r.pending == (if slide.id in Director.WebGLSlides then Some(Director.SlideConfig) else p.pending)
  {
    ShaderEntry(p, slide, env, parseFloat, frame);
    ShaderEffectUnloaded(p.(director := p.director.(activeSlideId := slide.id)), slide.id, env.hasCanvas, parseFloat, frame);
  }

  /** Entering a shader slide with the renderer there restarts its loop,
      shows the canvas, and applies the configuration of the configuring
      slides directly. */
  lemma ShaderEntryApplies(p: Page, slide: Director.Slide, env: Director.Env,
                           parseFloat: string -> Number, frame: Renderer.FrameId)
    requires Director.Enters(p.director, Some(slide)) && !Director.IsVideoSlide(slide)
    requires p.renderer.Some? && p.renderer.value.firstApplied
    ensures var r := EnterSlide(p, Some(slide), env, parseFloat, frame);
      && r.pending == p.pending && r.listenerArmed == p.listenerArmed && r.revealArmed == p.revealArmed
      && r.renderer.Some? && r.renderer.value.running
      && r.renderer.value.canvasOpacity == (if env.hasCanvas then "1" else p.renderer.value.canvasOpacity)
      && r.renderer.value.uniforms == (if slide.id in Director.WebGLSlides
           then Renderer.ApplyConfig(p.renderer.value.uniforms, Director.SlideConfig, parseFloat)
           else p.renderer.value.uniforms)
  {
    ShaderEntry(p, slide, env, parseFloat, frame);
    ShaderEffectLoaded(p.(director := p.director.(activeSlideId := slide.id)), slide.id, env.hasCanvas, parseFloat, frame);
  }

  /** Whichever script runs first, once both have run the shader shows the
      uniforms the first slide asks for: parking the configuration and
      applying it at boot (twice, through the ready listener) ends where
      booting first and applying it directly does. */
  lemma LoadOrderUniforms(slides: seq<Director.Slide>, env: Director.Env,
                          parseFloat: string -> Number, frame: Renderer.FrameId)
    ensures var booted := InitSlides(BootRenderer(Start, parseFloat, frame), slides, env, parseFloat, frame);
      var parked := BootRenderer(InitSlides(Start, slides, env, parseFloat, frame), parseFloat, frame);
      booted.renderer.Some? && parked.renderer.Some? &&
      booted.renderer.value.uniforms == parked.renderer.value.uniforms
  {
    var b0 := BootRenderer(Start, parseFloat, frame);
    Renderer.EmptyConfigKeepsUniforms(Renderer.InitialUniforms, parseFloat);
    assert b0.renderer.value.uniforms == Renderer.InitialUniforms;
    if slides != [] && slides[0].id != "" {
      if Director.IsVideoSlide(slides[0]) {
        VideoEntry(b0, slides[0], env, parseFloat, frame);
        VideoEntry(Start, slides[0], env, parseFloat, frame);
      } else {
        ShaderEntryApplies(b0, slides[0], env, parseFloat, frame);
        ShaderEntryParks(Start, slides[0], env, parseFloat, frame);
      }
    }
  }

  /** As written, a deck that opens on a video slide before the renderer has
      booted leaves the shader loop running: the director could not stop a
      renderer that was not there yet, and the renderer starts its loop and
      reveals the canvas when it boots. When the video then delivers its
      first frame (the usual case, as a new source is reloaded), the armed
      reveal hides the canvas, and the loop keeps running under a hidden
      canvas. In the other order the loop is stopped. */
  lemma VideoFirstLeavesShaderRunning(slides: seq<Director.Slide>, env: Director.Env,
                                      parseFloat: string -> Number, frame: Renderer.FrameId)
    requires slides != [] && slides[0].id != "" && Director.IsVideoSlide(slides[0])
    ensures BootRenderer(InitSlides(Start, slides, env, parseFloat, frame), parseFloat, frame).renderer.value.running
    ensures !InitSlides(BootRenderer(Start, parseFloat, frame), slides, env, parseFloat, frame).renderer.value.running
    ensures BootRenderer(InitSlides(Start, slides, env, parseFloat, frame), parseFloat, frame).renderer.value.canvasOpacity == "1"
    ensures env.hasVideo && env.videoHasFrame ==>
      InitSlides(BootRenderer(Start, parseFloat, frame), slides, env, parseFloat, frame).renderer.value.canvasOpacity == "0"
    ensures env.hasVideo && !env.videoHasFrame ==>
      var r := LoadedData(BootRenderer(InitSlides(Start, slides, env, parseFloat, frame), parseFloat, frame));
      r.renderer.value.running && r.renderer.value.canvasOpacity == "0"
  {
    VideoEntry(BootRenderer(Start, parseFloat, frame), slides[0], env, parseFloat, frame);
    VideoEntry(Start, slides[0], env, parseFloat, frame);
  }
}
