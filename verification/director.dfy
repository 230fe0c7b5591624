/** The background director of `initSlides` in public/main.js: on entering a
    slide it chooses between the looping video and the shader background,
    and for a few slides configures the shader. Page effects (opacity, the
    video element, timers) are returned as actions in the order the source
    performs them. */
module Director {
  import opened Js
  import Renderer
  import SlideIndex

  /** A slide element: its id and its `data-bg-type` / `data-video-src`
      attributes (`None` when absent). */
  datatype Slide = Slide(id: string, bgType: Option<string>, videoSrc: Option<string>)

  /** What the director can see of the page: whether the canvas and the
      video elements exist, whether the renderer script has defined its
      functions on `window`, and whether the video already has a frame
      (`readyState >= 2`). The last is taken as given: in the browser a
      source change calls `load()`, which resets the ready state, so right
      after a change it is false and the immediate reveal applies only to a
      video whose source stayed the same. */
  datatype Env = Env(hasCanvas: bool, hasVideo: bool, rendererLoaded: bool, videoHasFrame: bool)

  datatype Action =
    | CancelPauseTimer                           // clearTimeout(pauseTimer)
    | SetWebGLRunning(on: bool)                  // window.setWebGLRunning(on)
    | PrepareVideo(src: string)                  // preload "auto", hide, set src, load()
    | ShowWebGL | HideWebGL | HideVideo          // canvas / video opacity
    | RevealVideo                                // play, then show video and hide canvas
    | RevealVideoWhenLoaded                      // the same, on the first "loadeddata"
    | PlayVideo
    | PauseVideoAfterFade                        // pause once the fade is over
    | ApplyWebGLState(cfg: Renderer.Config)      // window.updateWebGLState(cfg)
    | StorePendingWebGLState(cfg: Renderer.Config) // window.__pendingWebGLState = cfg
    | PreloadMetadata                            // video.preload = "metadata"

  /** `activeSlideId` and `currentVideoSrc`. */
  datatype State = State(activeSlideId: string, currentVideoSrc: string)

  const Initial: State := State("", "")

  datatype Step = Step(state: State, actions: seq<Action>)

  /** `[a]` when `c` holds: an effect guarded by an element's presence. */
  function When(c: bool, a: Action): (r: seq<Action>)
    ensures a in r <==> c
    ensures forall b :: b in r ==> b == a
  {
    if c then [a] else []
  }

  // ---------------------------------------------------------------------------
  // setVideoSrcIfNeeded

  /** `String(nextSrc || "").trim()`. */
  function SourceText(nextSrc: Option<string>): string
  {
    Trim(RawSource(nextSrc))
  }

  /** `nextSrc || ""`. */
  function RawSource(nextSrc: Option<string>): string
  {
    if nextSrc.Some? then nextSrc.value else ""
  }

  /** A remembered source is empty or a trimmed non-empty string. */
  predicate ValidSource(s: State)
  {
    s.currentVideoSrc == "" || Trim(s.currentVideoSrc) == s.currentVideoSrc
  }

  datatype SourceStep = SourceStep(changed: bool, state: State, actions: seq<Action>)

  /** `setVideoSrcIfNeeded`: loads the trimmed source only when a video element
      exists and the source is non-empty and differs from the current one;
      the result says whether it did. */
  function SetVideoSrcIfNeeded(s: State, hasVideo: bool, nextSrc: Option<string>): (r: SourceStep)
    ensures r.changed <==> hasVideo && SourceText(nextSrc) != "" && SourceText(nextSrc) != s.currentVideoSrc
    ensures r.changed ==> r.state == s.(currentVideoSrc := SourceText(nextSrc))
    ensures r.changed ==> r.actions == [PrepareVideo(SourceText(nextSrc))]
    ensures !r.changed ==> r.state == s && r.actions == []
    ensures forall a :: a in r.actions ==> a.PrepareVideo?
    ensures ValidSource(r.state) <== ValidSource(s)
  {
    var src := SourceText(nextSrc);
    if !hasVideo || src == "" || src == s.currentVideoSrc then SourceStep(false, s, [])
    else
      TrimIdempotent(RawSource(nextSrc));
      SourceStep(true, s.(currentVideoSrc := src), [PrepareVideo(src)])
  }

  /** Asking for the same source twice: the second call reports no change and
      leaves everything as it was. */
  lemma SetVideoSrcTwice(s: State, hasVideo: bool, nextSrc: Option<string>)
    ensures var r1 := SetVideoSrcIfNeeded(s, hasVideo, nextSrc);
      var r2 := SetVideoSrcIfNeeded(r1.state, hasVideo, nextSrc);
      !r2.changed && r2.state == r1.state && r2.actions == []
  {
  }

  // ---------------------------------------------------------------------------
  // applyWebGLStateFromSlide

  /** The slides that configure the shader. */
  const WebGLSlides: set<string> := {"slide-4", "slide-5", "slide-9"}

  /** The configuration those slides ask for. */
  const SlideConfig: Renderer.Config := Renderer.Config(
    bgColor := Str("#0b0f14"), fgColor := Str("#00598A"), speed := Num(Finite(0.7)),
    density := Undefined, px := Undefined, burst := Undefined, shape := Str("squares"))

  /** `applyWebGLStateFromSlide`: only the listed slides act; they hand their
      configuration to the renderer, or leave it in the pending slot when the
      renderer is not there yet. */
  function ApplyWebGLStateFromSlide(id: string, rendererLoaded: bool): (acts: seq<Action>)
    ensures id !in WebGLSlides ==> acts == []
    ensures id in WebGLSlides && rendererLoaded ==> acts == [ApplyWebGLState(SlideConfig)]
    ensures id in WebGLSlides && !rendererLoaded ==> acts == [StorePendingWebGLState(SlideConfig)]
  {
    if id !in WebGLSlides then []
    else if !rendererLoaded then [StorePendingWebGLState(SlideConfig)]
    else [ApplyWebGLState(SlideConfig)]
  }

  // ---------------------------------------------------------------------------
  // onEnterSlideForBackground

  /** `(slide.dataset.bgType || "webgl").toLowerCase()`: a missing or empty
      attribute means the shader, any other value is compared lower-cased. */
  function BgType(slide: Slide): (r: string)
    ensures slide.bgType.None? || slide.bgType == Some("") ==> r == "webgl"
    ensures slide.bgType.Some? && slide.bgType.value != "" ==> r == AsciiLower(slide.bgType.value)
  {
    AsciiLowerNoUpper("webgl");
    AsciiLower(if slide.bgType.Some? && slide.bgType.value != "" then slide.bgType.value else "webgl")
  }

  /** A slide with a video background. */
  predicate IsVideoSlide(slide: Slide)
  {
    BgType(slide) == "video"
  }

  /** A slide has the video background exactly when its attribute is present
      and reads "video" ignoring case; a missing or empty attribute never
      does. */
  lemma VideoSlideIff(slide: Slide)
    ensures IsVideoSlide(slide) <==> slide.bgType.Some? && AsciiLower(slide.bgType.value) == "video"
  {
    if slide.bgType.None? || slide.bgType == Some("") {
      assert BgType(slide)[0] == 'w';
    }
  }

  /** The slide is entered for real: present, with an id, and not already
      the active one. */
  predicate Enters(s: State, slide: Option<Slide>)
  {
    slide.Some? && slide.value.id != "" && slide.value.id != s.activeSlideId
  }

  /** The actions that reach the renderer (the rest only touch the page). */
  predicate IsRendererAction(a: Action)
  {
    a.SetWebGLRunning? || a.ApplyWebGLState? || a.StorePendingWebGLState?
  }

  /** The actions that write the canvas's opacity, at once or (for the
      `loadeddata` listener) on a later event. */
  predicate IsCanvasAction(a: Action)
  {
    a.ShowWebGL? || a.HideWebGL? || a.RevealVideo? || a.RevealVideoWhenLoaded?
  }

  predicate PageOnly(acts: seq<Action>)
  {
    forall a :: a in acts ==> !IsRendererAction(a)
  }

  /** The renderer actions of `acts` are among those `allowed`. */
  predicate RendererActionsAmong(acts: seq<Action>, allowed: set<Action>)
  {
    forall a :: a in acts && IsRendererAction(a) ==> a in allowed
  }

  /** Video mode: stop the shader loop, load the slide's video, keep the
      canvas visible until the video has a frame, then reveal the video. */
  function VideoMode(s: State, slide: Slide, env: Env): (r: Step)
    ensures [CancelPauseTimer] <= r.actions
    ensures SetWebGLRunning(false) in r.actions <==> env.rendererLoaded
    ensures RendererActionsAmong(r.actions, {SetWebGLRunning(false)})
    ensures r.state == SetVideoSrcIfNeeded(s, env.hasVideo, slide.videoSrc).state
  {
    var src := SetVideoSrcIfNeeded(s, env.hasVideo, slide.videoSrc);
    Step(src.state, VideoActions(src.actions, env))
  }

  /** The actions of video mode, around those that set the source. */
  function VideoActions(srcActions: seq<Action>, env: Env): (acts: seq<Action>)
    requires PageOnly(srcActions)
    ensures [CancelPauseTimer] <= acts
    ensures SetWebGLRunning(false) in acts <==> env.rendererLoaded
    ensures RendererActionsAmong(acts, {SetWebGLRunning(false)})
  {
    var stop := When(env.rendererLoaded, SetWebGLRunning(false));
    var page := VideoPageActions(srcActions, env);
    assert SetWebGLRunning(false) !in page;
    var rest := stop + page;
    [CancelPauseTimer] + rest
  }

  /** The page side of video mode, after the source is set. */
  function VideoPageActions(srcActions: seq<Action>, env: Env): (acts: seq<Action>)
    requires PageOnly(srcActions)
    ensures PageOnly(acts)
  {
    srcActions + When(env.hasCanvas, ShowWebGL) + When(env.hasVideo, HideVideo) + Reveal(env)
  }

  /** Play the video and cross-fade to it: at once when it already has a
      frame, otherwise on its first `loadeddata` (the play is started now). */
  function Reveal(env: Env): (acts: seq<Action>)
    ensures PageOnly(acts)
  {
    if !env.hasVideo then []
    else if env.videoHasFrame then [RevealVideo]
    else [RevealVideoWhenLoaded, PlayVideo]
  }

  /** Shader mode: hide and later pause the video, restart the shader loop,
      show the canvas, configure the shader, and stop preloading video. */
  function WebGLMode(s: State, slide: Slide, env: Env): (r: Step)
    ensures r.state == s
    ensures SetWebGLRunning(true) in r.actions <==> env.rendererLoaded
    ensures RendererActionsAmong(r.actions,
      {SetWebGLRunning(true)} + (set a | a in ApplyWebGLStateFromSlide(slide.id, env.rendererLoaded)))
    ensures env.hasVideo ==> |r.actions| > 0 && r.actions[|r.actions| - 1] == PreloadMetadata
  {
    var fade := When(env.hasVideo, HideVideo) + When(env.hasVideo, PauseVideoAfterFade);
    var start := When(env.rendererLoaded, SetWebGLRunning(true));
    var show := When(env.hasCanvas, ShowWebGL);
    var apply := ApplyWebGLStateFromSlide(slide.id, env.rendererLoaded);
    var preload := When(env.hasVideo, PreloadMetadata);
    assert PageOnly(fade) && PageOnly(show) && PageOnly(preload);
    assert SetWebGLRunning(true) !in apply;
    Step(s, fade + start + show + apply + preload)
  }

  /** `onEnterSlideForBackground`. */
  function OnEnterSlide(s: State, slide: Option<Slide>, env: Env): (r: Step)
    ensures !Enters(s, slide) ==> r == Step(s, [])
    ensures Enters(s, slide) ==> r.state.activeSlideId == slide.value.id
    ensures Enters(s, slide) && IsVideoSlide(slide.value) ==>
      && (SetWebGLRunning(false) in r.actions <==> env.rendererLoaded)
      && RendererActionsAmong(r.actions, {SetWebGLRunning(false)})
      && r.state.currentVideoSrc == SetVideoSrcIfNeeded(s, env.hasVideo, slide.value.videoSrc).state.currentVideoSrc
    ensures Enters(s, slide) && !IsVideoSlide(slide.value) ==>
      && (SetWebGLRunning(true) in r.actions <==> env.rendererLoaded)
      && RendererActionsAmong(r.actions,
           {SetWebGLRunning(true)} + (set a | a in ApplyWebGLStateFromSlide(slide.value.id, env.rendererLoaded)))
      && r.state.currentVideoSrc == s.currentVideoSrc
      && (env.hasVideo ==> |r.actions| > 0 && r.actions[|r.actions| - 1] == PreloadMetadata)
    ensures ValidSource(s) ==> ValidSource(r.state)
  {
    if !Enters(s, slide) then Step(s, [])
    else
      var entered := s.(activeSlideId := slide.value.id);
      if IsVideoSlide(slide.value) then VideoMode(entered, slide.value, env)
      else WebGLMode(entered, slide.value, env)
  }

  /** Entering the same slide twice: the second call does nothing. */
  lemma EnterTwiceIsNoOp(s: State, slide: Option<Slide>, env1: Env, env2: Env)
    ensures var r1 := OnEnterSlide(s, slide, env1);
      OnEnterSlide(r1.state, slide, env2) == Step(r1.state, [])
  {
  }

  /** The background type defaults to the shader and ignores case. */
  lemma BgTypeExamples()
    ensures !IsVideoSlide(Slide("s", None, None)) && !IsVideoSlide(Slide("s", Some(""), None))
    ensures IsVideoSlide(Slide("s", Some("VIDEO"), None)) && IsVideoSlide(Slide("s", Some("Video"), None))
  {
    AsciiLowerNoUpper("webgl");
  }

  /** The observer callback: the most visible intersecting slide, if any, is
      entered. */
  method OnIntersection(s: State, entries: seq<SlideIndex.Entry<Slide>>, env: Env) returns (r: Step)
    ensures (forall j :: 0 <= j < |entries| ==> !entries[j].isIntersecting) ==> r == Step(s, [])
    ensures (exists j :: 0 <= j < |entries| && entries[j].isIntersecting) ==>
      exists k :: SlideIndex.IsBest(entries, k) && r == OnEnterSlide(s, Some(entries[k].target), env)
  {
    var best := SlideIndex.BestEntry(entries);
    if best.None? {
      r := Step(s, []);
    } else {
      r := OnEnterSlide(s, Some(entries[best.value].target), env);
    }
  }
}
