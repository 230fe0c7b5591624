# Pitch deck: a verified model of its page logic

The pitch deck is a single scrolling page of full-screen slides. Two scripts
drive it:

- `public/main.js` personalises two slides from a lookup table, finds the
  slide nearest the middle of the viewport, and lets the reader move between
  slides with the stepper, the keyboard, snap-after-scroll and a
  direction-aware cursor. It also decides, slide by slide, whether the
  background is a looping video or the shader, and it switches the shader
  off on weak devices.
- `public/webgl-bg.js` draws the shader background. It exposes
  `window.updateWebGLState(config)` and `window.setWebGLRunning(v)`, and it
  signals `webglbg:ready` once its first state is applied.

This project models that logic in Dafny as pure functions over immutable
records, and proves what the code promises. The browser is replaced by
inputs and outputs:

- geometry becomes numbers (slide centres, viewport height);
- DOM effects of the background director become a list of actions;
- `parseFloat` is a function parameter;
- `fetch` is an optional lookup table.

| file | module | models |
|---|---|---|
| `js.dfy` | `Js` | JavaScript values, truthiness, `??`, `String.prototype.trim`, ASCII `toLowerCase`, regex literal search |
| `html_escape.dfy` | `HtmlEscape` | `escapeHTML`, with the decoder of the five character references as its partner (WHATWG HTML Living Standard, section 13.1.4) |
| `slide_text.dfy` | `SlideText` | `safeText`, the slide-2 formatter, and `initPersonalization` after the fetch; a reader of the produced markup is the formatter's partner |
| `slide_index.dfy` | `SlideIndex` | `getNearestSlideIndex`, the most-visible-entry loop, `scrollToSlideIndex` clamping, stepper, snap assist, keyboard |
| `director.dfy` | `Director` | `setVideoSrcIfNeeded`, `applyWebGLStateFromSlide`, `onEnterSlideForBackground`, the observer callback |
| `page.dfy` | `Page` | the two scripts together: the pending-state slot, the one-shot ready listener, and either load order |
| `renderer.dfy` | `Renderer` | `toNumber`, `clamp01`, `updateWebGLState`, `startRender`/`stopRender`/`setWebGLRunning`, `pagehide`, the `bayer4` table, `resize` |
| `cursor_nav.dfy` | `CursorNav` | `setDir`, `updateDirByY`, and the `mousemove` and `pointerdown` listeners |
| `canvas_gate.dfy` | `CanvasGate` | `shouldEnableCanvas` |

## Model

| member | source | states |
|---|---|---|
| `Js.Trim` | public/main.js:102 | The result is a slice of the input. Everything cut from either end is ECMAScript white space, and the result neither starts nor ends with white space. |
| `Js.TrimIdempotent` | public/main.js:402 | Trimming an already trimmed string changes nothing. |
| `Js.AsciiLower` | public/main.js:169 | Lowering keeps the length and maps each character on its own, upper-case ASCII letters to lower case. |
| `Js.ContainsComplete` | public/main.js:37 | The `/2g/` test succeeds on every string that holds "2g" at some position. |
| `Js.ContainsSound` | public/main.js:37 | The `/2g/` test succeeds only on strings that hold "2g"; it returns the position. |
| `HtmlEscape.EscapeChar` | public/main.js:336-340 | The five special characters map to a reference. Every other character maps to itself. No replacement holds a special character after its first position. |
| `HtmlEscape.Escape` | public/main.js:334-342 | The output holds no raw `<`, `>`, `"` or `'`. Every `&` in it begins one of `&amp;` `&lt;` `&gt;` `&quot;` `&#39;`. The output is never shorter than the input. |
| `HtmlEscape.UnescapeEscape` | public/main.js:334-342 | Decoding the five references in the output gives back the input exactly. |
| `HtmlEscape.EscapeUnescape` | public/main.js:334-342 | Every text of that escaped shape is the escaping of its decoding. So escaping is a bijection onto escaped texts. |
| `HtmlEscape.EscapeAppend` | public/main.js:334-342 | Escaping a concatenation is the concatenation of the escapings, so order is kept. |
| `HtmlEscape.EscapePassThrough` | public/main.js:334-342 | Text without special characters comes out unchanged. |
| `HtmlEscape.EscapeInjective` | public/main.js:334-342 | Different inputs never escape to the same text. |
| `SlideText.SafeText` | public/main.js:21-23 | A string is returned as is; any other value gives "". |
| `SlideText.RawText` | public/main.js:398-399 | The fallback replaces only a null or undefined field (`Field` gives undefined for a missing record or field). A present string is kept, even when empty. A present non-string gives "". |
| `SlideText.Split` | public/main.js:402 | Splitting on `\n` gives at least one piece, and no piece holds a newline. |
| `SlideText.JoinSplit` | public/main.js:402 | Joining the pieces with `\n` gives back the text, so splitting loses nothing. |
| `SlideText.SplitJoin` | public/main.js:402 | Newline-free pieces, joined and split again, come back unchanged. |
| `SlideText.DropEmpty` | public/main.js:402 | `filter(Boolean)` keeps only non-empty elements, all taken from the input, and keeps every non-empty element of the input. It is empty exactly when every element is empty. A single element is kept exactly when it is non-empty. |
| `SlideText.DropEmptyAppend` | public/main.js:402 | Filtering a concatenation concatenates the filtered halves, so order is kept. |
| `SlideText.TrimAll` | public/main.js:402 | `map((s) => s.trim())` keeps the length, and each element is the trimming of the piece at that position. |
| `SlideText.Lines` | public/main.js:402 | Every kept line (split, then `TrimAll`, then `DropEmpty`) is non-empty, trimmed and newline-free. No line survives exactly when the text is blank. |
| `SlideText.LinesAppend` | public/main.js:402 | The lines of two texts joined by a newline are the lines of the first followed by those of the second. |
| `SlideText.LinesOfLine` | public/main.js:402 | A text without a newline gives no line when it is blank, and its trimmed self otherwise. With the rule above this fixes the lines of every text. |
| `SlideText.Outline` | public/main.js:404-406 | Blank text gives no outline. Otherwise the title followed by the items is exactly the list of kept lines. |
| `SlideText.Format` | public/main.js:402-417 | Slide 2 becomes empty exactly when the text is blank. Otherwise the markup reads back as the first kept line for the title and the rest, in order, for the items. It is a bare title div exactly when one line is kept. With `ReadBackSound` this fixes the markup, escaping included. |
| `SlideText.Render` | public/main.js:408-414 | The markup (`Render`, with the `<li>` run built by `ListItems`) is the title div alone exactly when there are no items. With items a `<ul>` follows. `ReadBackRender` and `ReadBackSound` make it the exact inverse of the reader. |
| `SlideText.ReadBackRender` | public/main.js:408-414 | The rendered markup is non-empty. Reading it back gives the outline it was rendered from: escaped title in the div, one escaped `<li>` per item, and a `<ul>` only when there are items. The reader accepts a text run only when it has the shape `escapeHTML` produces. |
| `SlideText.ReadItemsSound` | public/main.js:410-413 | Whatever list of items the reader accepts, the markup is exactly those items rendered as escaped `<li>` elements, followed by `</ul>`. |
| `SlideText.ReadBackSound` | public/main.js:408-414 | Whatever outline the reader accepts, the markup is exactly that outline's rendering. So no markup with a raw `&`, `<`, `>`, `"` or `'` in a title or item reads back. |
| `SlideText.FormatDetermined` | public/main.js:402-417 | For non-blank text, markup reads back as the text's outline (first kept line as title, the rest as items) exactly when it is the formatter's output. |
| `SlideText.ReadBackRejectsEmptyList` | public/main.js:410-414 | The reader refuses an empty `<ul></ul>`, which the formatter never writes. |
| `SlideText.Lookup` | public/main.js:396 | An absent or empty id selects no record. A present, non-empty id that is in the table selects its record. |
| `SlideText.Personalize` | public/main.js:391-425 | If the fetch fails, both slides get their fallback text. If it succeeds, slide 2 gets formatted markup. A string field is formatted; a null or missing field, or a missing record, falls back to the fallback text; any other value gives empty markup. Slide 9 follows the same three cases without formatting. |
| `SlideText.PersonalizeReadsBack` | public/main.js:396-417 | After a successful fetch, slide 2 is empty exactly when the chosen text is blank. Otherwise it reads back as that text's first line and, in order, its remaining lines. |
| `SlideIndex.NearestSlideIndex` | public/main.js:479-495 | The result is a slide of minimal distance to the viewport centre, and the earliest such slide. With no slides the result is 0. |
| `SlideIndex.NearestUnique` | public/main.js:479-495 | At most one index meets that description, so the first-wins rule leaves no choice. |
| `SlideIndex.BestEntry` | public/main.js:566-570 | With no intersecting entry the result is nothing. Otherwise it is an intersecting entry of maximal ratio, the earliest on ties. |
| `SlideIndex.BestUnique` | public/main.js:271-275 | At most one entry is the best one. |
| `SlideIndex.ActiveStep` | public/main.js:564-573 | The stepper marks the best entry's slide id, when that id is non-empty. Otherwise it marks nothing new. |
| `SlideIndex.ScrollTarget` | public/main.js:497-498 | With at least one slide the target is a valid index. It is the requested index when that is valid, and the nearest end otherwise. |
| `SlideIndex.StepperTarget` | public/main.js:549-551 | A stepper button scrolls to its own slide. |
| `SlideIndex.SnapTarget` | public/main.js:519-522 | Snap assist scrolls to the nearest slide itself. |
| `SlideIndex.KeyMoveOf` | public/main.js:591-599 | Exactly ArrowUp, ArrowLeft and PageUp mean previous. Exactly ArrowDown, ArrowRight, PageDown and space mean next. |
| `SlideIndex.KeyTarget` | public/main.js:584-600 | Other keys scroll nowhere. Previous from slide 0 stays at 0. Next from the last slide stays there. Otherwise the move is one slide in that direction. |
| `SlideIndex.KeyStepIsAdjacent` | public/main.js:584-600 | A navigation key moves at most one slide. It stays put only at the end it pushes against. |
| `Director.When` | public/main.js:62-80 | An effect guarded by an element's presence happens exactly when the element exists. |
| `Director.SetVideoSrcIfNeeded` | public/main.js:100-115 | Reports a change exactly when there is a video element and the trimmed source (`SourceText`: `String(nextSrc || "").trim()`) is non-empty and differs from the current one. Only then does the current source change and the video load. A remembered source is always trimmed. |
| `Director.SetVideoSrcTwice` | public/main.js:100-115 | A second call with the same source reports no change and leaves everything as it was. |
| `Director.ApplyWebGLStateFromSlide` | public/main.js:134-160 | Slides outside slide-4/5/9 do nothing. Those three hand their fixed configuration to the renderer when it is loaded, and park it in the pending slot otherwise. |
| `Director.VideoMode` | public/main.js:171-203 | Video mode clears the pause timer first and stops the shader exactly when the renderer is loaded. It sends the renderer nothing else, and it takes the current source from `setVideoSrcIfNeeded`. |
| `Director.VideoActions` | public/main.js:172-201 | The page effects of video mode never touch the renderer. |
| `Director.VideoPageActions` | public/main.js:180-201 | Setting the source, showing the canvas, hiding and revealing the video never reach the renderer. |
| `Director.Reveal` | public/main.js:187-201 | Revealing the video is a page-only effect. |
| `Director.WebGLMode` | public/main.js:207-220 | Shader mode restarts the shader exactly when it is loaded. It configures only through `applyWebGLStateFromSlide`. It keeps the video source, and with a video element it sets preload to metadata last. |
| `Director.OnEnterSlide` | public/main.js:164-222 | No slide, an empty id or the active id changes nothing. Otherwise the slide becomes active and the mode rules above apply. The remembered source stays trimmed. |
| `Director.EnterTwiceIsNoOp` | public/main.js:164-167 | Entering the same slide again does nothing. |
| `Director.BgType` | public/main.js:169 | A missing or empty type means "webgl". Any other type is taken lower-cased. |
| `Director.BgTypeExamples` | public/main.js:169 | A missing or empty type means the shader. "VIDEO" and "Video" mean video. |
| `Director.VideoSlideIff` | public/main.js:169-171 | A slide is a video slide exactly when its type is present and reads "video" ignoring case. |
| `Director.OnIntersection` | public/main.js:270-276 | With no intersecting entry nothing happens. Otherwise the best entry's slide is entered. |
| `Page.OnReady` | public/main.js:326-331 | The listener fires once. It applies the parked configuration, if any, and clears the slot. |
| `Page.ApplyState` | public/webgl-bg.js:269-304 | `updateWebGLState` leaves the loop flags alone and marks the first state applied. The first call reveals the canvas; a later call keeps a revealed canvas revealed. On a configured renderer it only updates the uniforms. |
| `Page.Perform` | public/main.js:62-80 | `showWebGL` sets the canvas opacity to "1" and `hideWebGL` sets it to "0", when there is a renderer. Installing the `loadeddata` reveal arms it. Actions that touch neither the renderer nor the canvas change nothing here. |
| `Page.PerformAll` | public/main.js:164-222 | Performing actions never loads or unloads the renderer. |
| `Page.PerformAllAppend` | public/main.js:164-222 | Performing two lists of actions is performing them in turn. |
| `Page.PerformInert` | public/main.js:73-80 | A list of actions that touch neither the renderer nor the canvas changes nothing here. |
| `Page.EnterSlide` | public/main.js:164-222 | The director decides with the renderer's current presence, and the director state follows it. |
| `Page.InitSlides` | public/main.js:324-331 | No slides does nothing. Otherwise the first slide is entered and the ready listener is armed. |
| `Page.BootRenderer` | public/webgl-bg.js:306-316 | After boot the slot is empty, the listener is spent, the loop runs and the canvas is revealed. The uniforms are those of one application of the parked configuration, or of `{}`, even though the ready listener applies it a second time. |
| `Page.BootSettles` | public/webgl-bg.js:306-316 | A booted renderer has its uniforms in range and nothing parked. |
| `Page.PerformSettled` | public/main.js:154-159 | A renderer or canvas action other than parking keeps a settled page settled: uniforms in range, first state applied, nothing parked. |
| `Page.PerformAllSettled` | public/main.js:154-159 | The same holds for a whole list of actions. |
| `Page.EnterSlideSettled` | public/main.js:154-159 | Once the renderer is there, entering slides never parks a configuration or pushes a uniform out of range. |
| `Page.PerformWhen` | public/main.js:62-80 | A guarded effect is performed exactly when its guard holds. |
| `Page.EnteredActions` | public/main.js:169-220 | A real entry runs video mode or shader mode according to the slide's type. |
| `Page.VideoEntry` | public/main.js:171-203 | Entering a video slide stops the renderer, when there is one. If the video already has a frame the canvas ends hidden. Otherwise the canvas is shown, when there is one, and the reveal waits for `loadeddata`. The slot and the ready listener are untouched. |
| `Page.RevealEffect` | public/main.js:187-201 | Without a video the reveal does nothing. A video with a frame hides the canvas now. Otherwise the reveal is deferred to `loadeddata`. |
| `Page.VideoPageEffect` | public/main.js:180-201 | Of video mode's page effects only showing the canvas and the reveal reach the page state, in that order. |
| `Page.LoadedData` | public/main.js:198 | An armed reveal hides the canvas and disarms itself. Without one the event changes nothing. |
| `Page.DeferredReveal` | public/main.js:183-198 | A video slide whose video has no frame keeps the canvas shown after entry. The first `loadeddata` then hides it. |
| `Page.ShaderActions` | public/main.js:207-220 | Of shader mode only the restart, showing the canvas and the configuration reach the page state. |
| `Page.ShaderEffectUnloaded` | public/main.js:154-157 | Without a renderer, shader mode parks the configuration of slides 4, 5 and 9 and changes nothing else. |
| `Page.ShaderEffectLoaded` | public/main.js:212-217 | With the renderer there, shader mode leaves the loop running, shows the canvas when there is one, and applies the configuration of slides 4, 5 and 9. |
| `Page.ShaderEntryParks` | public/main.js:154-157 | Before the renderer boots, slides 4, 5 and 9 park their configuration; other slides leave the slot alone. |
| `Page.ShaderEntryApplies` | public/main.js:159-217 | With the renderer there, the loop runs again, the canvas is shown when there is one, and slides 4, 5 and 9 apply their configuration directly. |
| `Page.LoadOrderUniforms` | public/main.js:324-331 | Whichever script runs first, once both have run the shader shows the same uniforms. |
| `Page.VideoFirstLeavesShaderRunning` | public/main.js:324 | As written, for a first slide that is a video slide, if the renderer boots later the shader loop keeps running. When the video's first `loadeddata` arrives after that, the canvas is hidden and the loop still runs. In the other load order the loop is stopped, and with a video frame ready the canvas is hidden. |
| `Renderer.ToNumber` | public/webgl-bg.js:265-268 | A finite number, or a string that `parseFloat` reads as finite, gives that value. Everything else gives null. |
| `Renderer.AtLeast` | public/webgl-bg.js:279 | `Math.max(lo, x)` is at least both arguments and equal to one of them. |
| `Renderer.Clamp01` | public/webgl-bg.js:261-263 | The result lies in [0, 1]. It equals the input when the input is inside, and the nearer end otherwise. |
| `Renderer.ShapeOf` | public/webgl-bg.js:290-294 | "square(s)" gives 1.0 and "triangle(s)" gives 0.0, compared after lowering (`ShapeText`). Any other value gives no change. |
| `Renderer.FloorOr` | public/webgl-bg.js:278-288 | A null number keeps the uniform. A number becomes the larger of it and the floor. |
| `Renderer.ClampOr` | public/webgl-bg.js:281-282 | A null density keeps the uniform. A number becomes its clamp into [0, 1]. |
| `Renderer.ColourOr` | public/webgl-bg.js:271-276 | Only a string colour replaces the current one. |
| `Renderer.ApplyConfig` | public/webgl-bg.js:270-294 | Each uniform follows its own field as above; a numeric density becomes its clamp into [0, 1]. Absent or wrongly typed fields leave their uniform untouched. |
| `Renderer.StartRender` | public/webgl-bg.js:233-236 | A frame is scheduled afterwards. With one already scheduled nothing changes. Only `raf` can change. |
| `Renderer.StopRender` | public/webgl-bg.js:238-242 | No frame is scheduled afterwards. Without one nothing changes. Only `raf` can change. |
| `Renderer.RenderFrame` | public/webgl-bg.js:226-231 | A drawn frame schedules the next one and changes nothing else here. A consistent running loop stays consistent and running. |
| `Renderer.Boot` | public/webgl-bg.js:13 | The script starts with the canvas hidden, the initial uniforms in range, running, and a frame scheduled. |
| `Renderer.SetWebGLRunning` | public/webgl-bg.js:244-251 | `running` becomes `!!v`. The call does nothing when that is already the flag. It keeps `running` and `raf` in step, and changes no uniform. |
| `Renderer.SetWebGLRunningIdempotent` | public/webgl-bg.js:244-251 | A second call with the same value changes nothing. |
| `Renderer.StartStopIdempotent` | public/webgl-bg.js:233-242 | Starting twice is starting once, and stopping twice is stopping once. |
| `Renderer.PageHide` | public/webgl-bg.js:255 | `pagehide` cancels the frame but leaves `running` as it was. |
| `Renderer.PageHideThenResume` | public/webgl-bg.js:244-255 | As written: after `pagehide` on a running renderer, the flags disagree, and `setWebGLRunning(true)` cannot restart the loop. |
| `Renderer.UpdateWebGLState` | public/webgl-bg.js:269-304 | The uniforms follow the configuration and the loop flags are untouched. The first call, and only the first, reveals the canvas and dispatches the ready event. |
| `Renderer.ReadyOnce` | public/webgl-bg.js:295-301 | A later call never dispatches the ready event again. |
| `Renderer.ApplyConfigIdempotent` | public/webgl-bg.js:270-294 | Applying a configuration twice is applying it once. |
| `Renderer.EmptyConfigKeepsUniforms` | public/webgl-bg.js:313-314 | `updateWebGLState({})` changes no uniform. |
| `Renderer.ApplyConfigKeepsRange` | public/webgl-bg.js:278-288 | Configuration keeps px at least 6, density in [0, 1], and speed and burst non-negative. |
| `Renderer.ShapeNames` | public/webgl-bg.js:290-294 | "Squares" and "SQUARE" give squares, "Triangles" and "triangle" give triangles, "circles" and a missing shape change nothing. |
| `Renderer.Bayer4` | public/webgl-bg.js:69-81 | Every entry of the dither table is below 16. |
| `Renderer.Bayer4IsRecursiveBayer` | public/webgl-bg.js:74-78 | The table is the standard recursive 4x4 Bayer matrix built from the 2x2 one. |
| `Renderer.Bayer4Permutation` | public/webgl-bg.js:74-78 | The sixteen entries are a permutation of 0..15: pairwise distinct, and each value sits at a known position. |
| `Renderer.ThresholdsDistinct` | public/webgl-bg.js:80 | The thresholds `(v + 0.5) / 16` lie strictly inside (0, 1) and are pairwise distinct. |
| `Renderer.Mod4` | public/webgl-bg.js:70-71 | GLSL `mod(a, 4.0)` lies in [0, 4). |
| `Renderer.BayerIndex` | public/webgl-bg.js:70-72 | Every fragment reads one of the sixteen cells. |
| `Renderer.DitherThreshold` | public/webgl-bg.js:69-81 | Every fragment's dither threshold lies strictly inside (0, 1). |
| `Renderer.DitherPeriodic` | public/webgl-bg.js:70-71 | The dither pattern repeats every four pixels in each direction. |
| `Renderer.PixelRatio` | public/webgl-bg.js:18 | A missing (NaN) or zero ratio gives 1. A finite ratio gives the smaller of it and 1.5. Plus infinity gives 1.5. Minus infinity gives minus infinity. |
| `Renderer.BufferSide` | public/webgl-bg.js:197-198 | With a finite ratio the side is a whole number at least 1. It is the floor of the scaled extent when that is at least 1, and 1 otherwise. An infinite ratio gives 1 or plus infinity on a non-zero extent. NaN, or infinity times a zero extent, gives NaN. |
| `Renderer.ResizeBounds` | public/webgl-bg.js:18-201 | `Resize` gives the two buffer sides. Unless the reported ratio is minus infinity, both sides are whole numbers at least 1. Each is 1 or at most 1.5 times its window extent. |
| `Renderer.ResizeNegativeInfinity` | public/webgl-bg.js:18-201 | As written: a ratio of minus infinity with a zero window height gives a NaN height. |
| `CursorNav.SetDir` | public/main.js:635-651 | The same direction is a no-op. A new direction sets both classes exactly when it is up or down, and sets that direction's icon. |
| `CursorNav.SetDirKeepsShown` | public/main.js:635-651 | The page always shows what the direction says. |
| `CursorNav.DirByY` | public/main.js:653-672 | The first slide never gives up and the last never gives down. Middle slides give up exactly in the top 28 % and down exactly in the bottom 28 % outside it. |
| `CursorNav.MouseMove` | public/main.js:682-693 | The cursor target follows the pointer. Over interactive elements the direction clears; elsewhere it follows the pointer's height. |
| `CursorNav.PointerDown` | public/main.js:695-711 | A click passes through exactly over interactive elements or with no direction. Otherwise it scrolls to the clamped slide one up or one down. |
| `CursorNav.ClickMovesOneSlide` | public/main.js:653-711 | In a deck of several slides, a click in a band goes to the neighbouring slide in the arrow's direction. |
| `CursorNav.SingleSlideShowsDown` | public/main.js:658-662 | As written: a one-slide deck shows "down" in the bottom band, and clicking it stays on slide 0. |
| `CanvasGate.ShouldEnableCanvas` | public/main.js:25-40 | The canvas is enabled exactly when the reader does not ask for reduced motion, the connection neither saves data nor has a 2G kind, and neither the device memory nor the core count is a truthy number at most 2 or 4. A reported 0 or NaN counts as not reported. Any other value up to the bound disables the canvas, so does a negative one or minus infinity. |
| `CanvasGate.NothingReportedEnables` | public/main.js:25-40 | A browser that reports none of these keeps the canvas. |
| `CanvasGate.TwoGDisables` | public/main.js:37 | "2g" anywhere in the connection type disables the canvas. |
| `CanvasGate.No2GKeeps` | public/main.js:37 | A type without "2g", and no data saving, does not disable it. |
| `CanvasGate.MoreHardwareStaysEnabled` | public/main.js:29-33 | A device the gate accepts stays accepted with more memory and more cores reported. |

## Left out

- The canvas opacity written by `showWebGL` and `hideWebGL` is kept in the renderer state. Other DOM and CSS effects are modelled only as `Director.Action` values, in the order the source performs them. This covers the video's opacity, classes, `innerHTML`/`textContent`, `aria-current` and the icon `src`.
- Canvas opacity written before the renderer boots is not kept: the renderer script sets it to "0" when it starts.
- Whether the video has a frame (`Director.Env.videoHasFrame`) is an input independent of a source change. In the browser `load()` resets it, so the immediate reveal happens only when the source stayed the same; the model also covers the combination the browser does not produce.
- `Page.RevealEffect`: the reveal awaits `playVideo()`. The model performs it at once. A move back to a shader slide before the play promise settles is not covered.
- `IntersectionObserver`, `getBoundingClientRect` and scroll positions are not modelled. Observer entries and slide centres are given as inputs.
- `fetch`, `res.json()` and `getQueryParam` (URL parsing) are not modelled. The table arrives as an optional map, `None` when loading failed, and the id as an optional string. Reading the fallback text from the page (`textContent.trim()`) is also left out.
- Timers and animation frames are reduced to frame handles: `setTimeout`, the fade delay of `pauseVideoAfterFade`, snap debouncing, `requestAnimationFrame` and `smoothScrollTo` easing.
- The cursor's `lerp` easing tick is not modelled.
- `video.play()`, `load()` and autoplay are not modelled; they are asynchronous browser behaviour.
- The video preloader observer (`setupVideoPreload`) is not modelled.
- The per-slide enter animations (`is-active`, `is-in`) are not modelled.
- Three.js (renderer, scene, material, `THREE.Color.set` colour parsing) is not modelled. Colours are kept as the strings passed in.
- The shader's hash, noise, masks and burst maths run on GPU floats and are not modelled; only the `bayer4` table and its indexing are.
- Floating point is not modelled: JavaScript numbers are reals plus NaN and the infinities, and `parseFloat` is a parameter.
- `Js.AsciiLower`: lowers ASCII letters only, not full Unicode `toLowerCase`. Every comparison it feeds is against ASCII words ("video", "square(s)", "triangle(s)").
- `Renderer.ShapeOf`: non-string shapes give "". The source's `String(config.shape)` would make an array such as `["squares"]` match.
- `SlideText.Lookup`: the table is a map from ids to records. Non-object entries and inherited property names such as `__proto__` are not modelled.
- `initStepper`'s button creation, `initCanvasBackground`'s class toggle and `initHighlights` are DOM wiring and are not modelled.
- The `isDesktop` media-query early return of `initCursorNavigator` is not modelled; the model starts once the navigator is active.
