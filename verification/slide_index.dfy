/** Slide index selection in public/main.js: the slide nearest the viewport
    centre, the most visible intersecting slide, and the clamped targets of
    the stepper, snap assist, keyboard and cursor navigation. Geometry is
    given as numbers (slide centres and the viewport centre, in page
    coordinates). */
module SlideIndex {
  import opened Js

  function Abs(x: real): (r: real)
    ensures r >= 0.0 && (r == x || r == -x)
  {
    if x < 0.0 then -x else x
  }

  /** `k` is what `getNearestSlideIndex` promises: a slide whose centre is
      closest to the viewport centre, and the first such slide. */
  ghost predicate IsNearest(centres: seq<real>, centre: real, k: int)
  {
    && 0 <= k < |centres|
    && (forall j :: 0 <= j < |centres| ==> Abs(centres[k] - centre) <= Abs(centres[j] - centre))
    && (forall j :: 0 <= j < k ==> Abs(centres[j] - centre) > Abs(centres[k] - centre))
  }

  /** `getNearestSlideIndex`: a scan that keeps the first strictly smaller
      distance (`dist` starts at `Infinity`, modelled by `seen`). With no
      slides it answers 0. */
  method NearestSlideIndex(centres: seq<real>, centre: real) returns (best: nat)
    ensures |centres| == 0 ==> best == 0
    ensures |centres| > 0 ==> IsNearest(centres, centre, best)
  {
    best := 0;
    var dist := 0.0;
    var seen := false;
    var i := 0;
    while i < |centres|
      invariant 0 <= i <= |centres|
      invariant seen <==> i > 0
      invariant seen ==> best < i && dist == Abs(centres[best] - centre)
      invariant !seen ==> best == 0
      invariant forall j :: 0 <= j < i ==> dist <= Abs(centres[j] - centre)
      invariant forall j :: 0 <= j < best ==> Abs(centres[j] - centre) > dist
    {
      var d := Abs(centres[i] - centre);
      if !seen || d < dist {
        dist := d;
        best := i;
        seen := true;
      }
      i := i + 1;
    }
  }

  /** The nearest slide is unique: first-wins tie breaking leaves no choice. */
  lemma NearestUnique(centres: seq<real>, centre: real, k1: int, k2: int)
    requires IsNearest(centres, centre, k1) && IsNearest(centres, centre, k2)
    ensures k1 == k2
  {
    assert Abs(centres[k1] - centre) <= Abs(centres[k2] - centre);
    assert Abs(centres[k2] - centre) <= Abs(centres[k1] - centre);
  }

  /** One `IntersectionObserver` entry: whether the slide intersects, its
      visible ratio and the observed slide. */
  datatype Entry<T> = Entry(isIntersecting: bool, ratio: real, target: T)

  /** `k` is the entry the observer callbacks pick: intersecting, of maximal
      ratio among the intersecting entries, and the earliest such. */
  ghost predicate IsBest<T>(entries: seq<Entry<T>>, k: int)
  {
    && 0 <= k < |entries|
    && entries[k].isIntersecting
    && (forall j :: 0 <= j < |entries| && entries[j].isIntersecting ==> entries[j].ratio <= entries[k].ratio)
    && (forall j :: 0 <= j < k && entries[j].isIntersecting ==> entries[j].ratio < entries[k].ratio)
  }

  /** The "most visible entry" loop, used by the background director and by
      the stepper: `best` is replaced only by a strictly larger ratio. */
  method BestEntry<T>(entries: seq<Entry<T>>) returns (best: Option<nat>)
    ensures best.None? <==> forall j :: 0 <= j < |entries| ==> !entries[j].isIntersecting
    ensures best.Some? ==> IsBest(entries, best.value)
  {
    best := None;
    var i := 0;
    while i < |entries|
      invariant 0 <= i <= |entries|
      invariant best.None? <==> forall j :: 0 <= j < i ==> !entries[j].isIntersecting
      invariant best.Some? ==> best.value < i && entries[best.value].isIntersecting
      invariant best.Some? ==> forall j :: 0 <= j < i && entries[j].isIntersecting ==>
        entries[j].ratio <= entries[best.value].ratio
      invariant best.Some? ==> forall j :: 0 <= j < best.value && entries[j].isIntersecting ==>
        entries[j].ratio < entries[best.value].ratio
    {
      var e := entries[i];
      if e.isIntersecting {
        if best.None? || e.ratio > entries[best.value].ratio {
          best := Some(i);
        }
      }
      i := i + 1;
    }
  }

  /** The stepper's observer callback: the id of the most visible
      intersecting slide becomes the current step, unless it is empty; with
      no intersecting slide the current step is kept (`None`). */
  method ActiveStep(entries: seq<Entry<string>>) returns (step: Option<string>)
    ensures step.Some? ==> step.value != "" && exists k :: IsBest(entries, k) && entries[k].target == step.value
    ensures step.None? ==> forall k :: IsBest(entries, k) ==> entries[k].target == ""
  {
    var best := BestEntry(entries);
    if best.Some? && entries[best.value].target != "" {
      step := Some(entries[best.value].target);
    } else {
      step := None;
      forall k | IsBest(entries, k)
        ensures entries[k].target == ""
      {
        if best.Some? {
          BestUnique(entries, k, best.value);
        }
      }
    }
  }

  /** The best entry is unique. */
  lemma BestUnique<T>(entries: seq<Entry<T>>, k1: int, k2: int)
    requires IsBest(entries, k1) && IsBest(entries, k2)
    ensures k1 == k2
  {
  }

  /** `Math.max(0, Math.min(n - 1, index))` in `scrollToSlideIndex`: with at
      least one slide the result is a valid index, the requested one when it
      is valid and the nearest end otherwise. */
  function ScrollTarget(n: nat, index: int): (i: nat)
    requires n > 0
    ensures i < n
    ensures 0 <= index < n ==> i == index
    ensures index < 0 ==> i == 0
    ensures index >= n ==> i == n - 1
  {
    var m := if n - 1 < index then n - 1 else index;
    if m < 0 then 0 else m
  }

  /** The stepper button of slide `idx` scrolls to that very slide. */
  lemma StepperTarget(n: nat, idx: nat)
    requires idx < n
    ensures ScrollTarget(n, idx) == idx
  {
  }

  /** The snap assist after scrolling settles: the nearest slide, clamped.
      Clamping never moves it, so the snap target is the nearest slide. */
  method SnapTarget(centres: seq<real>, centre: real) returns (target: nat)
    requires |centres| > 0
    ensures IsNearest(centres, centre, target)
  {
    var idx := NearestSlideIndex(centres, centre);
    target := ScrollTarget(|centres|, idx);
  }

  /** What a key press asks of the keyboard navigator. */
  datatype KeyMove = Previous | Next | Ignore

  /** The two key lists of `initKeyboardNav`. */
  function KeyMoveOf(key: string): (m: KeyMove)
    ensures m == Previous <==> key in ["ArrowUp", "ArrowLeft", "PageUp"]
    ensures m == Next <==> key in ["ArrowDown", "ArrowRight", "PageDown", " "]
  {
    if key in ["ArrowUp", "ArrowLeft", "PageUp"] then Previous
    else if key in ["ArrowDown", "ArrowRight", "PageDown", " "] then Next
    else Ignore
  }

  /** The slide a key press scrolls to, from the nearest slide `idx`; `None`
      when the key is not a navigation key (then nothing is scrolled and the
      default action is kept). Previous from the first slide stays there, and
      so does next from the last. */
  function KeyTarget(key: string, idx: nat, n: nat): (r: Option<nat>)
    requires idx < n
    ensures r.None? <==> KeyMoveOf(key) == Ignore
    ensures r.Some? ==> r.value < n
    ensures KeyMoveOf(key) == Previous ==> r == Some(if idx == 0 then 0 else idx - 1)
    ensures KeyMoveOf(key) == Next ==> r == Some(if idx == n - 1 then n - 1 else idx + 1)
  {
    match KeyMoveOf(key)
    case Previous => Some(ScrollTarget(n, idx - 1))
    case Next => Some(ScrollTarget(n, idx + 1))
    case Ignore => None
  }

  /** A navigation key from any slide moves at most one slide, and stays put
      only at the end it is pushing against. */
  lemma KeyStepIsAdjacent(key: string, idx: nat, n: nat)
    requires idx < n && KeyMoveOf(key) != Ignore
    ensures var t := KeyTarget(key, idx, n).value;
      && (t == idx - 1 || t == idx || t == idx + 1)
      && (t == idx <==> (KeyMoveOf(key) == Previous && idx == 0) || (KeyMoveOf(key) == Next && idx == n - 1))
  {
  }
}
