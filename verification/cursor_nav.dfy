/** `initCursorNavigator` of public/main.js: on desktop pointers the top and
    bottom bands of the viewport turn the custom cursor into an "up" or
    "down" arrow, and a click there scrolls one slide that way. */
module CursorNav {
  import SlideIndex

  /** `dir`: "none", "up" or "down". */
  datatype Dir = NoDir | Up | Down

  /** The fraction of the viewport height that forms each band. */
  const Zone: real := 0.28

  const UpIcon: string := "./assets/up.svg"
  const DownIcon: string := "./assets/down.svg"

  /** The navigator's state: the direction, the cursor's `is-visible` class,
      the body's `cursor-nav-active` class, the arrow icon's source, and the
      point the cursor eases towards (`tx`, `ty`). */
  datatype Cursor = Cursor(dir: Dir, visible: bool, bodyActive: bool, icon: string, tx: real, ty: real)

  /** The page shows what `dir` says: both classes are set exactly while a
      direction is chosen, and the icon is that direction's arrow. */
  predicate Shown(c: Cursor)
  {
    && c.visible == (c.dir != NoDir)
    && c.bodyActive == (c.dir != NoDir)
    && (c.dir == Up ==> c.icon == UpIcon)
    && (c.dir == Down ==> c.icon == DownIcon)
  }

  /** `setDir(next)`: nothing happens when the direction is unchanged;
      otherwise the classes and the icon follow the new direction (the icon
      keeps its last arrow when the direction is cleared). */
  function SetDir(c: Cursor, next: Dir): (r: Cursor)
    ensures r.dir == next && r.tx == c.tx && r.ty == c.ty
    ensures c.dir == next ==> r == c
    ensures c.dir != next ==> Shown(r)
    ensures next == NoDir ==> r.icon == c.icon
  {
    if c.dir == next then c
    else match next
      case Up => c.(dir := Up, icon := UpIcon, visible := true, bodyActive := true)
      case Down => c.(dir := Down, icon := DownIcon, visible := true, bodyActive := true)
      case NoDir => c.(dir := NoDir, visible := false, bodyActive := false)
  }

  /** Setting a direction keeps the page in step with it. */
  lemma SetDirKeepsShown(c: Cursor, next: Dir)
    requires Shown(c)
    ensures Shown(SetDir(c, next))
  {
  }

  /** `updateDirByY(clientY)` from the nearest slide `idx` of `n` and the
      viewport height `h`: on the first slide only the bottom band counts
      (there is nothing above), on the last only the top band, and on the
      others the top band wins over the bottom one. */
  function DirByY(idx: nat, n: nat, y: real, h: real): (d: Dir)
    ensures idx == 0 ==> d != Up && (d == Down <==> y >= h * (1.0 - Zone))
    ensures idx != 0 && idx == n - 1 ==> d != Down && (d == Up <==> y <= h * Zone)
    ensures idx != 0 && idx != n - 1 ==> (d == Up <==> y <= h * Zone)
    ensures idx != 0 && idx != n - 1 ==> (d == Down <==> !(y <= h * Zone) && y >= h * (1.0 - Zone))
  {
    if idx == 0 then
      (if y >= h * (1.0 - Zone) then Down else NoDir)
    else if idx == n - 1 then
      (if y <= h * Zone then Up else NoDir)
    else if y <= h * Zone then Up
    else if y >= h * (1.0 - Zone) then Down
    else NoDir
  }

  /** The `mousemove` listener: the cursor target follows the pointer; over a
      link, button, stepper or logo the direction is cleared, elsewhere it
      follows the pointer's height. */
  function MouseMove(c: Cursor, overInteractive: bool, x: real, y: real, idx: nat, n: nat, h: real): (r: Cursor)
    ensures r.tx == x && r.ty == y
    ensures overInteractive ==> r.dir == NoDir
    ensures !overInteractive ==> r.dir == DirByY(idx, n, y, h)
    ensures Shown(c) ==> Shown(r)
  {
    var moved := c.(tx := x, ty := y);
    SetDir(moved, if overInteractive then NoDir else DirByY(idx, n, y, h))
  }

  /** What the capturing `pointerdown` listener does with a click. */
  datatype Click =
    | PassThrough              // the click goes on to the page
    | Navigate(target: nat)    // default prevented, scroll to `target`

  /** The `pointerdown` listener: clicks on interactive elements, or with no
      direction chosen, go through; otherwise the click is consumed and the
      deck scrolls one slide up or down from the nearest slide `idx`. */
  function PointerDown(c: Cursor, overInteractive: bool, idx: nat, n: nat): (r: Click)
    requires idx < n
    ensures r.PassThrough? <==> overInteractive || c.dir == NoDir
    ensures r.Navigate? ==> r.target < n
    ensures r.Navigate? && c.dir == Up ==> r.target == SlideIndex.ScrollTarget(n, idx - 1)
    ensures r.Navigate? && c.dir == Down ==> r.target == SlideIndex.ScrollTarget(n, idx + 1)
  {
    if overInteractive || c.dir == NoDir then PassThrough
    else if c.dir == Up then Navigate(SlideIndex.ScrollTarget(n, idx - 1))
    else Navigate(SlideIndex.ScrollTarget(n, idx + 1))
  }

  /** In a deck of several slides, pointing into a band and clicking without
      the pointer or the deck moving in between always goes to the
      neighbouring slide in the arrow's direction. */
  lemma ClickMovesOneSlide(c: Cursor, x: real, y: real, idx: nat, n: nat, h: real)
    requires 1 < n && idx < n
    ensures var m := MouseMove(c, false, x, y, idx, n, h);
      var click := PointerDown(m, false, idx, n);
      && (m.dir == Up ==> click == Navigate(idx - 1))
      && (m.dir == Down ==> click == Navigate(idx + 1))
      && (m.dir == NoDir ==> click == PassThrough)
  {
  }

  /** As written, a deck of one slide still shows the "down" arrow in the
      bottom band (the first-slide case is tested before the last-slide
      one), and clicking it leaves the deck on that slide. */
  lemma SingleSlideShowsDown(c: Cursor, x: real, y: real, h: real)
    requires y >= h * (1.0 - Zone)
    ensures var m := MouseMove(c, false, x, y, 0, 1, h);
      m.dir == Down && PointerDown(m, false, 0, 1) == Navigate(0)
  {
  }
}
