/**
  The window state machine of kernel/src/splat.rs: animation, closing, focus, dragging and depth, as
  driven by `render_desktop`, which handles the input and then advances every window by one tick.
 */
module Windows {
  import opened Bytes

  datatype Mode = Instantiated | Maximized | Dead

  datatype Geometry = Geometry(w: int, h: int, x: int, y: int)

  datatype WindowState =
    | Stable(mode: Mode)
    | Transitioning(progress: int, max: int, s: Geometry, t: Geometry, finalMode: Mode)

  datatype Window = Window(id: nat, g: Geometry, normal: Geometry, baseZ: int, targetZ: int, state: WindowState)

  datatype Launcher = Launcher(x: int, y: int, radius: int)

  const TICKS: int := 15

  // ---------------------------------------------------------------- arithmetic

  /** Division truncating toward zero. */
  function Quotient(a: int, b: int): int
    requires b > 0
  {
    if a >= 0 then a / b else -(-a / b)
  }

  /** a * b, by repeated addition: a product of two variables slows every proof that meets it. */
  function Times(a: int, b: int): int
    decreases if b < 0 then -b else b
  {
    if b == 0 then 0 else if b > 0 then Times(a, b - 1) + a else Times(a, b + 1) - a
  }

  lemma {:induction false} TimesIs(a: int, b: int)
    ensures Times(a, b) == a * b
    decreases if b < 0 then -b else b
  {
    if b == 0 {
    } else if b > 0 {
      TimesIs(a, b - 1);
      assert a * b == a * (b - 1) + a;
    } else {
      TimesIs(a, b + 1);
      assert a * b == a * (b + 1) - a;
    }
  }

  function Abs(a: int): nat {
    if a >= 0 then a else -a
  }

  predicate Between(a: int, v: int, b: int) {
    a <= v <= b || b <= v <= a
  }

  // ---------------------------------------------------------------- one window

  /** The integer ease-out factor, in percent; every transition has TICKS ticks. */
  function Factor(p: nat): int
    requires p <= TICKS
  {
    Quotient(Times(p, 2 * TICKS - p) * 100, TICKS * TICKS)
  }

  function Ease(s: int, t: int, factor: int): int {
    s + Quotient(Times(t - s, factor), 100)
  }

  function EaseAll(s: Geometry, t: Geometry, factor: int): Geometry {
    Geometry(Ease(s.w, t.w, factor), Ease(s.h, t.h, factor), Ease(s.x, t.x, factor), Ease(s.y, t.y, factor))
  }

  function NextDepth(base: int, target: int): int {
    var diff := target - base;
    if Abs(diff) < 5 then target else base + Quotient(diff, 4)
  }

  predicate StateOk(st: WindowState) {
    st.Transitioning? ==> st.max == TICKS && 0 <= st.progress < TICKS
  }

  function NextState(st: WindowState): WindowState {
    if st.Stable? then st
    else if st.progress + 1 >= st.max then Stable(st.finalMode)
    else st.(progress := st.progress + 1)
  }

  function NextGeometry(g: Geometry, st: WindowState): Geometry
    requires StateOk(st)
  {
    if st.Stable? then g
    else if st.progress + 1 >= st.max then st.t
    else EaseAll(st.s, st.t, Factor(st.progress + 1))
  }

  /** `update_physics` */
  function UpdatePhysics(w: Window): Window
    requires StateOk(w.state)
  {
    w.(baseZ := NextDepth(w.baseZ, w.targetZ), g := NextGeometry(w.g, w.state), state := NextState(w.state))
  }

  function StartTransition(w: Window, t: Geometry, finalMode: Mode): Window {
    w.(state := Transitioning(0, TICKS, w.g, t, finalMode))
  }

  function TriggerClose(w: Window, l: Launcher): Window {
    StartTransition(w, Geometry(40, 40, l.x, l.y), Dead)
  }

  function TriggerMaximize(w: Window, screenW: int, screenH: int): Window {
    var saved := if w.state == Stable(Instantiated) then w.(normal := w.g) else w;
    StartTransition(saved, Geometry(screenW, screenH, 0, 0), Maximized)
  }

  function TriggerRestore(w: Window): Window {
    StartTransition(w, w.normal, Instantiated)
  }

  function Spawn(id: nat, l: Launcher, targetW: nat, targetH: nat): Window {
    var target := Geometry(targetW, targetH, l.x - targetW / 2, l.y - targetH / 2);
    var origin := Geometry(40, 40, l.x, l.y);
    Window(id, origin, target, 0, 0, Transitioning(0, TICKS, origin, target, Instantiated))
  }

  lemma PercentBounds(d: nat, factor: int)
    requires 0 <= factor <= 100
    ensures 0 <= d * factor <= d * 100
  {
    assert d * factor + d * (100 - factor) == d * 100;
  }

  lemma QuotientBetween(d: int, factor: int)
    requires 0 <= factor <= 100
    ensures Between(0, Quotient(Times(d, factor), 100), d)
  {
    TimesIs(d, factor);
    PercentBounds(Abs(d), factor);
    assert d < 0 ==> (-d) * factor == -(d * factor);
  }

  lemma FactorInRange(p: nat)
    requires p <= TICKS
    ensures 0 <= Factor(p) <= 100
  {
    TimesIs(p, 2 * TICKS - p);
    assert p * (2 * TICKS - p) == 225 - (TICKS - p) * (TICKS - p);
  }

  predicate GeometryBetween(s: Geometry, g: Geometry, t: Geometry) {
    Between(s.w, g.w, t.w) && Between(s.h, g.h, t.h) && Between(s.x, g.x, t.x) && Between(s.y, g.y, t.y)
  }

  /** An animated window always lies between its start and its target, and ends exactly on it. */
  lemma AnimationStaysBetween(w: Window)
    requires StateOk(w.state) && w.state.Transitioning?
    ensures GeometryBetween(w.state.s, UpdatePhysics(w).g, w.state.t)
    ensures UpdatePhysics(w).state.Stable? <==> w.state.progress == TICKS - 1
    ensures UpdatePhysics(w).state.Stable? ==>
              UpdatePhysics(w).g == w.state.t && UpdatePhysics(w).state == Stable(w.state.finalMode)
  {
    var s, t, p := w.state.s, w.state.t, w.state.progress + 1;
    var f := Factor(p);
    FactorInRange(p);
    QuotientBetween(t.w - s.w, f);
    QuotientBetween(t.h - s.h, f);
    QuotientBetween(t.x - s.x, f);
    QuotientBetween(t.y - s.y, f);
  }

  function TickWindow(w: Window, n: nat): (r: Window)
    requires StateOk(w.state)
    ensures StateOk(r.state) && r.normal == w.normal && r.id == w.id
  {
    if n == 0 then w else UpdatePhysics(TickWindow(w, n - 1))
  }

  lemma {:induction false} TransitionEnds(w: Window, n: nat)
    requires StateOk(w.state) && w.state.Transitioning? && n <= TICKS - w.state.progress
    ensures var r := TickWindow(w, n);
            if n < TICKS - w.state.progress then r.state == w.state.(progress := w.state.progress + n)
            else r.state == Stable(w.state.finalMode) && r.g == w.state.t
  {
    if n == 0 {
    } else {
      TransitionEnds(w, n - 1);
    }
  }

  /** Maximizing a floating window and restoring it, each to its end, brings its geometry back. */
  lemma MaximizeThenRestore(w: Window, screenW: int, screenH: int)
    requires w.state == Stable(Instantiated)
    ensures var big := TickWindow(TriggerMaximize(w, screenW, screenH), TICKS);
            var back := TickWindow(TriggerRestore(big), TICKS);
            && big.state == Stable(Maximized) && big.g == Geometry(screenW, screenH, 0, 0)
            && back.state == Stable(Instantiated) && back.g == w.g
  {
    TransitionEnds(TriggerMaximize(w, screenW, screenH), TICKS);
    TransitionEnds(TriggerRestore(TickWindow(TriggerMaximize(w, screenW, screenH), TICKS)), TICKS);
  }

  /** Depth moves toward its target, never past it, and strictly closer until it is there. */
  lemma DepthApproaches(base: int, target: int)
    ensures Between(base, NextDepth(base, target), target)
    ensures base != target ==> Abs(target - NextDepth(base, target)) < Abs(target - base)
    ensures base == target ==> NextDepth(base, target) == target
  {
  }

  function DepthAfter(base: int, target: int, n: nat): int {
    if n == 0 then base else NextDepth(DepthAfter(base, target, n - 1), target)
  }

  /** With a fixed target the depth arrives within as many ticks as it is units away, and stays. */
  lemma {:induction false} DepthArrives(base: int, target: int, n: nat)
    ensures var left := Abs(target - base) - n;
            if left <= 0 then DepthAfter(base, target, n) == target
            else Abs(target - DepthAfter(base, target, n)) <= left
  {
    if n == 0 {
    } else {
      DepthArrives(base, target, n - 1);
      DepthApproaches(DepthAfter(base, target, n - 1), target);
    }
  }

  /** Each tick covers a quarter of the way, rounded down, and the rest once it is below 5. */
  lemma DepthStep(base: int, target: int)
    ensures var diff, step := target - base, NextDepth(base, target) - base;
            if -5 < diff < 5 then step == diff
            else if diff > 0 then 4 * step <= diff < 4 * step + 4
            else 4 * -step <= -diff < 4 * -step + 4
  {
  }

  lemma EarlyFactors(k: nat)
    requires k < 8
    ensures Factor(k) == [0, 12, 24, 36, 46, 55, 64, 71][k]
  {
    match k
    case 0 => FactorIs(0, 0);
    case 1 => FactorIs(1, 29);
    case 2 => FactorIs(2, 56);
    case 3 => FactorIs(3, 81);
    case 4 => FactorIs(4, 104);
    case 5 => FactorIs(5, 125);
    case 6 => FactorIs(6, 144);
    case 7 => FactorIs(7, 161);
  }

  lemma LateFactors(k: nat)
    requires 8 <= k <= 15
    ensures Factor(k) == [78, 84, 88, 92, 96, 98, 99, 100][k - 8]
  {
    match k
    case 8 => FactorIs(8, 176);
    case 9 => FactorIs(9, 189);
    case 10 => FactorIs(10, 200);
    case 11 => FactorIs(11, 209);
    case 12 => FactorIs(12, 216);
    case 13 => FactorIs(13, 221);
    case 14 => FactorIs(14, 224);
    case 15 => FactorIs(15, 225);
  }

  /** How far along an animation is after its k-th tick, in percent: fast first, slower toward the end. */
  lemma EaseFactors(k: nat)
    requires k <= 15
    ensures k < 8 ==> Factor(k) == [0, 12, 24, 36, 46, 55, 64, 71][k]
    ensures k >= 8 ==> Factor(k) == [78, 84, 88, 92, 96, 98, 99, 100][k - 8]
  {
    if k < 8 {
      EarlyFactors(k);
    } else {
      LateFactors(k);
    }
  }

  lemma FactorIs(k: nat, p: nat)
    requires k <= 15 && p == k * (30 - k)
    ensures Factor(k) == p * 100 / 225
  {
    TimesIs(k, 30 - k);
  }

  /** A coordinate has covered that percentage of its way, rounded toward its start. */
  lemma EasedPlace(s: int, t: int, f: int)
    requires 0 <= f <= 100
    ensures var v := Ease(s, t, f);
            if s <= t then 100 * (v - s) <= (t - s) * f < 100 * (v - s) + 100
            else 100 * (s - v) <= (s - t) * f < 100 * (s - v) + 100
  {
    TimesIs(t - s, f);
    assert (s - t) * f == -((t - s) * f);
    PercentBounds(Abs(t - s), f);
  }

  /** Every tick but the last puts all four coordinates there. */
  lemma AnimationTick(w: Window)
    requires StateOk(w.state) && w.state.Transitioning? && w.state.progress < 14
    ensures var s, t, f := w.state.s, w.state.t, Factor(w.state.progress + 1);
            UpdatePhysics(w).g == Geometry(Ease(s.w, t.w, f), Ease(s.h, t.h, f), Ease(s.x, t.x, f), Ease(s.y, t.y, f))
  {
  }

  // ---------------------------------------------------------------- the desktop

  datatype Input = Input(cx: int, cy: int, clicked: bool, screenW: int, screenH: int)

  datatype Desktop = Desktop(
    windows: seq<Window>, launchers: seq<Launcher>, counter: nat, dragging: bool, offX: int, offY: int)

  datatype Action = Close | Restore | Maximize | Drag | Focus | Miss

  /** The distance of a and b is below r. */
  predicate Within(a: int, b: int, r: int) {
    -r < a - b < r
  }

  predicate Near(a: int, b: int) {
    Within(a, b, 15)
  }

  /** What a click at the cursor means for one window. */
  function ClickAction(w: Window, c: Input): Action {
    var g := w.g;
    if w.state.Stable? && Near(c.cx, g.x + g.w - 25) && Near(c.cy, g.y + 15) then Close
    else if w.state.Stable? && Near(c.cx, g.x + g.w - 55) && Near(c.cy, g.y + 15) then Restore
    else if w.state.Stable? && Near(c.cx, g.x + g.w - 85) && Near(c.cy, g.y + 15) then Maximize
    else if w.state.Stable? && g.x <= c.cx <= g.x + g.w && g.y <= c.cy <= g.y + 40 then Drag
    else if g.x <= c.cx <= g.x + g.w && g.y <= c.cy <= g.y + g.h then Focus
    else Miss
  }

  /**
    Where a resting window's buttons lie, from the right end of its title bar, then the bar itself and
    the body; an animated window has no buttons.
   */
  lemma ClickMeaning(w: Window, c: Input)
    ensures var x, y, right := c.cx - w.g.x, c.cy - w.g.y, c.cx - (w.g.x + w.g.w);
            var button := w.state.Stable? && 0 < y < 30;
            var over := 0 <= x <= w.g.w;
            && (ClickAction(w, c) == Close <==> button && -40 < right < -10)
            && (ClickAction(w, c) == Restore <==> button && -70 < right < -40)
            && (ClickAction(w, c) == Maximize <==> button && -100 < right < -70)
            && (ClickAction(w, c) in {Close, Restore, Maximize, Drag} <==>
                  || (button && -100 < right < -10 && right != -40 && right != -70)
                  || (w.state.Stable? && over && 0 <= y <= 40))
            && (ClickAction(w, c) != Miss <==>
                  || ClickAction(w, c) in {Close, Restore, Maximize, Drag}
                  || (over && 0 <= y <= w.g.h))
  {
  }

  /** What the buttons start: 15 ticks from where the window is, to its launcher, its old place or the screen. */
  lemma ButtonsAct(w: Window, c: Input, home: Launcher)
    ensures var v, act := Clicked(w, c, home), ClickAction(w, c);
            && v.id == w.id && v.g == w.g
            && (act == Close ==> v.state == Transitioning(0, 15, w.g, Geometry(40, 40, home.x, home.y), Dead))
            && (act == Restore ==> v.state == Transitioning(0, 15, w.g, w.normal, Instantiated))
            && (act == Maximize ==> v.state == Transitioning(0, 15, w.g, Geometry(c.screenW, c.screenH, 0, 0), Maximized))
            && (act == Maximize && w.state.mode == Instantiated ==> v.normal == w.g)
            && (!(act == Maximize && w.state == Stable(Instantiated)) ==> v.normal == w.normal)
            && (act in {Drag, Focus, Miss} ==> v == w)
  {
  }

  /** The topmost window the click reaches among the first n, or -1. */
  function TopHit(ws: seq<Window>, c: Input, n: nat): (i: int)
    requires n <= |ws|
    ensures -1 <= i < n
  {
    if n == 0 then -1
    else if ClickAction(ws[n - 1], c) != Miss then n - 1
    else TopHit(ws, c, n - 1)
  }

  lemma {:induction false} TopHitIs(ws: seq<Window>, c: Input, n: nat)
    requires n <= |ws|
    ensures var i := TopHit(ws, c, n);
            && (i >= 0 ==> ClickAction(ws[i], c) != Miss)
            && (forall j :: i < j < n ==> ClickAction(ws[j], c) == Miss)
  {
    if n == 0 {
    } else {
      TopHitIs(ws, c, n - 1);
    }
  }

  function Clicked(w: Window, c: Input, home: Launcher): Window {
    match ClickAction(w, c)
    case Close => TriggerClose(w, home)
    case Restore => TriggerRestore(w)
    case Maximize => TriggerMaximize(w, c.screenW, c.screenH)
    case _ => w
  }

  /** The clicked window, changed as its action says, moves to the top. */
  function Focused(ws: seq<Window>, i: nat, w: Window): seq<Window>
    requires i < |ws|
  {
    ws[..i] + ws[i + 1..] + [w]
  }

  /** The first launcher under the cursor, or the number of launchers. */
  function LauncherHit(ls: seq<Launcher>, c: Input): (i: nat)
    ensures i <= |ls|
  {
    if ls == [] || (Within(c.cx, ls[0].x, ls[0].radius) && Within(c.cy, ls[0].y, ls[0].radius)) then 0
    else 1 + LauncherHit(ls[1..], c)
  }

  /** A click on window i: its button acts, a title bar starts a drag, and the window comes to the top. */
  function ClickWindow(d: Desktop, c: Input, i: nat): Desktop
    requires d.launchers != [] && i < |d.windows|
  {
    var w := d.windows[i];
    var d' := d.(windows := Focused(d.windows, i, Clicked(w, c, d.launchers[0])));
    if ClickAction(w, c) == Drag
    then d'.(dragging := true, offX := c.cx - w.g.x, offY := c.cy - w.g.y)
    else d'
  }

  function HandleClick(d: Desktop, c: Input): Desktop
    requires d.launchers != []
  {
    var i := TopHit(d.windows, c, |d.windows|);
    if i >= 0 then ClickWindow(d, c, i)
    else if d.dragging || LauncherHit(d.launchers, c) == |d.launchers| then d
    else
      var l := d.launchers[LauncherHit(d.launchers, c)];
      d.(windows := d.windows + [Spawn(d.counter, l, 800, 600)], counter := d.counter + 1)
  }

  function SetDepths(ws: seq<Window>): seq<Window> {
    seq(|ws|, i requires 0 <= i < |ws| => ws[i].(targetZ := if i == |ws| - 1 then 0 else 300))
  }

  function DragTop(d: Desktop, c: Input): seq<Window> {
    var n := |d.windows|;
    if d.dragging && n > 0 then
      var w := d.windows[n - 1];
      d.windows[n - 1 := w.(g := w.g.(x := c.cx - d.offX, y := c.cy - d.offY))]
    else d.windows
  }

  predicate StatesOk(ws: seq<Window>) {
    forall i :: 0 <= i < |ws| ==> StateOk(ws[i].state)
  }

  /** `tick_physics`: advance every window, then drop the dead ones. */
  function Tick(ws: seq<Window>): seq<Window>
    requires StatesOk(ws)
  {
    if ws == [] then []
    else
      var w := UpdatePhysics(ws[|ws| - 1]);
      var init := Tick(ws[..|ws| - 1]);
      if w.state == Stable(Dead) then init else init + [w]
  }

  /** The input phase of `render_desktop`. */
  function Prepare(d: Desktop, c: Input): Desktop
    requires d.launchers != []
  {
    var d1 := if c.clicked then HandleClick(d, c) else d.(dragging := false);
    var d2 := d1.(windows := SetDepths(d1.windows));
    d2.(windows := DragTop(d2, c))
  }

  lemma FocusedAt(ws: seq<Window>, i: nat, w: Window)
    requires i < |ws|
    ensures var fs := Focused(ws, i, w);
            && |fs| == |ws| && fs[|ws| - 1] == w
            && (forall k :: 0 <= k < i ==> fs[k] == ws[k])
            && (forall k :: i <= k < |ws| - 1 ==> fs[k] == ws[k + 1])
  {
  }

  lemma FocusedStatesOk(ws: seq<Window>, i: nat, w: Window)
    requires i < |ws| && StatesOk(ws) && StateOk(w.state)
    ensures StatesOk(Focused(ws, i, w))
  {
    FocusedAt(ws, i, w);
  }

  lemma HandleClickStatesOk(d: Desktop, c: Input)
    requires d.launchers != [] && StatesOk(d.windows)
    ensures StatesOk(HandleClick(d, c).windows)
  {
    var i := TopHit(d.windows, c, |d.windows|);
    if i >= 0 {
      FocusedStatesOk(d.windows, i, Clicked(d.windows[i], c, d.launchers[0]));
    }
  }

  lemma PrepareStates(d: Desktop, c: Input)
    requires d.launchers != [] && StatesOk(d.windows)
    ensures StatesOk(Prepare(d, c).windows)
  {
    HandleClickStatesOk(d, c);
  }

  function Render(d: Desktop, c: Input): Desktop
    requires d.launchers != [] && StatesOk(d.windows)
  {
    PrepareStates(d, c);
    var p := Prepare(d, c);
    p.(windows := Tick(p.windows))
  }

  // ---------------------------------------------------------------- the invariant

  predicate DistinctIds(ws: seq<Window>) {
    forall i, j :: 0 <= i < j < |ws| ==> ws[i].id != ws[j].id
  }

  /** Ids are distinct and below the counter, states are sound, and no dead window is listed. */
  predicate Sound(d: Desktop) {
    d.launchers != [] && ListOk(d.windows, d.counter)
  }

  /** Every animated window lies between the start and the target of its animation. */
  predicate Animated(ws: seq<Window>) {
    forall i :: 0 <= i < |ws| && ws[i].state.Transitioning? ==> GeometryBetween(ws[i].state.s, ws[i].g, ws[i].state.t)
  }

  /** What every frame leaves behind; within a frame, a drag may take an animated window elsewhere. */
  predicate Inv(d: Desktop) {
    Sound(d) && Animated(d.windows)
  }

  /** The state of the window called `id`, if it is on the desktop. */
  function StateOf(ws: seq<Window>, id: nat): Option<WindowState> {
    if ws == [] then None
    else if ws[|ws| - 1].id == id then Some(ws[|ws| - 1].state)
    else StateOf(ws[..|ws| - 1], id)
  }

  lemma {:induction false} StateOfAt(ws: seq<Window>, i: nat)
    requires i < |ws| && DistinctIds(ws)
    ensures StateOf(ws, ws[i].id) == Some(ws[i].state)
  {
    if i < |ws| - 1 {
      StateOfAt(ws[..|ws| - 1], i);
    }
  }

  lemma {:induction false} StateOfAbsent(ws: seq<Window>, id: nat)
    ensures StateOf(ws, id).None? <==> forall i :: 0 <= i < |ws| ==> ws[i].id != id
  {
    if ws == [] {
    } else {
      StateOfAbsent(ws[..|ws| - 1], id);
    }
  }

  /** Lists that agree on ids and states, position by position, agree on StateOf. */
  lemma {:induction false} StateOfSame(xs: seq<Window>, ys: seq<Window>, id: nat)
    requires |xs| == |ys|
    requires forall i :: 0 <= i < |xs| ==> xs[i].id == ys[i].id && xs[i].state == ys[i].state
    ensures StateOf(xs, id) == StateOf(ys, id)
  {
    if xs == [] {
    } else {
      StateOfSame(xs[..|xs| - 1], ys[..|ys| - 1], id);
    }
  }

  lemma FocusedDistinct(ws: seq<Window>, i: nat, w: Window)
    requires i < |ws| && DistinctIds(ws) && w.id == ws[i].id
    ensures DistinctIds(Focused(ws, i, w))
  {
    FocusedAt(ws, i, w);
  }

  /** Focusing changes the order and the clicked window, nothing else. */
  lemma FocusedState(ws: seq<Window>, i: nat, w: Window, id: nat)
    requires i < |ws| && DistinctIds(ws) && w.id == ws[i].id
    ensures DistinctIds(Focused(ws, i, w))
    ensures StateOf(Focused(ws, i, w), id) == if id == w.id then Some(w.state) else StateOf(ws, id)
  {
    var fs := Focused(ws, i, w);
    FocusedAt(ws, i, w);
    FocusedDistinct(ws, i, w);
    if id == w.id {
      StateOfAt(fs, |ws| - 1);
    } else if j :| 0 <= j < |ws| && ws[j].id == id {
      StateOfAt(ws, j);
      StateOfAt(fs, if j < i then j else j - 1);
    } else {
      StateOfAbsent(ws, id);
      StateOfAbsent(fs, id);
    }
  }

  lemma ClickedWindow(w: Window, c: Input, home: Launcher)
    requires StateOk(w.state) && w.state != Stable(Dead)
    ensures var w' := Clicked(w, c, home);
            w'.id == w.id && StateOk(w'.state) && w'.state != Stable(Dead)
            && (w.state.Transitioning? ==> w' == w)
            && Nudged(Some(w.state), Some(w'.state))
  {
  }

  /** What an input may do to a window's state before the tick. */
  predicate Nudged(before: Option<WindowState>, after: Option<WindowState>) {
    || before == after
    || (before.Some? && before.value.Stable? && after.Some? && after.value.Transitioning?
        && after.value.progress == 0 && after.value.max == TICKS)
  }

  /** A list of windows fit to be on the desktop. */
  predicate ListOk(ws: seq<Window>, counter: nat) {
    && StatesOk(ws) && DistinctIds(ws)
    && forall i :: 0 <= i < |ws| ==> ws[i].id < counter && ws[i].state != Stable(Dead)
  }

  lemma FocusedOk(ws: seq<Window>, counter: nat, i: nat, w: Window, id: nat)
    requires ListOk(ws, counter) && i < |ws|
    requires w.id == ws[i].id && StateOk(w.state) && w.state != Stable(Dead)
    requires Nudged(Some(ws[i].state), Some(w.state))
    ensures ListOk(Focused(ws, i, w), counter)
    ensures Nudged(StateOf(ws, id), StateOf(Focused(ws, i, w), id))
  {
    FocusedState(ws, i, w, id);
    FocusedStatesOk(ws, i, w);
    StateOfAt(ws, i);
    FocusedAt(ws, i, w);
  }

  lemma SpawnOk(ws: seq<Window>, counter: nat, w: Window, id: nat)
    requires ListOk(ws, counter) && w.id == counter && StateOk(w.state) && w.state.Transitioning?
    ensures ListOk(ws + [w], counter + 1)
    ensures id < counter ==> StateOf(ws + [w], id) == StateOf(ws, id)
  {
    assert (ws + [w])[..|ws|] == ws;
  }

  lemma FocusClickState(d: Desktop, c: Input, i: nat, id: nat)
    requires Sound(d) && i < |d.windows|
    ensures Sound(ClickWindow(d, c, i)) && ClickWindow(d, c, i).counter == d.counter
    ensures ClickWindow(d, c, i).launchers == d.launchers
    ensures Nudged(StateOf(d.windows, id), StateOf(ClickWindow(d, c, i).windows, id))
  {
    ClickedWindow(d.windows[i], c, d.launchers[0]);
    FocusedOk(d.windows, d.counter, i, Clicked(d.windows[i], c, d.launchers[0]), id);
  }

  lemma LaunchClickState(d: Desktop, l: Launcher, id: nat)
    requires Sound(d)
    ensures var ws := d.windows + [Spawn(d.counter, l, 800, 600)];
            ListOk(ws, d.counter + 1) && (id < d.counter ==> StateOf(ws, id) == StateOf(d.windows, id))
  {
    SpawnOk(d.windows, d.counter, Spawn(d.counter, l, 800, 600), id);
  }

  lemma HandleClickState(d: Desktop, c: Input, id: nat)
    requires Sound(d)
    ensures Sound(HandleClick(d, c)) && HandleClick(d, c).launchers == d.launchers
    ensures d.counter <= HandleClick(d, c).counter
    ensures id < d.counter ==> Nudged(StateOf(d.windows, id), StateOf(HandleClick(d, c).windows, id))
  {
    var i := TopHit(d.windows, c, |d.windows|);
    if i >= 0 {
      FocusClickState(d, c, i, id);
    } else if !d.dragging && LauncherHit(d.launchers, c) < |d.launchers| {
      LaunchClickState(d, d.launchers[LauncherHit(d.launchers, c)], id);
    }
  }

  lemma PrepareState(d: Desktop, c: Input, id: nat)
    requires Sound(d)
    ensures Sound(Prepare(d, c)) && Prepare(d, c).launchers == d.launchers
    ensures d.counter <= Prepare(d, c).counter
    ensures id < d.counter ==> Nudged(StateOf(d.windows, id), StateOf(Prepare(d, c).windows, id))
  {
    HandleClickState(d, c, id);
    PolishState(if c.clicked then HandleClick(d, c) else d.(dragging := false), c, id);
  }

  /** Depth targets and dragging leave ids and states alone. */
  lemma PolishState(d: Desktop, c: Input, id: nat)
    requires ListOk(d.windows, d.counter)
    ensures var ws := DragTop(d.(windows := SetDepths(d.windows)), c);
            ListOk(ws, d.counter) && StateOf(ws, id) == StateOf(d.windows, id)
  {
    var ws := DragTop(d.(windows := SetDepths(d.windows)), c);
    assert |ws| == |d.windows|;
    assert forall i :: 0 <= i < |ws| ==> ws[i].id == d.windows[i].id && ws[i].state == d.windows[i].state;
    StateOfSame(ws, d.windows, id);
  }

  lemma {:induction false} TickState(ws: seq<Window>, id: nat)
    requires StatesOk(ws) && DistinctIds(ws)
    ensures StateOf(Tick(ws), id)
         == (var st := StateOf(ws, id);
             if st.None? || NextState(st.value) == Stable(Dead) then None else Some(NextState(st.value)))
    decreases |ws|
  {
    if ws == [] {
    } else {
      var init, w := ws[..|ws| - 1], ws[|ws| - 1];
      TickState(init, id);
      if w.id == id {
        StateOfAbsent(init, id);
      }
      var w' := UpdatePhysics(w);
      if w'.state != Stable(Dead) {
        assert (Tick(init) + [w'])[..|Tick(init)|] == Tick(init);
      }
    }
  }

  /** An id that is not listed is not listed after a tick. */
  lemma TickInventsNoId(ws: seq<Window>, id: nat)
    requires StatesOk(ws) && DistinctIds(ws) && forall i :: 0 <= i < |ws| ==> ws[i].id != id
    ensures forall i :: 0 <= i < |Tick(ws)| ==> Tick(ws)[i].id != id
  {
    StateOfAbsent(ws, id);
    TickState(ws, id);
    StateOfAbsent(Tick(ws), id);
  }

  /** A tick keeps ids distinct and leaves no dead window. */
  lemma {:induction false} TickKeeps(ws: seq<Window>, counter: nat)
    requires StatesOk(ws) && DistinctIds(ws)
    requires forall i :: 0 <= i < |ws| ==> ws[i].id < counter
    ensures ListOk(Tick(ws), counter)
    decreases |ws|
  {
    if ws == [] {
    } else {
      var init, w := ws[..|ws| - 1], ws[|ws| - 1];
      TickKeeps(init, counter);
      TickInventsNoId(init, w.id);
    }
  }

  /** However an input has moved the windows, the tick puts every animated one on its way. */
  lemma {:induction false} TickAnimates(ws: seq<Window>)
    requires StatesOk(ws)
    ensures Animated(Tick(ws))
    decreases |ws|
  {
    if ws == [] {
    } else {
      TickAnimates(ws[..|ws| - 1]);
      var w := ws[|ws| - 1];
      if w.state.Transitioning? {
        AnimationStaysBetween(w);
      }
    }
  }

  lemma RenderInv(d: Desktop, c: Input)
    requires Inv(d)
    ensures Inv(Render(d, c)) && d.counter <= Render(d, c).counter
  {
    PrepareState(d, c, 0);
    TickKeeps(Prepare(d, c).windows, Prepare(d, c).counter);
    TickAnimates(Prepare(d, c).windows);
  }

  /** One frame, any input: a window disappears exactly when it is closing and in its last tick. */
  lemma OnlyFinishedClosingRemoved(d: Desktop, c: Input, id: nat)
    requires Inv(d) && StateOf(d.windows, id).Some?
    ensures var st := StateOf(d.windows, id).value;
            StateOf(Render(d, c).windows, id).None?
            <==> st.Transitioning? && st.finalMode == Dead && st.progress == TICKS - 1
  {
    IdBelowCounter(d, id);
    PrepareState(d, c, id);
    TickState(Prepare(d, c).windows, id);
    StateOfOk(d, id);
  }

  lemma IdBelowCounter(d: Desktop, id: nat)
    requires Inv(d) && StateOf(d.windows, id).Some?
    ensures id < d.counter
  {
    StateOfAbsent(d.windows, id);
  }

  lemma StateOfOk(d: Desktop, id: nat)
    requires Inv(d) && StateOf(d.windows, id).Some?
    ensures StateOk(StateOf(d.windows, id).value) && StateOf(d.windows, id).value != Stable(Dead)
  {
    StateOfAbsent(d.windows, id);
    var i :| 0 <= i < |d.windows| && d.windows[i].id == id;
    StateOfAt(d.windows, i);
  }

  // ---------------------------------------------------------------- whole runs

  function RenderAll(d: Desktop, cs: seq<Input>): (r: Desktop)
    requires Inv(d)
    ensures Inv(r) && d.counter <= r.counter
  {
    if cs == [] then d
    else
      var e := RenderAll(d, cs[..|cs| - 1]);
      RenderInv(e, cs[|cs| - 1]);
      Render(e, cs[|cs| - 1])
  }

  /** One tick for a window that is closing or gone, in a list where an input may have touched others. */
  lemma TickClosing(ws: seq<Window>, before: Option<WindowState>, id: nat)
    requires StatesOk(ws) && DistinctIds(ws) && Nudged(before, StateOf(ws, id))
    requires before.Some? ==> StateOk(before.value)
    ensures before.None? ==> StateOf(Tick(ws), id).None?
    ensures before.Some? && before.value.Transitioning? && before.value.finalMode == Dead ==>
              StateOf(Tick(ws), id) ==
              if before.value.progress == TICKS - 1 then None
              else Some(before.value.(progress := before.value.progress + 1))
  {
    TickState(ws, id);
  }

  /** One frame for a closing window, and for an id that is gone. */
  lemma ClosingStep(d: Desktop, c: Input, id: nat)
    requires Inv(d) && id < d.counter
    ensures var st := StateOf(d.windows, id);
            && (st.None? ==> StateOf(Render(d, c).windows, id).None?)
            && (st.Some? && st.value.Transitioning? && st.value.finalMode == Dead ==>
                  StateOf(Render(d, c).windows, id) ==
                  if st.value.progress == TICKS - 1 then None
                  else Some(st.value.(progress := st.value.progress + 1)))
  {
    PrepareState(d, c, id);
    RenderIs(d, c);
    if StateOf(d.windows, id).Some? {
      StateOfOk(d, id);
    }
    TickClosing(Prepare(d, c).windows, StateOf(d.windows, id), id);
  }

  predicate Closing(st: Option<WindowState>) {
    st.Some? && st.value.Transitioning? && st.value.finalMode == Dead
  }

  /** What is left of a closing window's state after n more frames. */
  function Countdown(st: WindowState, n: nat): Option<WindowState>
    requires st.Transitioning?
  {
    if n < TICKS - st.progress then Some(st.(progress := st.progress + n)) else None
  }

  lemma CountdownStep(e: Desktop, c: Input, id: nat, st: WindowState, n: nat)
    requires Inv(e) && id < e.counter && Closing(Some(st)) && StateOf(e.windows, id) == Countdown(st, n)
    ensures StateOf(Render(e, c).windows, id) == Countdown(st, n + 1)
  {
    ClosingStep(e, c, id);
  }

  /**
    Whatever the input, a closing window is there for exactly the ticks it has left, advancing by one
    each frame, and is gone for good after them.
   */
  lemma {:induction false} ClosingCountdown(d: Desktop, cs: seq<Input>, id: nat)
    requires Inv(d) && Closing(StateOf(d.windows, id))
    ensures StateOf(RenderAll(d, cs).windows, id) == Countdown(StateOf(d.windows, id).value, |cs|)
  {
    IdBelowCounter(d, id);
    if cs == [] {
      StateOfOk(d, id);
    } else {
      var init := cs[..|cs| - 1];
      ClosingCountdown(d, init, id);
      CountdownStep(RenderAll(d, init), cs[|cs| - 1], id, StateOf(d.windows, id).value, |init|);
    }
  }

  // ---------------------------------------------------------------- launching

  /** A click that reaches no window, outside a drag, opens one at the first launcher around the cursor. */
  lemma LaunchOpens(d: Desktop, c: Input, k: nat)
    requires d.launchers != [] && k < |d.launchers| && !d.dragging && TopHit(d.windows, c, |d.windows|) < 0
    requires forall j :: 0 <= j < k ==> !UnderLauncher(d.launchers[j], c)
    requires UnderLauncher(d.launchers[k], c)
    ensures var l := d.launchers[k];
            var from, to := Geometry(40, 40, l.x, l.y), Geometry(800, 600, l.x - 400, l.y - 300);
            HandleClick(d, c) ==
            d.(windows := d.windows + [Window(d.counter, from, to, 0, 0, Transitioning(0, 15, from, to, Instantiated))],
               counter := d.counter + 1)
  {
    LauncherHitIs(d.launchers, c, k);
  }

  predicate UnderLauncher(l: Launcher, c: Input) {
    -l.radius < c.cx - l.x < l.radius && -l.radius < c.cy - l.y < l.radius
  }

  lemma {:induction false} LauncherHitIs(ls: seq<Launcher>, c: Input, k: nat)
    requires k <= |ls| && (forall j :: 0 <= j < k ==> !UnderLauncher(ls[j], c))
    requires k < |ls| ==> UnderLauncher(ls[k], c)
    ensures LauncherHit(ls, c) == k
  {
    if k == 0 {
    } else {
      LauncherHitIs(ls[1..], c, k - 1);
    }
  }

  /** No launcher under the cursor, or a drag in progress: such a click changes nothing. */
  lemma NoLaunch(d: Desktop, c: Input)
    requires d.launchers != [] && TopHit(d.windows, c, |d.windows|) < 0
    requires d.dragging || forall j :: 0 <= j < |d.launchers| ==> !UnderLauncher(d.launchers[j], c)
    ensures HandleClick(d, c) == d
  {
    if !d.dragging {
      LauncherHitIs(d.launchers, c, |d.launchers|);
    }
  }

  /** After 15 ticks the new window rests, 800 by 600, around its launcher. */
  lemma LaunchSettles(id: nat, l: Launcher)
    ensures var w := TickWindow(Spawn(id, l, 800, 600), 15);
            w.state == Stable(Instantiated) && w.g == Geometry(800, 600, l.x - 400, l.y - 300)
  {
    TransitionEnds(Spawn(id, l, 800, 600), 15);
  }

  // ---------------------------------------------------------------- depth

  /** The window called `id`, if it is listed, has depth `z`. */
  predicate DepthIs(ws: seq<Window>, id: nat, z: int) {
    forall i :: 0 <= i < |ws| && ws[i].id == id ==> ws[i].baseZ == z
  }

  predicate TargetIs(ws: seq<Window>, id: nat, t: int) {
    forall i :: 0 <= i < |ws| && ws[i].id == id ==> ws[i].targetZ == t
  }

  predicate OnTop(ws: seq<Window>, id: nat) {
    ws != [] && ws[|ws| - 1].id == id
  }

  /** The window called `id` is on top when the frame sets the depth targets. */
  predicate InFront(d: Desktop, c: Input, id: nat)
    requires d.launchers != []
  {
    OnTop(Prepare(d, c).windows, id)
  }

  /** Front or back, in depth. */
  function Aim(front: bool): int {
    if front then 0 else 300
  }

  /** The depth of the window called `id` is `z`, and its target follows from whether it is on top. */
  predicate Aimed(ws: seq<Window>, id: nat, z: int) {
    DepthIs(ws, id, z) && TargetIs(ws, id, Aim(OnTop(ws, id)))
  }

  lemma ClickedKeepsDepth(w: Window, c: Input, home: Launcher)
    ensures Clicked(w, c, home).id == w.id && Clicked(w, c, home).baseZ == w.baseZ
  {
  }

  lemma FocusKeepsDepth(ws: seq<Window>, i: nat, w: Window, id: nat, z: int)
    requires i < |ws| && w.id == ws[i].id && w.baseZ == ws[i].baseZ && DepthIs(ws, id, z)
    ensures DepthIs(Focused(ws, i, w), id, z)
  {
    FocusedAt(ws, i, w);
  }

  lemma LaunchKeepsDepth(ws: seq<Window>, w: Window, id: nat, z: int)
    requires w.id != id && DepthIs(ws, id, z)
    ensures DepthIs(ws + [w], id, z)
  {
  }

  lemma ClickKeepsDepth(d: Desktop, c: Input, id: nat, z: int)
    requires d.launchers != [] && id < d.counter && DepthIs(d.windows, id, z)
    ensures DepthIs(HandleClick(d, c).windows, id, z)
  {
    var i := TopHit(d.windows, c, |d.windows|);
    if i >= 0 {
      ClickedKeepsDepth(d.windows[i], c, d.launchers[0]);
      FocusKeepsDepth(d.windows, i, Clicked(d.windows[i], c, d.launchers[0]), id, z);
    } else if !d.dragging && LauncherHit(d.launchers, c) < |d.launchers| {
      LaunchKeepsDepth(d.windows, Spawn(d.counter, d.launchers[LauncherHit(d.launchers, c)], 800, 600), id, z);
    }
  }

  /** Dragging and the depth targets leave the depths alone; only the top window aims at the front. */
  lemma PolishDepth(d: Desktop, c: Input, id: nat, z: int)
    requires DistinctIds(d.windows) && DepthIs(d.windows, id, z)
    ensures Aimed(DragTop(d.(windows := SetDepths(d.windows)), c), id, z)
  {
    var ws := DragTop(d.(windows := SetDepths(d.windows)), c);
    assert |ws| == |d.windows|;
    assert forall i :: 0 <= i < |ws| ==>
      && ws[i].id == d.windows[i].id && ws[i].baseZ == d.windows[i].baseZ
      && ws[i].targetZ == if i == |ws| - 1 then 0 else 300;
  }

  lemma PrepareDepth(d: Desktop, c: Input, id: nat, z: int)
    requires Sound(d) && id < d.counter && DepthIs(d.windows, id, z)
    ensures Aimed(Prepare(d, c).windows, id, z)
  {
    var e := if c.clicked then HandleClick(d, c) else d.(dragging := false);
    assert DepthIs(e.windows, id, z) by {
      ClickKeepsDepth(d, c, id, z);
    }
    assert DistinctIds(e.windows) by {
      HandleClickState(d, c, id);
    }
    PolishDepth(e, c, id, z);
  }

  lemma {:induction false} TickDepth(ws: seq<Window>, id: nat, z: int, t: int)
    requires StatesOk(ws) && DepthIs(ws, id, z) && TargetIs(ws, id, t)
    ensures DepthIs(Tick(ws), id, NextDepth(z, t))
    decreases |ws|
  {
    if ws == [] {
    } else {
      TickDepth(ws[..|ws| - 1], id, z, t);
    }
  }

  /** One frame moves every window's depth one step toward the front or the back. */
  lemma DepthFrame(d: Desktop, c: Input, id: nat, z: int)
    requires Inv(d) && id < d.counter && DepthIs(d.windows, id, z)
    ensures DepthIs(Render(d, c).windows, id, NextDepth(z, if InFront(d, c, id) then 0 else 300))
  {
    PrepareDepth(d, c, id, z);
    RenderIs(d, c);
    TickDepth(Prepare(d, c).windows, id, z, Aim(InFront(d, c, id)));
  }

  /** In every frame of the run the window called `id` is in front, or in none. */
  predicate StaysInFront(d: Desktop, cs: seq<Input>, id: nat, front: bool)
    requires Inv(d)
  {
    cs == [] ||
    var init := cs[..|cs| - 1];
    StaysInFront(d, init, id, front) && InFront(RenderAll(d, init), cs[|cs| - 1], id) == front
  }

  lemma {:induction false} DepthRun(d: Desktop, cs: seq<Input>, id: nat, z: int, front: bool)
    requires Inv(d) && id < d.counter && DepthIs(d.windows, id, z) && StaysInFront(d, cs, id, front)
    ensures DepthIs(RenderAll(d, cs).windows, id, DepthAfter(z, Aim(front), |cs|))
  {
    if cs == [] {
    } else {
      var init := cs[..|cs| - 1];
      DepthRun(d, init, id, z, front);
      DepthFrame(RenderAll(d, init), cs[|cs| - 1], id, DepthAfter(z, Aim(front), |init|));
    }
  }

  /**
    Whatever else happens, a window that stays in front for as many frames as its depth is away from 0
    ends at depth 0, and one that stays behind for as long as it is away from 300 ends at depth 300.
   */
  lemma DepthArrivesInRun(d: Desktop, cs: seq<Input>, id: nat, z: int, front: bool)
    requires Inv(d) && id < d.counter && DepthIs(d.windows, id, z) && StaysInFront(d, cs, id, front)
    ensures front && |cs| >= Abs(z) ==> DepthIs(RenderAll(d, cs).windows, id, 0)
    ensures !front && |cs| >= Abs(300 - z) ==> DepthIs(RenderAll(d, cs).windows, id, 300)
  {
    DepthRun(d, cs, id, z, front);
    DepthArrives(z, Aim(front), |cs|);
  }

  // ---------------------------------------------------------------- dragging

  /** The window a held click acts on: the topmost one it reaches, or else the top window. */
  function Held(d: Desktop, c: Input): (w: Window)
    requires d.windows != []
  {
    var i := TopHit(d.windows, c, |d.windows|);
    d.windows[if i >= 0 then i else |d.windows| - 1]
  }

  /** The held window's state once the click has been handled. */
  function HeldState(d: Desktop, c: Input): WindowState
    requires d.windows != [] && d.launchers != []
  {
    if TopHit(d.windows, c, |d.windows|) >= 0 then Clicked(Held(d, c), c, d.launchers[0]).state else Held(d, c).state
  }

  /** The click hits the held window's title bar, away from the point where the drag took hold. */
  predicate Regrips(d: Desktop, c: Input)
    requires d.windows != []
  {
    var w := Held(d, c);
    && TopHit(d.windows, c, |d.windows|) >= 0 && ClickAction(w, c) == Drag
    && (c.cx - w.g.x != d.offX || c.cy - w.g.y != d.offY)
  }

  /** `g` has its corner where the drag offset puts it. */
  predicate UnderCursor(g: Geometry, d: Desktop, c: Input) {
    g.x == c.cx - d.offX && g.y == c.cy - d.offY
  }

  /**
    The input phase of a frame with a drag in progress: the held window comes to the top, and is under
    the cursor exactly when the click does not grip a title bar anew; otherwise it has not moved.
   */
  lemma HeldInput(d: Desktop, c: Input)
    requires Sound(d) && c.clicked && d.dragging && d.windows != []
    ensures var ws := Prepare(d, c).windows;
            && |ws| == |d.windows|
            && ws[|ws| - 1].id == Held(d, c).id && ws[|ws| - 1].state == HeldState(d, c)
            && (UnderCursor(ws[|ws| - 1].g, d, c) <==> !Regrips(d, c))
            && (Regrips(d, c) ==> ws[|ws| - 1].g == Held(d, c).g)
  {
    var i := TopHit(d.windows, c, |d.windows|);
    var d1 := HandleClick(d, c);
    if i >= 0 {
      var w := Clicked(d.windows[i], c, d.launchers[0]);
      assert d1.windows == Focused(d.windows, i, w);
      assert d1.windows[|d1.windows| - 1] == w;
    } else {
      assert d1 == d;
    }
  }

  lemma TickLast(ws: seq<Window>)
    requires ws != [] && StatesOk(ws) && NextState(ws[|ws| - 1].state) != Stable(Dead)
    ensures Tick(ws) != [] && Tick(ws)[|Tick(ws)| - 1] == UpdatePhysics(ws[|ws| - 1])
  {
  }

  lemma TickDropsLast(ws: seq<Window>)
    requires ws != [] && StatesOk(ws) && NextState(ws[|ws| - 1].state) == Stable(Dead)
    ensures Tick(ws) == Tick(ws[..|ws| - 1])
  {
  }

  /** A window in its last closing tick is not listed after it. */
  lemma TickRemoves(ws: seq<Window>, k: nat)
    requires StatesOk(ws) && DistinctIds(ws) && k < |ws| && NextState(ws[k].state) == Stable(Dead)
    ensures forall j :: 0 <= j < |Tick(ws)| ==> Tick(ws)[j].id != ws[k].id
  {
    StateOfAt(ws, k);
    TickState(ws, ws[k].id);
    StateOfAbsent(Tick(ws), ws[k].id);
  }

  /** Where a tick leaves the top window: at rest in its place, or where its animation takes it from anywhere. */
  lemma TickTop(ws: seq<Window>, st: WindowState, g: Geometry)
    requires ws != [] && StatesOk(ws) && ws[|ws| - 1].state == st && NextState(st) != Stable(Dead)
    ensures var ts := Tick(ws);
            && ts != [] && ts[|ts| - 1].id == ws[|ws| - 1].id
            && ts[|ts| - 1].g == if st.Stable? then ws[|ws| - 1].g else NextGeometry(g, st)
  {
    TickLast(ws);
  }

  /** A frame is the input phase, then the tick. */
  lemma RenderIs(d: Desktop, c: Input)
    requires Sound(d)
    ensures Sound(Prepare(d, c)) && Render(d, c).windows == Tick(Prepare(d, c).windows)
  {
    PrepareState(d, c, 0);
  }

  /** A click on a title bar never moves its window in that frame: the offset is taken anew each time. */
  lemma HeldTitleBarStaysPut(d: Desktop, c: Input, i: nat)
    requires Inv(d) && c.clicked && TopHit(d.windows, c, |d.windows|) == i
    requires ClickAction(d.windows[i], c) == Drag
    ensures var ws := Render(d, c).windows;
            ws != [] && ws[|ws| - 1].id == d.windows[i].id && ws[|ws| - 1].g == d.windows[i].g
    ensures var r, g := Render(d, c), d.windows[i].g; r.dragging && r.offX == c.cx - g.x && r.offY == c.cy - g.y
  {
    var w := d.windows[i];
    var d1 := HandleClick(d, c);
    assert d1.windows == Focused(d.windows, i, w);
    assert d1.windows[|d1.windows| - 1] == w;
    assert d1.offX == c.cx - w.g.x && d1.offY == c.cy - w.g.y;
    RenderIs(d, c);
    TickTop(Prepare(d, c).windows, w.state, w.g);
  }

  lemma HeldStateOk(d: Desktop, c: Input)
    requires Sound(d) && d.windows != []
    ensures StateOk(HeldState(d, c)) && HeldState(d, c) != Stable(Dead)
  {
    ClickedWindow(Held(d, c), c, d.launchers[0]);
  }

  /** A resting window arrives unless it is gripped anew; an animated one only if its animation does. */
  predicate HeldArrives(d: Desktop, c: Input)
    requires d.windows != [] && d.launchers != [] && StateOk(HeldState(d, c))
  {
    var st := HeldState(d, c);
    if st.Stable? then !Regrips(d, c) else UnderCursor(NextGeometry(Held(d, c).g, st), d, c)
  }

  /** `ws` has the window called `id` on top and under the cursor. */
  predicate TopUnderCursor(ws: seq<Window>, id: nat, d: Desktop, c: Input) {
    ws != [] && ws[|ws| - 1].id == id && UnderCursor(ws[|ws| - 1].g, d, c)
  }

  /** A drag begins with a click on a title bar, lasts as long as the button is held, and keeps its offset else. */
  lemma DraggingIff(d: Desktop, c: Input)
    requires Sound(d)
    ensures StatesOk(d.windows)
    ensures var i := TopHit(d.windows, c, |d.windows|);
            var grips := c.clicked && i >= 0 && ClickAction(d.windows[i], c) == Drag;
            && (Render(d, c).dragging <==> grips || (c.clicked && d.dragging))
            && (!grips ==> Render(d, c).offX == d.offX && Render(d, c).offY == d.offY)
  {
  }

  /** Without a click, the input phase moves no window and keeps their order. */
  lemma ReleasedKeepsPlaces(d: Desktop, c: Input, i: nat)
    requires d.launchers != [] && !c.clicked && i < |d.windows|
    ensures var ws := Prepare(d, c).windows;
            |ws| == |d.windows| && ws[i].id == d.windows[i].id && ws[i].g == d.windows[i].g
            && ws[i].state == d.windows[i].state
  {
  }

  /**
    The whole frame: unless it has just finished closing and is gone, the held window is on top, and
    under the cursor exactly when it is at rest and not gripped anew, or its animation leads there.
   */
  lemma HeldFrame(d: Desktop, c: Input)
    requires Inv(d) && c.clicked && d.dragging && d.windows != []
    ensures StateOk(HeldState(d, c))
    ensures var ws, id := Render(d, c).windows, Held(d, c).id;
            if NextState(HeldState(d, c)) == Stable(Dead) then forall j :: 0 <= j < |ws| ==> ws[j].id != id
            else ws != [] && ws[|ws| - 1].id == id && (TopUnderCursor(ws, id, d, c) <==> HeldArrives(d, c))
  {
    var ws, st := Prepare(d, c).windows, HeldState(d, c);
    HeldStateOk(d, c);
    HeldInput(d, c);
    RenderIs(d, c);
    if NextState(st) == Stable(Dead) {
      TickRemoves(ws, |ws| - 1);
    } else {
      TickTop(ws, st, Held(d, c).g);
    }
  }

  /** The top window, the one being dragged, ends the frame on top and under the cursor. */
  predicate DragFollows(d: Desktop, c: Input)
    requires Inv(d) && d.windows != []
  {
    TopUnderCursor(Render(d, c).windows, d.windows[|d.windows| - 1].id, d, c)
  }

  lemma HeldIsTopIff(d: Desktop, c: Input)
    requires Sound(d) && d.windows != []
    ensures Held(d, c).id == d.windows[|d.windows| - 1].id <==> Held(d, c) == d.windows[|d.windows| - 1]
  {
  }

  /** The held window stays on the desktop: it is the one on top after the frame. */
  lemma DragKept(d: Desktop, c: Input)
    requires Inv(d) && c.clicked && d.dragging && d.windows != []
    requires NextState(HeldState(d, c)) != Stable(Dead)
    ensures StateOk(HeldState(d, c))
    ensures DragFollows(d, c) <==> Held(d, c) == d.windows[|d.windows| - 1] && HeldArrives(d, c)
  {
    HeldFrame(d, c);
    HeldIsTopIff(d, c);
  }

  /** A window raised over the dragged one leaves that one second, where and as it was. */
  lemma RaisedOverTop(d: Desktop, c: Input)
    requires Sound(d) && c.clicked && d.windows != [] && Held(d, c) != d.windows[|d.windows| - 1]
    ensures var ws, w, n := Prepare(d, c).windows, d.windows[|d.windows| - 1], |d.windows|;
            |ws| == n >= 2 && ws[n - 2].id == w.id && ws[n - 2].g == w.g && ws[n - 2].state == w.state
  {
    var i := TopHit(d.windows, c, |d.windows|);
    var held := Clicked(d.windows[i], c, d.launchers[0]);
    FocusedAt(d.windows, i, held);
    assert HandleClick(d, c).windows == Focused(d.windows, i, held);
  }

  /** When the top window vanishes in a tick, the one below it is on top, unless that vanishes too. */
  lemma TickUncovers(ws: seq<Window>, w: Window, d: Desktop, c: Input)
    requires |ws| >= 2 && StatesOk(ws) && DistinctIds(ws) && NextState(ws[|ws| - 1].state) == Stable(Dead)
    requires var v := ws[|ws| - 2]; v.id == w.id && v.g == w.g && v.state == w.state
    ensures TopUnderCursor(Tick(ws), w.id, d, c)
       <==> NextState(w.state) != Stable(Dead) && UnderCursor(NextGeometry(w.g, w.state), d, c)
  {
    TickDropsLast(ws);
    if NextState(w.state) == Stable(Dead) {
      TickRemoves(ws, |ws| - 2);
    } else {
      TickTop(ws[..|ws| - 1], w.state, w.g);
    }
  }

  /** The dragged window stays on the desktop and lies, or is animated, under the cursor by itself. */
  predicate TopArrives(d: Desktop, c: Input)
    requires d.windows != [] && StatesOk(d.windows)
  {
    var w := d.windows[|d.windows| - 1];
    NextState(w.state) != Stable(Dead) && UnderCursor(NextGeometry(w.g, w.state), d, c)
  }

  /** The held window vanishes in this frame: if it was another one, the dragged window is uncovered again. */
  lemma DragUncovered(d: Desktop, c: Input)
    requires Inv(d) && c.clicked && d.dragging && d.windows != []
    requires NextState(HeldState(d, c)) == Stable(Dead)
    ensures DragFollows(d, c) <==> Held(d, c) != d.windows[|d.windows| - 1] && TopArrives(d, c)
  {
    var w := d.windows[|d.windows| - 1];
    if Held(d, c) == w {
      HeldFrame(d, c);
    } else {
      HeldInput(d, c);
      RenderIs(d, c);
      RaisedOverTop(d, c);
      TickUncovers(Prepare(d, c).windows, w, d, c);
    }
  }

  /**
    Exactly when the dragged window follows the cursor. As long as the held window stays on the
    desktop: the click reaches no other window first, and the window is neither gripped anew nor animated
    elsewhere. When the held window vanishes in this frame: it was another one, and the dragged window,
    uncovered again, happens to lie or be animated there.
   */
  lemma DragFollowsIff(d: Desktop, c: Input)
    requires Inv(d) && c.clicked && d.dragging && d.windows != []
    ensures StateOk(HeldState(d, c))
    ensures DragFollows(d, c) <==>
              if NextState(HeldState(d, c)) != Stable(Dead)
              then Held(d, c) == d.windows[|d.windows| - 1] && HeldArrives(d, c)
              else Held(d, c) != d.windows[|d.windows| - 1] && TopArrives(d, c)
  {
    HeldStateOk(d, c);
    if NextState(HeldState(d, c)) == Stable(Dead) {
      DragUncovered(d, c);
    } else {
      DragKept(d, c);
    }
  }

  /** Two resting windows side by side, the right one on top. */
  const SIDE_BY_SIDE: Desktop :=
    Desktop([RestingWindow(1, Geometry(800, 600, 0, 0)), RestingWindow(2, Geometry(400, 300, 1000, 0))],
            [Launcher(900, 900, 20)], 3, false, 0, 0)

  function RestingWindow(id: nat, g: Geometry): Window {
    Window(id, g, g, 0, 0, Stable(Instantiated))
  }

  /** The button is held on the right window's title bar, then the cursor is over the left window. */
  const GRIP: Input := Input(1010, 10, true, 1920, 1080)
  const CROSS: Input := Input(500, 300, true, 1920, 1080)

  /** After the first frame the drag has begun and nothing has moved. */
  const GRIPPED: Desktop :=
    Desktop([RestingWindow(1, Geometry(800, 600, 0, 0)).(baseZ := 75, targetZ := 300),
             RestingWindow(2, Geometry(400, 300, 1000, 0))],
            [Launcher(900, 900, 20)], 3, true, 10, 10)

  lemma GripFrame()
    ensures Inv(SIDE_BY_SIDE) && Render(SIDE_BY_SIDE, GRIP) == GRIPPED
  {
    var d := SIDE_BY_SIDE;
    var w1, w2 := d.windows[0], d.windows[1];
    assert ClickAction(w2, GRIP) == Drag;
    assert Focused(d.windows, 1, w2) == [w1, w2];
    assert HandleClick(d, GRIP) == d.(dragging := true, offX := 10, offY := 10);
    assert Prepare(d, GRIP).windows == [w1.(targetZ := 300), w2];
    TickTwo(w1.(targetZ := 300), w2);
  }

  lemma CrossFrame()
    ensures Inv(GRIPPED)
    ensures Render(GRIPPED, CROSS).windows ==
            [RestingWindow(2, Geometry(400, 300, 1000, 0)).(baseZ := 75, targetZ := 300),
             RestingWindow(1, Geometry(800, 600, 0, 0)).(g := Geometry(800, 600, 490, 290), baseZ := 57)]
  {
    var d := GRIPPED;
    var w1, w2 := d.windows[0], d.windows[1];
    assert ClickAction(w2, CROSS) == Miss && ClickAction(w1, CROSS) == Focus;
    assert TopHit(d.windows, CROSS, 1) == 0;
    assert Focused(d.windows, 0, w1) == [w2, w1];
    assert HandleClick(d, CROSS) == d.(windows := [w2, w1]);
    var moved := w1.(targetZ := 0, g := Geometry(800, 600, 490, 290));
    assert Prepare(d, CROSS).windows == [w2.(targetZ := 300), moved];
    TickTwo(w2.(targetZ := 300), moved);
  }

  /** A drag that crosses another window drops the dragged one and takes the other along. */
  lemma DragJumpsToOtherWindow()
    ensures Inv(SIDE_BY_SIDE)
    ensures var ws := RenderAll(SIDE_BY_SIDE, [GRIP, CROSS]).windows;
            && |ws| == 2
            && ws[0].id == 2 && ws[0].g == Geometry(400, 300, 1000, 0)
            && ws[1].id == 1 && ws[1].g == Geometry(800, 600, 490, 290)
  {
    GripFrame();
    CrossFrame();
    assert [GRIP, CROSS][..1] == [GRIP] && [GRIP][..0] == [];
    assert RenderAll(SIDE_BY_SIDE, []) == SIDE_BY_SIDE;
    assert RenderAll(SIDE_BY_SIDE, [GRIP]) == GRIPPED;
  }

  lemma TickTwo(a: Window, b: Window)
    requires a.state == Stable(Instantiated) && b.state == Stable(Instantiated)
    ensures StatesOk([a, b]) && Tick([a, b]) == [UpdatePhysics(a), UpdatePhysics(b)]
  {
    assert [a, b][..1] == [a] && [a][..0] == [];
    assert Tick([a]) == [UpdatePhysics(a)];
  }

  /** Clicking the close button of the topmost window reached removes it in the 15th frame, not before. */
  lemma CloseButtonRemoves(d: Desktop, c: Input, cs: seq<Input>, i: nat)
    requires Inv(d) && c.clicked && TopHit(d.windows, c, |d.windows|) == i
    requires ClickAction(d.windows[i], c) == Close
    ensures Inv(Render(d, c))
    ensures StateOf(RenderAll(Render(d, c), cs).windows, d.windows[i].id).None? <==> 1 + |cs| >= 15
  {
    RenderInv(d, c);
    ClosedState(d, c, i);
    ClosingCountdown(Render(d, c), cs, d.windows[i].id);
  }

  /** The frame in which a window is closed leaves it closing with one tick done. */
  lemma ClosedState(d: Desktop, c: Input, i: nat)
    requires Inv(d) && c.clicked && TopHit(d.windows, c, |d.windows|) == i
    requires ClickAction(d.windows[i], c) == Close
    ensures var st := StateOf(Render(d, c).windows, d.windows[i].id);
            st.Some? && st.value.Transitioning? && st.value.finalMode == Dead && st.value.progress == 1
  {
    var w := d.windows[i];
    var w' := TriggerClose(w, d.launchers[0]);
    var d1 := HandleClick(d, c);
    FocusedState(d.windows, i, w', w.id);
    assert d1.windows == Focused(d.windows, i, w');
    HandleClickState(d, c, w.id);
    PolishState(d1, c, w.id);
    TickState(Prepare(d, c).windows, w.id);
  }

  // ---------------------------------------------------------------- the engine

  class SplatEngine {
    var windows: seq<Window>
    var launchers: seq<Launcher>
    var instanceCounter: nat
    var dragging: bool
    var offX: int
    var offY: int

    ghost function View(): Desktop
      reads this
    {
      Desktop(windows, launchers, instanceCounter, dragging, offX, offY)
    }

    constructor (launchers: seq<Launcher>)
      requires launchers != []
      ensures Inv(View()) && windows == []
    {
      windows, this.launchers, instanceCounter := [], launchers, 1;
      dragging, offX, offY := false, 0, 0;
    }

    /** `tick_physics`: an update loop over the windows, then the retain pass. */
    method TickPhysics()
      requires StatesOk(windows)
      modifies this`windows
      ensures windows == Tick(old(windows))
    {
      ghost var before := windows;
      var i := 0;
      while i < |windows|
        invariant 0 <= i <= |windows| == |before|
        invariant forall j :: 0 <= j < i ==> windows[j] == UpdatePhysics(before[j])
        invariant forall j :: i <= j < |before| ==> windows[j] == before[j]
      {
        windows := windows[i := UpdatePhysics(windows[i])];
        i := i + 1;
      }
      var kept := [];
      i := 0;
      while i < |windows|
        invariant 0 <= i <= |windows| && StatesOk(before[..i])
        invariant kept == Tick(before[..i])
      {
        assert before[..i + 1][..i] == before[..i];
        if windows[i].state != Stable(Dead) {
          kept := kept + [windows[i]];
        }
        i := i + 1;
      }
      assert before[..|before|] == before;
      windows := kept;
    }

    /** The click loop, from the top window down. */
    method FindHit(c: Input) returns (i: int)
      ensures i == TopHit(windows, c, |windows|)
    {
      i := |windows| - 1;
      while i >= 0
        invariant -1 <= i < |windows|
        invariant TopHit(windows, c, |windows|) == TopHit(windows, c, i + 1)
      {
        if ClickAction(windows[i], c) != Miss {
          return;
        }
        i := i - 1;
      }
    }

    /** What the click does to the window it reaches, which comes to the top; otherwise a launch. */
    method ApplyClick(c: Input)
      requires Sound(View())
      modifies this
      ensures View() == HandleClick(old(View()), c)
    {
      var i := FindHit(c);
      if i >= 0 {
        var w := windows[i];
        if ClickAction(w, c) == Drag {
          dragging, offX, offY := true, c.cx - w.g.x, c.cy - w.g.y;
        }
        windows := Focused(windows, i, Clicked(w, c, launchers[0]));
      } else if !dragging {
        Launch(c);
      }
    }

    /** The launcher loop: the first launcher under the cursor spawns a window. */
    method Launch(c: Input)
      requires TopHit(windows, c, |windows|) < 0 && !dragging && launchers != []
      modifies this`windows, this`instanceCounter
      ensures View() == HandleClick(old(View()), c)
    {
      var k := 0;
      while k < |launchers|
        invariant 0 <= k <= |launchers|
        invariant LauncherHit(launchers, c) == k + LauncherHit(launchers[k..], c)
      {
        var l := launchers[k];
        if Within(c.cx, l.x, l.radius) && Within(c.cy, l.y, l.radius) {
          windows := windows + [Spawn(instanceCounter, l, 800, 600)];
          instanceCounter := instanceCounter + 1;
          return;
        }
        assert launchers[k..][1..] == launchers[k + 1..];
        k := k + 1;
      }
    }

    /** The parallax loop: the top window comes to the front, the others sink. */
    method SetTargets()
      modifies this`windows
      ensures windows == SetDepths(old(windows))
    {
      ghost var before := windows;
      var n := |windows|;
      var i := 0;
      while i < n
        invariant 0 <= i <= n == |windows| == |before|
        invariant forall j :: 0 <= j < i ==> windows[j] == SetDepths(before)[j]
        invariant forall j :: i <= j < n ==> windows[j] == before[j]
      {
        windows := windows[i := windows[i].(targetZ := if i == n - 1 then 0 else 300)];
        i := i + 1;
      }
    }

    /** Dragging moves the top window with the cursor. */
    method MoveDragged(c: Input)
      modifies this`windows
      ensures windows == DragTop(old(View()), c)
    {
      var n := |windows|;
      if dragging && n > 0 {
        var w := windows[n - 1];
        windows := windows[n - 1 := w.(g := w.g.(x := c.cx - offX, y := c.cy - offY))];
      }
    }

    /** The input phase: clicks, focus depths and dragging. */
    method HandleInput(c: Input)
      requires Sound(View())
      modifies this
      ensures View() == Prepare(old(View()), c)
    {
      if c.clicked {
        ApplyClick(c);
      } else {
        dragging := false;
      }
      SetTargets();
      MoveDragged(c);
    }

    /** `render_desktop` without the drawing. */
    method RenderDesktop(c: Input)
      requires Inv(View())
      modifies this
      ensures View() == Render(old(View()), c) && Inv(View())
    {
      RenderInv(View(), c);
      PrepareStates(View(), c);
      HandleInput(c);
      TickPhysics();
    }
  }
}
