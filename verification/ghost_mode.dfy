/** Ghost mode (GhostModeManager.cs): on every timer tick, each live window
    in ghost mode is made more transparent the closer the pointer comes to
    it. The timer, the pointer position and the Ctrl key are inputs of the
    tick; the distance and the alpha curve are pure functions. */
module GhostModeManager {
  import opened Wrappers
  import opened Native
  import Numeric
  import WindowManager

  /** Closer than this many pixels the window shows at the floor alpha. */
  const DistanceTransparent := 50

  /** From this many pixels on the window shows at its configured opacity. */
  const DistanceNormal := 150

  /** The alpha at close range, about 5 % so the window stays findable. */
  const FloorAlpha := 13

  /** The point of the rectangle closest to p: each coordinate clamped into
      the rectangle's range (the lower bound wins on a degenerate range). */
  function NearestPoint(p: Point, r: Rect): (c: Point)
    ensures r.WellFormed() ==> r.Contains(c)
    ensures r.Contains(p) ==> c == p
  {
    Point(Numeric.Max(r.left, Numeric.Min(p.x, r.right)), Numeric.Max(r.top, Numeric.Min(p.y, r.bottom)))
  }

  /** The square of the distance from p to the rectangle, 0 on the boundary
      and inside. `Math.Sqrt` of it is the source's double distance. */
  function SquaredDistance(p: Point, r: Rect): (sq: nat)
    ensures r.Contains(p) ==> sq == 0
    ensures r.WellFormed() ==> (sq == 0 <==> r.Contains(p))
  {
    if r.Contains(p) then 0
    else
      var c := NearestPoint(p, r);
      Numeric.NonZeroSquare(p.x - c.x);
      Numeric.NonZeroSquare(p.y - c.y);
      Numeric.Square(p.x - c.x) + Numeric.Square(p.y - c.y)
  }

  /** Along one axis, the clamped coordinate is at least as close to x as
      any coordinate of the range. */
  lemma {:induction false} AxisNearest(x: int, lo: int, hi: int, q: int)
    requires lo <= q <= hi
    ensures Numeric.Square(x - Numeric.Max(lo, Numeric.Min(x, hi))) <= Numeric.Square(x - q)
  {
    var n := Numeric.Max(lo, Numeric.Min(x, hi));
    if x < lo {
      assert n == lo;
      Numeric.SquareMonotone(lo - x, q - x);
      assert Numeric.Square(x - n) == Numeric.Square(lo - x);
      assert Numeric.Square(x - q) == Numeric.Square(q - x);
    } else if x > hi {
      assert n == hi;
      Numeric.SquareMonotone(x - hi, x - q);
    } else {
      assert n == x;
    }
  }

  /** The squared distance is that of the nearest point: no point of a
      well-formed rectangle is closer to p. */
  lemma {:induction false} DistanceIsMinimal(p: Point, r: Rect, q: Point)
    requires r.WellFormed() && r.Contains(q)
    ensures SquaredDistance(p, r) <= Numeric.Square(p.x - q.x) + Numeric.Square(p.y - q.y)
  {
    if !r.Contains(p) {
      AxisNearest(p.x, r.left, r.right, q.x);
      AxisNearest(p.y, r.top, r.bottom, q.y);
    }
  }

  /** ... and the distance is attained: it is the squared distance to a
      point of the rectangle. */
  lemma DistanceIsAttained(p: Point, r: Rect)
    requires r.WellFormed()
    ensures var c := NearestPoint(p, r);
      r.Contains(c) && SquaredDistance(p, r) == Numeric.Square(p.x - c.x) + Numeric.Square(p.y - c.y)
  {
  }

  /** A fraction t in [0, 1] of d lies between 0 and d. */
  lemma ScaleBetween(d: real, t: real)
    requires 0.0 <= t <= 1.0
    ensures d >= 0.0 ==> 0.0 <= d * t <= d
    ensures d < 0.0 ==> d <= d * t <= 0.0
  {
    if d >= 0.0 {
      Numeric.RealProductNonNegative(d, t);
      Numeric.RealProductNonNegative(d, 1.0 - t);
    } else {
      Numeric.RealProductNonNegative(-d, t);
      Numeric.RealProductNonNegative(-d, 1.0 - t);
    }
  }

  /** The floor of a linear interpolation from lo toward hi at a fraction
      t in [0, 1) stays between the two ends. */
  lemma InterpolationBounds(lo: int, hi: int, t: real)
    requires 0.0 <= t < 1.0
    ensures var v := lo as real + (hi - lo) as real * t;
      Numeric.Min(lo, hi) <= v.Floor <= Numeric.Max(lo, hi)
  {
    var v := lo as real + (hi - lo) as real * t;
    ScaleBetween((hi - lo) as real, t);
    var a, b := Numeric.Min(lo, hi), Numeric.Max(lo, hi);
    assert a as real <= v <= b as real;
    Numeric.FloorMonotone(a as real, v);
    Numeric.FloorMonotone(v, b as real);
  }

  /** Moving the fraction forward moves a linear interpolation toward its
      far end, and so its floor. */
  lemma LerpMonotone(base: int, k: int, t1: real, t2: real)
    requires t1 <= t2
    ensures k >= 0 ==> (base as real + k as real * t1).Floor <= (base as real + k as real * t2).Floor
    ensures k < 0 ==> (base as real + k as real * t1).Floor >= (base as real + k as real * t2).Floor
  {
    var c := k as real;
    if k >= 0 {
      Numeric.RealProductNonNegative(c, t2 - t1);
      Numeric.FloorMonotone(base as real + c * t1, base as real + c * t2);
    } else {
      Numeric.RealProductNonNegative(-c, t2 - t1);
      Numeric.FloorMonotone(base as real + c * t2, base as real + c * t1);
    }
  }

  /** The linear interpolation between the thresholds, from the floor alpha
      at 50 px toward maxAlpha at 150 px, truncated as the `(byte)` cast does
      for a non-negative value. */
  function Interpolated(distance: real, maxAlpha: int): int {
    var ratio := (distance - DistanceTransparent as real) / (DistanceNormal - DistanceTransparent) as real;
    (FloorAlpha as real + (maxAlpha - FloorAlpha) as real * ratio).Floor
  }

  /** `CalculateOpacity`: the alpha for a window `distance` pixels from the
      pointer. Below 50 px it is the floor alpha 13; from 150 px on it is the
      configured opacity; between the two it interpolates linearly from 13
      toward the configured alpha. */
  function CalculateOpacity(distance: real, maxOpacityPercent: Byte): (a: Byte)
    ensures distance < DistanceTransparent as real ==> a == FloorAlpha
    ensures distance >= DistanceNormal as real ==> a == WindowManager.PercentToAlpha(maxOpacityPercent)
    ensures
      var m := WindowManager.PercentToAlpha(maxOpacityPercent);
      Numeric.Min(FloorAlpha, m) <= a <= Numeric.Max(FloorAlpha, m)
  {
    if distance < DistanceTransparent as real then FloorAlpha
    else if distance >= DistanceNormal as real then WindowManager.PercentToAlpha(maxOpacityPercent)
    else
      var maxAlpha := WindowManager.PercentToAlpha(maxOpacityPercent);
      InterpolatedBetween(distance, maxAlpha);
      Interpolated(distance, maxAlpha)
  }

  /** Inside the band the interpolated alpha lies between its two ends. */
  lemma InterpolatedBetween(distance: real, maxAlpha: int)
    requires DistanceTransparent as real <= distance < DistanceNormal as real
    ensures Numeric.Min(FloorAlpha, maxAlpha) <= Interpolated(distance, maxAlpha) <= Numeric.Max(FloorAlpha, maxAlpha)
  {
    var t := (distance - DistanceTransparent as real) / (DistanceNormal - DistanceTransparent) as real;
    assert 0.0 <= t < 1.0;
    InterpolationBounds(FloorAlpha, maxAlpha, t);
  }

  /** Half-way between the two thresholds at full opacity the window shows
      at alpha 134: 13 + (255 - 13) / 2. */
  lemma HalfWayExample()
    ensures CalculateOpacity(100.0, 100) == 134
  {
    assert (13.0 + (255 - 13) as real * ((100.0 - 50.0) / 100.0)).Floor == 134;
  }

  /** The alpha moves monotonically with the distance: it grows when the
      configured alpha is above the floor alpha and shrinks (from 13 down to
      the configured 12 of a 5 % window) when it is below. */
  lemma {:induction false} OpacityMonotone(d1: real, d2: real, percent: Byte)
    requires d1 <= d2
    ensures FloorAlpha <= WindowManager.PercentToAlpha(percent) ==> CalculateOpacity(d1, percent) <= CalculateOpacity(d2, percent)
    ensures FloorAlpha > WindowManager.PercentToAlpha(percent) ==> CalculateOpacity(d1, percent) >= CalculateOpacity(d2, percent)
  {
    var lo, hi := DistanceTransparent as real, DistanceNormal as real;
    if lo <= d1 && d2 < hi {
      MiddleMonotone(d1, d2, WindowManager.PercentToAlpha(percent));
    }
  }

  /** Within the interpolation band the alpha moves toward maxAlpha as the
      distance grows. */
  lemma MiddleMonotone(d1: real, d2: real, maxAlpha: int)
    requires d1 <= d2
    ensures FloorAlpha <= maxAlpha ==> Interpolated(d1, maxAlpha) <= Interpolated(d2, maxAlpha)
    ensures FloorAlpha > maxAlpha ==> Interpolated(d1, maxAlpha) >= Interpolated(d2, maxAlpha)
  {
    var t1 := (d1 - DistanceTransparent as real) / (DistanceNormal - DistanceTransparent) as real;
    var t2 := (d2 - DistanceTransparent as real) / (DistanceNormal - DistanceTransparent) as real;
    LerpMonotone(FloorAlpha, maxAlpha - FloorAlpha, t1, t2);
    assert Interpolated(d1, maxAlpha) == (FloorAlpha as real + (maxAlpha - FloorAlpha) as real * t1).Floor;
    assert Interpolated(d2, maxAlpha) == (FloorAlpha as real + (maxAlpha - FloorAlpha) as real * t2).Floor;
  }

  /** `CalculateOpacity` computed exactly from the squared distance, without
      a square root: the thresholds are compared squared, and the floor of
      13 + (m - 13)(d - 50)/100 is taken through the integer square root of
      (m - 13)^2 d^2. */
  function AlphaFromSquaredDistance(sq: nat, maxOpacityPercent: Byte): (a: Byte)
    ensures sq < Numeric.Square(DistanceTransparent) ==> a == FloorAlpha
    ensures sq >= Numeric.Square(DistanceNormal) ==> a == WindowManager.PercentToAlpha(maxOpacityPercent)
    ensures
      var m := WindowManager.PercentToAlpha(maxOpacityPercent);
      Numeric.Min(FloorAlpha, m) <= a <= Numeric.Max(FloorAlpha, m)
  {
    var m := WindowManager.PercentToAlpha(maxOpacityPercent);
    if sq < Numeric.Square(DistanceTransparent) then FloorAlpha
    else if sq >= Numeric.Square(DistanceNormal) then m
    else if m >= FloorAlpha then
      var k := m - FloorAlpha;
      ScaledRootBounds(k, sq);
      ShiftedQuotientBounds(k, Numeric.ISqrt(k * k * sq));
      FloorAlpha + (Numeric.ISqrt(k * k * sq) - 50 * k) / 100
    else
      var k := FloorAlpha - m;
      ScaledRootBounds(k, sq);
      ShiftedQuotientBounds(k, Numeric.CeilSqrt(k * k * sq));
      FloorAlpha + (50 * k - Numeric.CeilSqrt(k * k * sq)) / 100
  }

  /** A root between 50k and 150k moves the interpolation by at most k. */
  lemma ShiftedQuotientBounds(k: nat, root: int)
    requires 50 * k <= root <= 150 * k
    ensures 0 <= (root - 50 * k) / 100 <= k
    ensures -(k as int) <= (50 * k - root) / 100 <= 0
  {
    var a := root - 50 * k;
    var q, r := a / 100, a % 100;
    assert a == 100 * q + r && 0 <= r < 100;
    var b := 50 * k - root;
    var q', r' := b / 100, b % 100;
    assert b == 100 * q' + r' && 0 <= r' < 100;
    assert 100 * q' > -100 * k - 100;
    assert 100 * q' <= 0;
  }

  /** For sq between 50^2 and 150^2, k^2 * sq lies between the squares of
      50k and 150k. */
  lemma {:induction false} ScaledSquareBounds(k: nat, sq: nat)
    requires Numeric.Square(DistanceTransparent) <= sq < Numeric.Square(DistanceNormal)
    ensures Numeric.Square(50 * k) <= k * k * sq <= Numeric.Square(150 * k)
  {
    assert Numeric.Square(50 * k) == k * k * 2500;
    assert Numeric.Square(150 * k) == k * k * 22500;
    assert k * k * (sq - 2500) >= 0;
    assert k * k * (22500 - sq) >= 0;
  }

  /** Both square roots of k^2 * sq lie between 50k and 150k. */
  lemma {:induction false} ScaledRootBounds(k: nat, sq: nat)
    requires Numeric.Square(DistanceTransparent) <= sq < Numeric.Square(DistanceNormal)
    ensures 0 <= k * k * sq
    ensures 50 * k <= Numeric.ISqrt(k * k * sq) <= 150 * k
    ensures 50 * k <= Numeric.CeilSqrt(k * k * sq) <= 150 * k
  {
    ScaledSquareBounds(k, sq);
    var lo, hi := Numeric.ISqrt(k * k * sq), Numeric.CeilSqrt(k * k * sq);
    if lo < 50 * k {
      Numeric.SquareMonotone(lo + 1, 50 * k);
      assert false;
    }
    if lo > 150 * k {
      Numeric.SquareStrict(150 * k, lo);
      assert false;
    }
    if hi < 50 * k {
      Numeric.SquareStrict(hi, 50 * k);
      assert false;
    }
    if hi > 150 * k {
      Numeric.SquareMonotone(150 * k, hi - 1);
      assert false;
    }
  }

  /** A non-negative square root of sq is below c exactly when sq is below c^2. */
  lemma RootBelow(d: real, sq: nat, c: nat)
    requires 0.0 <= d && d * d == sq as real
    ensures d < c as real <==> sq < Numeric.Square(c)
  {
    Numeric.CastSquare(c);
    if d < c as real {
      Numeric.RealSquareStrict(d, c as real);
    } else if d > c as real {
      Numeric.RealSquareStrict(c as real, d);
    }
  }

  /** Scaling a square root of sq by k gives a square root of k^2 * sq. */
  lemma ScaledRoot(d: real, sq: nat, k: nat)
    requires 0.0 <= d && d * d == sq as real
    ensures 0.0 <= k as real * d
    ensures (k as real * d) * (k as real * d) == (k * k * sq) as real
  {
    var c := k as real;
    Numeric.RealProductNonNegative(c, d);
    assert (c * d) * (c * d) == (c * c) * (d * d);
    Numeric.CastSquare(k);
    assert (k * k * sq) as real == (k * k) as real * sq as real;
  }

  /** Scaling the band ratio (d - 50)/100 by c. */
  lemma ScaleShift(c: real, d: real)
    ensures c * ((d - 50.0) / 100.0) == (c * d - 50.0 * c) / 100.0
  {
    assert c * (d - 50.0) == c * d - 50.0 * c;
    assert c * ((d - 50.0) / 100.0) == (c * (d - 50.0)) / 100.0;
  }

  /** In the band, rising toward maxAlpha = 13 + k: the interpolation's
      floor is taken through the integer square root of k^2 sq. */
  lemma {:induction false} InterpolatedRising(d: real, sq: nat, k: nat)
    requires 0.0 <= d && d * d == sq as real
    ensures Interpolated(d, FloorAlpha + k) == FloorAlpha + (Numeric.ISqrt(k * k * sq) - 50 * k) / 100
  {
    var x := k as real * d;
    ScaledRoot(d, sq, k);
    ScaleShift(k as real, d);
    assert Interpolated(d, FloorAlpha + k) == (FloorAlpha as real + (x - (50 * k) as real) / 100.0).Floor;
    Numeric.FloorShiftDiv(x, 50 * k, FloorAlpha);
    Numeric.FloorOfRoot(x, k * k * sq);
  }

  /** In the band, falling toward maxAlpha = 13 - k: the interpolation's
      floor is taken through the ceiling square root of k^2 sq. */
  lemma {:induction false} InterpolatedFalling(d: real, sq: nat, k: nat)
    requires 0.0 <= d && d * d == sq as real
    ensures Interpolated(d, FloorAlpha - k) == FloorAlpha + (50 * k - Numeric.CeilSqrt(k * k * sq)) / 100
  {
    var x := k as real * d;
    ScaledRoot(d, sq, k);
    ScaleShift(-(k as real), d);
    assert -(k as real) * d == -x;
    assert Interpolated(d, FloorAlpha - k) == (FloorAlpha as real + (-x - (-50 * k) as real) / 100.0).Floor;
    Numeric.FloorShiftDiv(-x, -50 * k, FloorAlpha);
    Numeric.FloorOfNegRoot(x, k * k * sq);
  }

  /** The exact-integer alpha agrees with `CalculateOpacity` on the true
      distance: for every d >= 0 with d^2 = sq the two are equal. */
  lemma {:induction false} ExactAlphaAgrees(d: real, sq: nat, percent: Byte)
    requires 0.0 <= d && d * d == sq as real
    ensures CalculateOpacity(d, percent) == AlphaFromSquaredDistance(sq, percent)
  {
    RootBelow(d, sq, DistanceTransparent);
    RootBelow(d, sq, DistanceNormal);
    if DistanceTransparent as real <= d < DistanceNormal as real {
      var m := WindowManager.PercentToAlpha(percent);
      assert CalculateOpacity(d, percent) == Interpolated(d, m);
      if m >= FloorAlpha {
        InterpolatedRising(d, sq, m - FloorAlpha);
      } else {
        InterpolatedFalling(d, sq, FloorAlpha - m);
      }
    }
  }

  /** The worked example on the exact path: 100 px (squared: 10000) from a
      window at full opacity gives alpha 134. */
  lemma HalfWayExactExample()
    ensures AlphaFromSquaredDistance(10000, 100) == 134
  {
    ExactAlphaAgrees(100.0, 10000, 100);
    HalfWayExample();
  }

  /** A registered live window in ghost mode: the windows a tick updates. */
  predicate Ghosted(m: WindowManager.Manager, os: Os, h: Handle) {
    h in m.windows && IsWindow(os, h) && m.windows[h].isGhostMode
  }

  /** The alpha a tick aims a ghost window at: pinned to the configured
      opacity while Ctrl is held, otherwise the distance curve for the
      pointer's distance to the window's rectangle. */
  function TickTarget(info: WindowManager.WindowInfo, rect: Rect, ctrl: bool, cursor: Point): Byte {
    if ctrl then WindowManager.PercentToAlpha(info.opacityPercent)
    else AlphaFromSquaredDistance(SquaredDistance(cursor, rect), info.opacityPercent)
  }

  /** What a tick does to one ghost window: the entry records the target as
      its current ghost alpha, and the window is written (made layered, alpha
      set) only if the recorded alpha differed from the target. */
  predicate TickedTo(info: WindowManager.WindowInfo, before: Win, info': WindowManager.WindowInfo, after: Win, target: Byte) {
    && info' == info.(currentGhostOpacity := target)
    && if info.currentGhostOpacity == target then after == before
       else after == before.(exStyle := before.exStyle | WS_EX_LAYERED, alpha := target)
  }

  /** The tick's step for one entry of the modified windows: skipped unless
      it is in ghost mode and alive; otherwise its target alpha is written
      through `SetDirectOpacity` when it differs from the recorded one. */
  function TickWindow(m: WindowManager.Manager, os: Os, h: Handle, ctrl: bool, pt: Point): (r: (WindowManager.Manager, Os))
    requires h in m.windows
    ensures !Ghosted(m, os, h) ==> r == (m, os)
    ensures r.0.windows.Keys == m.windows.Keys && r.0.shellWindow == m.shellWindow && r.0.ownHandle == m.ownHandle
    ensures r.1.foreground == os.foreground && r.1.windows.Keys == os.windows.Keys
    ensures forall g :: g in m.windows && g != h ==> r.0.windows[g] == m.windows[g]
    ensures forall g :: g in os.windows && g != h ==> r.1.windows[g] == os.windows[g]
    ensures Ghosted(m, os, h) ==>
      TickedTo(m.windows[h], os.windows[h], r.0.windows[h], r.1.windows[h],
        TickTarget(m.windows[h], os.windows[h].rect, ctrl, pt))
  {
    var info := m.windows[h];
    if !info.isGhostMode || !IsWindow(os, h) then (m, os)
    else if ctrl then
      var alpha := WindowManager.PercentToAlpha(info.opacityPercent);
      if info.currentGhostOpacity != alpha then WindowManager.SetDirectOpacity(m, os, h, alpha) else (m, os)
    else
      match GetWindowRect(os, h)
      case None => (m, os)
      case Some(rect) =>
        var newAlpha := AlphaFromSquaredDistance(SquaredDistance(pt, rect), info.opacityPercent);
        if info.currentGhostOpacity != newAlpha then WindowManager.SetDirectOpacity(m, os, h, newAlpha) else (m, os)
  }

  /** One timer tick with the Ctrl state and the pointer position (None when
      the position cannot be read, and the tick does nothing). Every ghost
      entry among the modified windows records its target alpha; the window
      itself is rewritten only when the recorded alpha differed from the
      target. All other windows and entries are left alone. */
  method OnTimerTick(m: WindowManager.Manager, os: Os, ctrl: bool, cursor: Option<Point>)
    returns (m': WindowManager.Manager, os': Os)
    ensures cursor.None? ==> m' == m && os' == os
    ensures m'.windows.Keys == m.windows.Keys && m'.shellWindow == m.shellWindow && m'.ownHandle == m.ownHandle
    ensures os'.foreground == os.foreground && os'.windows.Keys == os.windows.Keys
    ensures forall h :: h in m.windows && !Ghosted(m, os, h) ==> m'.windows[h] == m.windows[h]
    ensures forall h :: h in os.windows && !Ghosted(m, os, h) ==> os'.windows[h] == os.windows[h]
    ensures cursor.Some? ==> forall h :: Ghosted(m, os, h) ==>
      TickedTo(m.windows[h], os.windows[h], m'.windows[h], os'.windows[h],
        TickTarget(m.windows[h], os.windows[h].rect, ctrl, cursor.value))
    ensures cursor.Some? ==> forall h :: Ghosted(m', os', h) ==>
      m'.windows[h].currentGhostOpacity == TickTarget(m'.windows[h], os'.windows[h].rect, ctrl, cursor.value)
  {
    m', os' := m, os;
    if cursor.None? {
      return;
    }
    var pt := cursor.value;
    var pending := WindowManager.ModifiedWindows(m, os).Keys;
    while pending != {}
      invariant pending <= m.windows.Keys
      invariant m'.windows.Keys == m.windows.Keys && m'.shellWindow == m.shellWindow && m'.ownHandle == m.ownHandle
      invariant os'.foreground == os.foreground && os'.windows.Keys == os.windows.Keys
      invariant forall h :: h in m.windows && (h in pending || !Ghosted(m, os, h)) ==> m'.windows[h] == m.windows[h]
      invariant forall h :: h in os.windows && (h in pending || !Ghosted(m, os, h)) ==> os'.windows[h] == os.windows[h]
      invariant forall h :: Ghosted(m, os, h) && h !in pending ==>
        TickedTo(m.windows[h], os.windows[h], m'.windows[h], os'.windows[h],
          TickTarget(m.windows[h], os.windows[h].rect, ctrl, pt))
      decreases pending
    {
      var h := Numeric.PickMember(pending);
      pending := pending - {h};
      var step := TickWindow(m', os', h, ctrl, pt);
      m', os' := step.0, step.1;
    }
  }

  /** The recorded ghost alpha can go stale. Leaving ghost mode shows the
      window at its own opacity but keeps the alpha the last tick recorded.
      After ghost mode is switched on again, a tick that aims at that same
      alpha writes nothing, so the window stays fully opaque with the
      pointer inside it. */
  lemma StaleGhostAlphaExample()
    ensures
      var os0 := Os(map[1 := Win(0, 0, Rect(0, 0, 100, 100), false, "Notepad", 255, NullHandle)], 1);
      var m0 := WindowManager.NewManager(3, 2);
      var pt := Point(50, 50);
      var on := WindowManager.ToggleGhostMode(m0, os0, 1);
      1 in on.0.windows
      && var tick1 := TickWindow(on.0, on.1, 1, false, pt);
      var off := WindowManager.ToggleGhostMode(tick1.0, tick1.1, 1);
      var again := WindowManager.ToggleGhostMode(off.0, off.1, 1);
      1 in again.0.windows
      && var tick2 := TickWindow(again.0, again.1, 1, false, pt);
      && tick1.1.windows[1].alpha == FloorAlpha
      && off.1.windows[1].alpha == 255
      && off.0.windows[1].currentGhostOpacity == FloorAlpha
      && TickTarget(tick2.0.windows[1], tick2.1.windows[1].rect, false, pt) == FloorAlpha
      && tick2.1.windows[1].alpha == 255
  {
  }
}
