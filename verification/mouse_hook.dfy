/** Ctrl+drag moving and resizing of the foreground window (MouseHook.cs).
    A low-level mouse hook classifies the button-down point against the
    window's edges, then tracks the drag itself: every mouse-move sample is
    turned into a target position and size that is written to the window. */
module MouseHook {
  import Wrappers
  import opened Native
  import Numeric
  import WindowManager

  /** Width of the band along each edge that starts a resize, in pixels. */
  const EdgeSize := 16

  /** Smallest width and height a drag leaves a window with, in pixels. */
  const MinSize := 50

  const IDC_ARROW := 32512
  const IDC_SIZEALL := 32646
  const IDC_SIZENS := 32645
  const IDC_SIZEWE := 32644
  const IDC_SIZENWSE := 32642
  const IDC_SIZENESW := 32643

  datatype DragMode = None | Move | ResizeN | ResizeS | ResizeE | ResizeW | ResizeNW | ResizeNE | ResizeSW | ResizeSE

  /** The drag's aspect ratio, a double computed as width / (double)height,
      held here as the exact fraction num/den it was computed from. */
  datatype Ratio = Ratio(num: int, den: int)

  /** The hook's drag fields. Only the first three are reset on button-up. */
  datatype DragState = DragState(
    isDragging: bool,
    mode: DragMode,
    window: Handle,
    start: Point,
    original: Rect,
    aspect: Ratio)

  /** The fields as a new hook holds them: no drag, no window, no mode. */
  function InitialDrag(): (s: DragState)
    ensures !s.isDragging && s.mode == DragMode.None && s.window == NullHandle
  {
    DragState(false, DragMode.None, NullHandle, Point(0, 0), Rect(0, 0, 0, 0), Ratio(0, 1))
  }

  /** The four arguments of the SetWindowPos call a mouse-move makes. */
  datatype Placement = Placement(left: int, top: int, width: int, height: int)

  /** Where a coordinate falls along one axis: within the band of the low
      edge (left or top), within the band of the high edge (right or bottom),
      or neither. The low edge is tested first. */
  datatype Band = NearLow | Middle | NearHigh

  function BandOf(v: int, low: int, high: int): Band {
    if v < low + EdgeSize then NearLow
    else if v > high - EdgeSize then NearHigh
    else Middle
  }

  /** The drag mode as a product of the two axes: a corner when both axes are
      near an edge, an edge when one is, a move when neither is. */
  function ModeOfBands(horizontal: Band, vertical: Band): DragMode {
    match (horizontal, vertical)
    case (NearLow, NearLow) => ResizeNW
    case (NearHigh, NearLow) => ResizeNE
    case (NearLow, NearHigh) => ResizeSW
    case (NearHigh, NearHigh) => ResizeSE
    case (NearLow, Middle) => ResizeW
    case (NearHigh, Middle) => ResizeE
    case (Middle, NearLow) => ResizeN
    case (Middle, NearHigh) => ResizeS
    case (Middle, Middle) => Move
  }

  /** Classifies a button-down point: corners first, then edges, else move.
      The result is the per-axis classification above, in which the left
      edge wins over the right and the top over the bottom when a narrow
      window puts the point near both. */
  function GetDragMode(pt: Point, rect: Rect): (r: DragMode)
    ensures r == ModeOfBands(BandOf(pt.x, rect.left, rect.right), BandOf(pt.y, rect.top, rect.bottom))
    ensures r != DragMode.None
  {
    var nearLeft := pt.x < rect.left + EdgeSize;
    var nearRight := pt.x > rect.right - EdgeSize;
    var nearTop := pt.y < rect.top + EdgeSize;
    var nearBottom := pt.y > rect.bottom - EdgeSize;
    if nearLeft && nearTop then ResizeNW
    else if nearRight && nearTop then ResizeNE
    else if nearLeft && nearBottom then ResizeSW
    else if nearRight && nearBottom then ResizeSE
    else if nearLeft then ResizeW
    else if nearRight then ResizeE
    else if nearTop then ResizeN
    else if nearBottom then ResizeS
    else Move
  }

  /** A point near a corner resizes from that corner, whatever edge it is
      also near; e.g. near both the left and the top edge gives ResizeNW,
      never ResizeW or ResizeN. */
  lemma CornersBeforeEdges(pt: Point, rect: Rect)
    ensures pt.x < rect.left + EdgeSize && pt.y < rect.top + EdgeSize ==> GetDragMode(pt, rect) == ResizeNW
    ensures pt.x > rect.right - EdgeSize && pt.y < rect.top + EdgeSize && pt.x >= rect.left + EdgeSize
      ==> GetDragMode(pt, rect) == ResizeNE
    ensures pt.x < rect.left + EdgeSize && pt.y > rect.bottom - EdgeSize && pt.y >= rect.top + EdgeSize
      ==> GetDragMode(pt, rect) == ResizeSW
    ensures pt.x > rect.right - EdgeSize && pt.y > rect.bottom - EdgeSize
      && pt.x >= rect.left + EdgeSize && pt.y >= rect.top + EdgeSize
      ==> GetDragMode(pt, rect) == ResizeSE
  {
  }

  /** The cursor shown for a mode: the double arrow along the axis of the
      resize, the four-way arrow for a move, the plain arrow otherwise. */
  function CursorFor(mode: DragMode): (id: int)
    ensures id == IDC_ARROW <==> mode == DragMode.None
    ensures id == IDC_SIZEALL <==> mode == Move
    ensures id == IDC_SIZENS <==> mode in {ResizeN, ResizeS}
    ensures id == IDC_SIZEWE <==> mode in {ResizeE, ResizeW}
    ensures id == IDC_SIZENWSE <==> mode in {ResizeNW, ResizeSE}
    ensures id == IDC_SIZENESW <==> mode in {ResizeNE, ResizeSW}
  {
    match mode
    case Move => IDC_SIZEALL
    case ResizeN | ResizeS => IDC_SIZENS
    case ResizeE | ResizeW => IDC_SIZEWE
    case ResizeNW | ResizeSE => IDC_SIZENWSE
    case ResizeNE | ResizeSW => IDC_SIZENESW
    case None => IDC_ARROW
  }

  /** `(int)(width / aspect)`. None when the double quotient is infinite or
      not a number (a zero numerator makes the aspect ratio 0 or NaN); an
      infinite aspect ratio (zero denominator) gives 0. */
  function HeightFromWidth(aspect: Ratio, width: int): (r: Wrappers.Option<int>)
    ensures r.Some? <==> aspect.num != 0
    ensures aspect.num != 0 && aspect.den == 0 ==> r == Wrappers.Some(0)
    ensures aspect.num != 0 && aspect.den != 0 ==>
      r.Some? && Numeric.IsTruncQuot(r.value, width * aspect.den, aspect.num)
    ensures aspect.num > 0 && aspect.den > 0 && width >= 0 ==>
      r.Some? && r.value >= 0 && r.value * aspect.num <= width * aspect.den < (r.value + 1) * aspect.num
    ensures aspect.num > 0 && aspect.den > 0 && width < 0 ==>
      r.Some? && r.value <= 0 && (r.value - 1) * aspect.num < width * aspect.den <= r.value * aspect.num
  {
    if aspect.num == 0 then Wrappers.None
    else if aspect.den == 0 then Wrappers.Some(0)
    else
      var q := Numeric.TruncQuot(width * aspect.den, aspect.num);
      assert aspect.num > 0 && aspect.den > 0 && width >= 0 ==> q >= 0 && q * aspect.num <= width * aspect.den < (q + 1) * aspect.num by {
        if aspect.num > 0 && aspect.den > 0 && width >= 0 {
          Numeric.TruncQuotBracket(width, aspect.den, aspect.num);
        }
      }
      Wrappers.Some(q)
  }

  /** `(int)(height * aspect)`. None when the aspect ratio is infinite or not
      a number (zero denominator). */
  function WidthFromHeight(aspect: Ratio, height: int): (r: Wrappers.Option<int>)
    ensures r.Some? <==> aspect.den != 0
    ensures aspect.den != 0 ==> r.Some? && Numeric.IsTruncQuot(r.value, height * aspect.num, aspect.den)
    ensures aspect.num >= 0 && aspect.den > 0 && height >= 0 ==>
      r.Some? && r.value >= 0 && r.value * aspect.den <= height * aspect.num < (r.value + 1) * aspect.den
    ensures aspect.num > 0 && aspect.den > 0 && height < 0 ==>
      r.Some? && r.value <= 0 && (r.value - 1) * aspect.den < height * aspect.num <= r.value * aspect.den
  {
    if aspect.den == 0 then Wrappers.None
    else
      var q := Numeric.TruncQuot(height * aspect.num, aspect.den);
      assert aspect.num >= 0 && aspect.den > 0 && height >= 0 ==> q >= 0 && q * aspect.den <= height * aspect.num < (q + 1) * aspect.den by {
        if aspect.num >= 0 && aspect.den > 0 && height >= 0 {
          Numeric.TruncQuotBracket(height, aspect.num, aspect.den);
        }
      }
      Wrappers.Some(q)
  }

  /** The new size for a corner drag. The axis with the strictly larger
      pointer movement decides (a tie goes to the vertical axis); the other
      dimension follows from the aspect ratio at drag start. `west` and
      `north` say which edges the dragged corner sits on. */
  function CornerSize(o: Rect, aspect: Ratio, dx: int, dy: int, west: bool, north: bool): Wrappers.Option<(int, int)> {
    if Numeric.Abs(dx) > Numeric.Abs(dy) then
      var width := if west then o.Width() - dx else o.Width() + dx;
      var height :- HeightFromWidth(aspect, width);
      Wrappers.Some((width, height))
    else
      var height := if north then o.Height() - dy else o.Height() + dy;
      var width :- WidthFromHeight(aspect, height);
      Wrappers.Some((width, height))
  }

  /** A corner drag: new size from CornerSize, and the corner opposite the
      dragged one stays where it was. */
  function CornerResize(o: Rect, aspect: Ratio, dx: int, dy: int, west: bool, north: bool): Wrappers.Option<Placement> {
    var size :- CornerSize(o, aspect, dx, dy, west, north);
    var (width, height) := size;
    Wrappers.Some(Placement(
      if west then o.right - width else o.left,
      if north then o.bottom - height else o.top,
      width, height))
  }

  /** The position and size a drag asks for when the pointer has moved by
      (dx, dy) since button-down, before the minimum size is applied. */
  function Target(mode: DragMode, o: Rect, aspect: Ratio, dx: int, dy: int): (r: Wrappers.Option<Placement>)
    ensures mode == Move ==> r == Wrappers.Some(Placement(o.left + dx, o.top + dy, o.Width(), o.Height()))
    ensures mode == ResizeE ==>
      && r.Some? && r.value.left == o.left && r.value.top == o.top
      && r.value.height == o.Height() && r.value.left + r.value.width == o.right + dx
    ensures mode == ResizeS ==>
      && r.Some? && r.value.left == o.left && r.value.top == o.top
      && r.value.width == o.Width() && r.value.top + r.value.height == o.bottom + dy
    ensures mode == ResizeW ==>
      && r.Some? && r.value.left == o.left + dx && r.value.top == o.top
      && r.value.height == o.Height() && r.value.left + r.value.width == o.right
    ensures mode == ResizeN ==>
      && r.Some? && r.value.top == o.top + dy && r.value.left == o.left
      && r.value.width == o.Width() && r.value.top + r.value.height == o.bottom
    ensures mode == DragMode.None ==> r == Wrappers.Some(Placement(o.left, o.top, o.Width(), o.Height()))
  {
    var l, t, w, h := o.left, o.top, o.Width(), o.Height();
    match mode
    case Move => Wrappers.Some(Placement(l + dx, t + dy, w, h))
    case ResizeE => Wrappers.Some(Placement(l, t, w + dx, h))
    case ResizeW => Wrappers.Some(Placement(l + dx, t, w - dx, h))
    case ResizeS => Wrappers.Some(Placement(l, t, w, h + dy))
    case ResizeN => Wrappers.Some(Placement(l, t + dy, w, h - dy))
    case ResizeSE => CornerResize(o, aspect, dx, dy, false, false)
    case ResizeSW => CornerResize(o, aspect, dx, dy, true, false)
    case ResizeNE => CornerResize(o, aspect, dx, dy, false, true)
    case ResizeNW => CornerResize(o, aspect, dx, dy, true, true)
    case None => Wrappers.Some(Placement(l, t, w, h))
  }

  predicate IsCorner(mode: DragMode) {
    mode in {ResizeNW, ResizeNE, ResizeSW, ResizeSE}
  }

  predicate OnWestEdge(mode: DragMode) {
    mode in {ResizeNW, ResizeSW}
  }

  predicate OnNorthEdge(mode: DragMode) {
    mode in {ResizeNW, ResizeNE}
  }

  /** A corner drag keeps the opposite corner fixed: the right edge for the
      west corners, the bottom edge for the north corners, and the left and
      top edges otherwise. */
  lemma CornerAnchors(mode: DragMode, o: Rect, aspect: Ratio, dx: int, dy: int)
    requires IsCorner(mode)
    ensures
      var r := Target(mode, o, aspect, dx, dy);
      r.Some? ==>
        && (OnWestEdge(mode) ==> r.value.left + r.value.width == o.right)
        && (!OnWestEdge(mode) ==> r.value.left == o.left)
        && (OnNorthEdge(mode) ==> r.value.top + r.value.height == o.bottom)
        && (!OnNorthEdge(mode) ==> r.value.top == o.top)
  {
  }

  /** A corner drag follows the pointer along the axis that moved strictly
      more (the vertical one on a tie) and derives the other dimension from
      the aspect ratio W/H at drag start, rounded toward zero: the derived
      dimension is the one nearest the exact ratio on the side of zero, also
      when a corner dragged past the opposite edge makes the size negative. */
  lemma CornerKeepsAspect(mode: DragMode, o: Rect, aspect: Ratio, dx: int, dy: int)
    requires IsCorner(mode)
    requires aspect.num > 0 && aspect.den > 0
    ensures
      var r := Target(mode, o, aspect, dx, dy);
      var w, h := r.value.width, r.value.height;
      && r.Some?
      && (Numeric.Abs(dx) > Numeric.Abs(dy) ==>
            && w == (if OnWestEdge(mode) then o.Width() - dx else o.Width() + dx)
            && (w >= 0 ==> h * aspect.num <= w * aspect.den < (h + 1) * aspect.num)
            && (w < 0 ==> (h - 1) * aspect.num < w * aspect.den <= h * aspect.num))
      && (Numeric.Abs(dx) <= Numeric.Abs(dy) ==>
            && h == (if OnNorthEdge(mode) then o.Height() - dy else o.Height() + dy)
            && (h >= 0 ==> w * aspect.den <= h * aspect.num < (w + 1) * aspect.den)
            && (h < 0 ==> (w - 1) * aspect.den < h * aspect.num <= w * aspect.den))
  {
    var west, north := OnWestEdge(mode), OnNorthEdge(mode);
    assert Target(mode, o, aspect, dx, dy) == CornerResize(o, aspect, dx, dy, west, north);
    if Numeric.Abs(dx) > Numeric.Abs(dy) {
      var w := if west then o.Width() - dx else o.Width() + dx;
      var hw := HeightFromWidth(aspect, w);
      assert CornerSize(o, aspect, dx, dy, west, north) == Wrappers.Some((w, hw.value));
    } else {
      var h := if north then o.Height() - dy else o.Height() + dy;
      var wh := WidthFromHeight(aspect, h);
      assert CornerSize(o, aspect, dx, dy, west, north) == Wrappers.Some((wh.value, h));
    }
  }

  /** The worked example: a 200x100 window dragged by its south-east corner
      40 px right and 5 px down grows to 240x120. */
  lemma CornerExample(left: int, top: int)
    ensures Target(ResizeSE, Rect(left, top, left + 200, top + 100), Ratio(200, 100), 40, 5)
      == Wrappers.Some(Placement(left, top, 240, 120))
  {
  }

  /** The 50 px floor on width and height; position is left as computed. */
  function EnforceMinSize(p: Placement): (r: Placement)
    ensures r.left == p.left && r.top == p.top
    ensures r.width >= MinSize && r.height >= MinSize
    ensures p.width >= MinSize ==> r.width == p.width
    ensures p.height >= MinSize ==> r.height == p.height
    ensures r.width == Numeric.Max(p.width, MinSize) && r.height == Numeric.Max(p.height, MinSize)
  {
    Placement(p.left, p.top,
      if p.width < MinSize then MinSize else p.width,
      if p.height < MinSize then MinSize else p.height)
  }

  /** Button-down. The drag starts only if Ctrl is held and the foreground
      window's top-level window is eligible, not maximized, has a rectangle,
      and contains the point (boundary included). Returns whether the click
      was consumed and the new drag fields. */
  function OnMouseDown(s: DragState, m: WindowManager.Manager, os: Os, ctrl: bool, pt: Point): (r: (bool, DragState))
    ensures
      var hwnd := WindowManager.GetTopLevelWindow(os, os.foreground);
      r.0 <==>
        && ctrl
        && os.foreground != NullHandle
        && !WindowManager.IsExcluded(m, os, hwnd)
        && !IsZoomed(os, hwnd)
        && IsWindow(os, hwnd)
        && os.windows[hwnd].rect.Contains(pt)
    ensures !r.0 ==> r.1 == s
    ensures r.0 ==>
      var hwnd := WindowManager.GetTopLevelWindow(os, os.foreground);
      var rect := os.windows[hwnd].rect;
      r.1 == DragState(true, GetDragMode(pt, rect), hwnd, pt, rect, Ratio(rect.Width(), rect.Height()))
    ensures r.0 ==> r.1.original.Width() >= 0 && r.1.original.Height() >= 0
  {
    if !ctrl then (false, s)
    else if os.foreground == NullHandle then (false, s)
    else
      var hwnd := WindowManager.GetTopLevelWindow(os, os.foreground);
      if WindowManager.IsExcluded(m, os, hwnd) then (false, s)
      else if IsZoomed(os, hwnd) then (false, s)
      else match GetWindowRect(os, hwnd)
        case None => (false, s)
        case Some(rect) =>
          if pt.x < rect.left || pt.x > rect.right || pt.y < rect.top || pt.y > rect.bottom then (false, s)
          else
            var mode := GetDragMode(pt, rect);
            if mode == DragMode.None then (false, s.(mode := mode))
            else (true, DragState(true, mode, hwnd, pt, rect, Ratio(rect.Width(), rect.Height())))
  }

  /** Mouse-move while dragging: moves/resizes the dragged window to the
      target for the pointer's offset from the button-down point, with the
      minimum size applied. A corner drag whose start width or height makes
      the double arithmetic leave the finite range writes nothing here. */
  function OnMouseMove(s: DragState, os: Os, pt: Point): (r: Os)
    ensures !s.isDragging || s.window == NullHandle ==> r == os
    ensures r.foreground == os.foreground && r.windows.Keys == os.windows.Keys
    ensures forall g :: g in os.windows && g != s.window ==> r.windows[g] == os.windows[g]
    ensures s.isDragging && s.window != NullHandle && IsWindow(os, s.window) ==>
      var target := Target(s.mode, s.original, s.aspect, pt.x - s.start.x, pt.y - s.start.y);
      && (target.None? ==> r == os)
      && (target.Some? ==>
            && r.windows[s.window] == os.windows[s.window].(rect := r.windows[s.window].rect)
            && r.windows[s.window].rect.left == target.value.left
            && r.windows[s.window].rect.top == target.value.top
            && r.windows[s.window].rect.Width() >= MinSize
            && r.windows[s.window].rect.Height() >= MinSize
            && r.windows[s.window].rect.Width() == Numeric.Max(target.value.width, MinSize)
            && r.windows[s.window].rect.Height() == Numeric.Max(target.value.height, MinSize))
  {
    if !s.isDragging || s.window == NullHandle then os
    else
      match Target(s.mode, s.original, s.aspect, pt.x - s.start.x, pt.y - s.start.y)
      case Some(p) =>
        var c := EnforceMinSize(p);
        SetWindowPos(os, s.window, c.left, c.top, c.width, c.height)
      case None => os
  }

  /** Button-up ends the drag. */
  function OnMouseUp(s: DragState): (r: DragState)
    ensures !r.isDragging && r.window == NullHandle && r.mode == DragMode.None
    ensures r.start == s.start && r.original == s.original && r.aspect == s.aspect
  {
    s.(isDragging := false, window := NullHandle, mode := DragMode.None)
  }

  datatype MouseEvent = ButtonDown(pt: Point) | Moved(pt: Point) | ButtonUp(pt: Point) | OtherMessage

  /** What the hook callback did: whether it swallowed the event, and the new
      drag fields and desktop. */
  datatype HookResult = HookResult(consumed: bool, state: DragState, os: Os)

  /** The hook callback's dispatch of one mouse event. Moves and button-ups
      are swallowed exactly while a drag is in progress; other events pass
      through to the next hook untouched. */
  function HookCallback(s: DragState, m: WindowManager.Manager, os: Os, ctrl: bool, ev: MouseEvent): (r: HookResult)
    ensures ev.Moved? || ev.ButtonUp? ==> r.consumed == s.isDragging
    ensures (ev.Moved? || ev.ButtonUp?) && !s.isDragging ==> r.state == s && r.os == os
    ensures ev.Moved? ==> r.state == s
    ensures ev.ButtonUp? && s.isDragging ==>
      !r.state.isDragging && r.state.window == NullHandle && r.state.mode == DragMode.None && r.os == os
    ensures ev.ButtonDown? ==> r.os == os && (!r.consumed ==> r.state == s)
    ensures ev.ButtonDown? && r.consumed ==> r.state.isDragging && r.state.mode != DragMode.None
    ensures ev.OtherMessage? ==> r == HookResult(false, s, os)
    ensures r.state.isDragging && !s.isDragging ==> ev.ButtonDown? && r.consumed
    ensures ev.ButtonDown? ==> (r.consumed, r.state) == OnMouseDown(s, m, os, ctrl, ev.pt)
    ensures ev.Moved? && s.isDragging ==> r.os == OnMouseMove(s, os, ev.pt)
    ensures ev.ButtonUp? && s.isDragging ==> r.state == OnMouseUp(s)
  {
    match ev
    case ButtonDown(pt) =>
      var down := OnMouseDown(s, m, os, ctrl, pt);
      HookResult(down.0, down.1, os)
    case Moved(pt) =>
      if s.isDragging then HookResult(true, s, OnMouseMove(s, os, pt)) else HookResult(false, s, os)
    case ButtonUp(_) =>
      if s.isDragging then HookResult(true, OnMouseUp(s), os) else HookResult(false, s, os)
    case OtherMessage => HookResult(false, s, os)
  }

  /** Before any drag, the hook swallows nothing but a qualifying button-down:
      moves, button-ups and other messages pass through and change nothing. */
  lemma IdleHookPassesThrough(m: WindowManager.Manager, os: Os, ctrl: bool, ev: MouseEvent)
    requires !ev.ButtonDown?
    ensures HookCallback(InitialDrag(), m, os, ctrl, ev) == HookResult(false, InitialDrag(), os)
  {
  }

  /** A move drag of a window at least the minimum size keeps it exactly
      under the pointer: the rectangle is the original one shifted by the
      pointer's offset from the button-down point. */
  lemma {:induction false} MoveFollowsPointer(s: DragState, os: Os, pt: Point)
    requires s.isDragging && s.mode == Move && s.window != NullHandle && IsWindow(os, s.window)
    requires s.original.Width() >= MinSize && s.original.Height() >= MinSize
    ensures
      var dx, dy := pt.x - s.start.x, pt.y - s.start.y;
      var o := s.original;
      OnMouseMove(s, os, pt).windows[s.window].rect == Rect(o.left + dx, o.top + dy, o.right + dx, o.bottom + dy)
  {
    var dx, dy := pt.x - s.start.x, pt.y - s.start.y;
    var o := s.original;
    var p := Placement(o.left + dx, o.top + dy, o.Width(), o.Height());
    assert Target(s.mode, o, s.aspect, dx, dy) == Wrappers.Some(p);
    assert EnforceMinSize(p) == p;
  }
}
