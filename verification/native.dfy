/** The part of the Win32 surface the engine touches (NativeMethods.cs): the
    RECT and POINT structures, the style masks, and an abstract desktop state
    standing in for the operating system. Every Win32 call the engine makes is
    a pure function on that state; a call on a handle that is not a live
    window reads zero or fails and writes nothing, as the real API does. */
module Native {
  import opened Wrappers

  /** An unsigned 8-bit value: alphas and `WindowInfo.OpacityPercent`. */
  type Byte = x: int | 0 <= x < 256

  /** C#'s unchecked `(byte)` cast of an int keeps the low eight bits. */
  function ToByte(x: int): (b: Byte)
    ensures 0 <= x < 256 ==> b == x
    ensures (x - b) % 256 == 0
  {
    x % 256
  }

  /** A window handle; zero is the null handle. */
  type Handle = int
  const NullHandle: Handle := 0

  const WS_CAPTION: bv32 := 0x00C0_0000
  const WS_THICKFRAME: bv32 := 0x0004_0000
  const WS_EX_LAYERED: bv32 := 0x0008_0000

  datatype Point = Point(x: int, y: int)

  /** RECT: the four edges in screen coordinates. Width and height are the
      differences of opposite edges and may be negative for a degenerate
      rectangle. */
  datatype Rect = Rect(left: int, top: int, right: int, bottom: int) {

    function Width(): int { right - left }

    function Height(): int { bottom - top }

    /** The point lies in the rectangle, boundary included. */
    predicate Contains(p: Point) {
      left <= p.x <= right && top <= p.y <= bottom
    }

    predicate WellFormed() {
      left <= right && top <= bottom
    }
  }

  /** What the operating system knows about one live top-level window. */
  datatype Win = Win(
    style: bv32,        // GWL_STYLE
    exStyle: bv32,      // GWL_EXSTYLE
    rect: Rect,         // GetWindowRect
    zoomed: bool,       // IsZoomed
    className: string,  // GetClassName
    alpha: Byte,        // last SetLayeredWindowAttributes alpha
    rootOwner: Handle   // GetAncestor(GA_ROOTOWNER)
  )

  /** The desktop: the live windows by handle, and the foreground window. */
  datatype Os = Os(windows: map<Handle, Win>, foreground: Handle)

  /** `IsWindow`: the null handle is never a window, whatever the map holds. */
  predicate IsWindow(os: Os, h: Handle) {
    h != NullHandle && h in os.windows
  }

  function GetStyle(os: Os, h: Handle): bv32 {
    if IsWindow(os, h) then os.windows[h].style else 0
  }

  function GetExStyle(os: Os, h: Handle): bv32 {
    if IsWindow(os, h) then os.windows[h].exStyle else 0
  }

  function GetWindowRect(os: Os, h: Handle): Option<Rect> {
    if IsWindow(os, h) then Some(os.windows[h].rect) else None
  }

  predicate IsZoomed(os: Os, h: Handle) {
    IsWindow(os, h) && os.windows[h].zoomed
  }

  function GetClassName(os: Os, h: Handle): string {
    if IsWindow(os, h) then os.windows[h].className else ""
  }

  function GetAncestor(os: Os, h: Handle): Handle {
    if IsWindow(os, h) then os.windows[h].rootOwner else NullHandle
  }

  /** Replaces the record of a live window; a dead handle is left alone. */
  function Update(os: Os, h: Handle, w: Win): (r: Os)
    ensures r.foreground == os.foreground
    ensures r.windows.Keys == os.windows.Keys
    ensures IsWindow(os, h) ==> r.windows[h] == w
    ensures forall g :: g in os.windows && g != h ==> r.windows[g] == os.windows[g]
  {
    if IsWindow(os, h) then os.(windows := os.windows[h := w]) else os
  }

  function SetStyle(os: Os, h: Handle, style: bv32): Os {
    if IsWindow(os, h) then Update(os, h, os.windows[h].(style := style)) else os
  }

  function SetExStyle(os: Os, h: Handle, exStyle: bv32): Os {
    if IsWindow(os, h) then Update(os, h, os.windows[h].(exStyle := exStyle)) else os
  }

  /** SetWindowPos with a position and a size: the window then occupies
      [x, x+cx] by [y, y+cy]. */
  function SetWindowPos(os: Os, h: Handle, x: int, y: int, cx: int, cy: int): Os {
    if IsWindow(os, h) then Update(os, h, os.windows[h].(rect := Rect(x, y, x + cx, y + cy))) else os
  }

  function SetLayeredWindowAttributes(os: Os, h: Handle, alpha: Byte): Os {
    if IsWindow(os, h) then Update(os, h, os.windows[h].(alpha := alpha)) else os
  }

  /** Moving a window to the position and size of a rectangle puts it exactly
      on that rectangle. */
  lemma {:induction false} SetWindowPosToRect(os: Os, h: Handle, r: Rect)
    requires IsWindow(os, h)
    ensures SetWindowPos(os, h, r.left, r.top, r.Width(), r.Height()) == Update(os, h, os.windows[h].(rect := r))
  {
    assert Rect(r.left, r.top, r.left + r.Width(), r.top + r.Height()) == r;
  }
}
