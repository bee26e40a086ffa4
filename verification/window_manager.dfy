/** The window registry and the transformations it drives (WindowManager.cs):
    per-window opacity, borderless mode and ghost mode, each recorded in a
    `WindowInfo` keyed by window handle, with the original style and geometry
    snapshotted on first touch so that every change can be undone. */
module WindowManager {
  import opened Wrappers
  import opened Native
  import Numeric

  const MinOpacityPercent := 5
  const MaxOpacityPercent := 100

  /** Window classes of shell surfaces the engine never touches: the task
      bars, the start menu host, the desktop and its background. */
  const ExcludedClassNames: set<string> :=
    {"Shell_TrayWnd", "Shell_SecondaryTrayWnd", "Windows.UI.Core.CoreWindow", "Progman", "WorkerW"}

  /** The registry's record of one window. The handle is the registry key. */
  datatype WindowInfo = WindowInfo(
    opacityPercent: Byte,
    isBorderless: bool,
    isGhostMode: bool,
    originalStyle: bv32,
    originalExStyle: bv32,
    originalRect: Rect,
    currentGhostOpacity: Byte)
  {
    /** Some change of the engine is in effect on the window. */
    predicate HasModifications() {
      opacityPercent < 100 || isBorderless || isGhostMode
    }
  }

  /** The registry together with the two handles fixed at construction: the
      shell window and the engine's own host window. */
  datatype Manager = Manager(windows: map<Handle, WindowInfo>, shellWindow: Handle, ownHandle: Handle)

  /** The constructor: an empty registry, the engine's own window, and the
      shell window as `GetShellWindow` reports it. */
  function NewManager(ownHandle: Handle, shellWindow: Handle): (m: Manager)
    ensures m.windows == map[]
    ensures m.ownHandle == ownHandle && m.shellWindow == shellWindow
  {
    Manager(map[], shellWindow, ownHandle)
  }

  /** A new manager refuses the null handle, its own window and the shell
      window, whatever the desktop holds. */
  lemma NewManagerExclusions(ownHandle: Handle, shellWindow: Handle, os: Os)
    ensures var m := NewManager(ownHandle, shellWindow);
      && IsExcluded(m, os, NullHandle)
      && IsExcluded(m, os, ownHandle)
      && IsExcluded(m, os, shellWindow)
  {
  }

  /** Every registered opacity is one the user can reach: 5..100 percent. */
  ghost predicate OpacityInRange(m: Manager) {
    forall h :: h in m.windows ==> MinOpacityPercent <= m.windows[h].opacityPercent <= MaxOpacityPercent
  }

  /** The entries with some change in effect whose window is still alive. */
  function ModifiedWindows(m: Manager, os: Os): (r: map<Handle, WindowInfo>)
    ensures forall h :: h in r <==>
      h in m.windows && IsWindow(os, h)
      && (m.windows[h].opacityPercent < 100 || m.windows[h].isBorderless || m.windows[h].isGhostMode)
    ensures forall h :: h in r ==> r[h] == m.windows[h]
  {
    map h | h in m.windows && m.windows[h].HasModifications() && IsWindow(os, h) :: m.windows[h]
  }

  /** Handles the engine refuses to operate on. */
  predicate IsExcluded(m: Manager, os: Os, h: Handle) {
    || h == NullHandle
    || h == m.shellWindow
    || h == m.ownHandle
    || (var name := GetClassName(os, h); |name| > 0 && name in ExcludedClassNames)
  }

  /** The root owner of a window, or the window itself when it has none. */
  function GetTopLevelWindow(os: Os, h: Handle): (r: Handle)
    ensures h != NullHandle ==> r != NullHandle
    ensures IsWindow(os, h) && os.windows[h].rootOwner != NullHandle ==> r == os.windows[h].rootOwner
    ensures GetAncestor(os, h) == NullHandle ==> r == h
    ensures h == NullHandle ==> r == NullHandle
  {
    var ancestor := GetAncestor(os, h);
    if ancestor != NullHandle then ancestor else h
  }

  /** The registry entry of h, or a fresh one holding defaults and a snapshot
      of the window's current style, extended style and rectangle. */
  function GetOrCreateInfo(m: Manager, os: Os, h: Handle): (info: WindowInfo)
    ensures h in m.windows ==> info == m.windows[h]
    ensures h !in m.windows ==>
      && info.opacityPercent == 100 && !info.isBorderless && !info.isGhostMode
      && info.currentGhostOpacity == 255
      && info.originalStyle == GetStyle(os, h)
      && info.originalExStyle == GetExStyle(os, h)
      && info.originalRect == GetWindowRect(os, h).GetOr(Rect(0, 0, 0, 0))
    ensures h !in m.windows ==> !info.HasModifications()
  {
    if h in m.windows then m.windows[h]
    else
      WindowInfo(
        opacityPercent := 100,
        isBorderless := false,
        isGhostMode := false,
        originalStyle := GetStyle(os, h),
        originalExStyle := GetExStyle(os, h),
        originalRect := GetWindowRect(os, h).GetOr(Rect(0, 0, 0, 0)),
        currentGhostOpacity := 255)
  }

  /** Percent to 8-bit alpha: `(byte)(percent * 255 / 100)`, truncating. */
  function PercentToAlpha(percent: Byte): (a: Byte)
    ensures percent <= 100 ==> a * 100 <= percent * 255 < a * 100 + 100
    ensures percent == 100 ==> a == 255
  {
    ToByte(percent * 255 / 100)
  }

  /** Caption and thick frame removed, every other style bit kept. */
  function StripFrame(style: bv32): (s: bv32)
    ensures s & (WS_CAPTION | WS_THICKFRAME) == 0
    ensures s | (style & (WS_CAPTION | WS_THICKFRAME)) == style
  {
    style & !(WS_CAPTION | WS_THICKFRAME)
  }

  /** The extended style after the layering step: WS_EX_LAYERED is ORed in
      only when it is absent, which gives the same value as ORing it always. */
  function WithLayered(exStyle: bv32): (r: bv32)
    ensures r == exStyle | WS_EX_LAYERED
    ensures r & WS_EX_LAYERED != 0
  {
    if exStyle & WS_EX_LAYERED == 0 then exStyle | WS_EX_LAYERED else exStyle
  }

  /** Makes the window layered (SetWindowLongW of the extended style, only
      when the bit is absent) and writes its alpha (SetLayeredWindowAttributes):
      the step shared by ApplyOpacity and SetDirectOpacity. A dead window
      ignores both calls. */
  function SetAlpha(os: Os, h: Handle, alpha: Byte): (r: Os)
    ensures !IsWindow(os, h) ==> r == os
    ensures r.foreground == os.foreground && r.windows.Keys == os.windows.Keys
    ensures IsWindow(os, h) ==>
      r.windows[h] == os.windows[h].(exStyle := os.windows[h].exStyle | WS_EX_LAYERED, alpha := alpha)
    ensures forall g :: g in os.windows && g != h ==> r.windows[g] == os.windows[g]
  {
    if !IsWindow(os, h) then os
    else
      var w := os.windows[h];
      Update(os, h, w.(exStyle := WithLayered(w.exStyle), alpha := alpha))
  }

  /** Writing the same alpha twice is the same as writing it once. */
  lemma SetAlphaIdempotent(os: Os, h: Handle, alpha: Byte)
    ensures SetAlpha(SetAlpha(os, h, alpha), h, alpha) == SetAlpha(os, h, alpha)
  {
    if IsWindow(os, h) {
      var once := SetAlpha(os, h, alpha);
      var w := once.windows[h];
      assert WithLayered(w.exStyle) == w.exStyle;
      assert once.windows[h := w] == once.windows;
    }
  }

  /** Shows the window at a percentage of full opacity. */
  function ApplyOpacity(os: Os, h: Handle, percent: Byte): (r: Os)
    ensures !IsWindow(os, h) ==> r == os
    ensures r.foreground == os.foreground && r.windows.Keys == os.windows.Keys
    ensures IsWindow(os, h) ==>
      r.windows[h] == os.windows[h].(exStyle := os.windows[h].exStyle | WS_EX_LAYERED, alpha := PercentToAlpha(percent))
    ensures IsWindow(os, h) && percent == 100 ==> r.windows[h].alpha == 255
    ensures forall g :: g in os.windows && g != h ==> r.windows[g] == os.windows[g]
  {
    SetAlpha(os, h, PercentToAlpha(percent))
  }

  /** Writes a raw alpha (ghost mode) and records it as the window's current
      ghost alpha when the window is registered. */
  function SetDirectOpacity(m: Manager, os: Os, h: Handle, alpha: Byte): (r: (Manager, Os))
    ensures !IsWindow(os, h) ==> r == (m, os)
    ensures IsWindow(os, h) ==> r.1 == SetAlpha(os, h, alpha)
    ensures r.0.windows.Keys == m.windows.Keys
    ensures r.0.shellWindow == m.shellWindow && r.0.ownHandle == m.ownHandle
    ensures IsWindow(os, h) && h in m.windows ==>
      r.0.windows[h] == m.windows[h].(currentGhostOpacity := alpha)
    ensures forall g :: g in m.windows && (g != h || !IsWindow(os, h)) ==> r.0.windows[g] == m.windows[g]
    ensures OpacityInRange(m) ==> OpacityInRange(r.0)
  {
    if !IsWindow(os, h) then (m, os)
    else
      var os' := SetAlpha(os, h, alpha);
      if h in m.windows then
        (m.(windows := m.windows[h := m.windows[h].(currentGhostOpacity := alpha)]), os')
      else
        (m, os')
  }

  /** Raises or lowers a window's opacity by delta percent, clamped to 5..100. */
  function ChangeOpacity(m: Manager, os: Os, h: Handle, delta: int): (r: (Manager, Os))
    ensures IsExcluded(m, os, h) || !IsWindow(os, h) ==> r == (m, os)
    ensures r.0.shellWindow == m.shellWindow && r.0.ownHandle == m.ownHandle
    ensures r.1.foreground == os.foreground && r.1.windows.Keys == os.windows.Keys
    ensures !IsExcluded(m, os, h) && IsWindow(os, h) ==>
      && r.0.windows.Keys == m.windows.Keys + {h}
      && var before := GetOrCreateInfo(m, os, h).opacityPercent;
      var p := r.0.windows[h].opacityPercent;
      && MinOpacityPercent <= p <= MaxOpacityPercent
      && (MinOpacityPercent < p < MaxOpacityPercent ==> p == before + delta)
      && (p == MinOpacityPercent ==> before + delta <= MinOpacityPercent)
      && (p == MaxOpacityPercent ==> before + delta >= MaxOpacityPercent)
      && r.0.windows[h] == GetOrCreateInfo(m, os, h).(opacityPercent := p)
      && r.1 == ApplyOpacity(os, h, p)
      && r.1.windows[h] == os.windows[h].(exStyle := os.windows[h].exStyle | WS_EX_LAYERED, alpha := PercentToAlpha(p))
    ensures forall g :: g in m.windows && g != h ==> g in r.0.windows && r.0.windows[g] == m.windows[g]
    ensures forall g :: g in os.windows && g != h ==> g in r.1.windows && r.1.windows[g] == os.windows[g]
    ensures OpacityInRange(m) ==> OpacityInRange(r.0)
  {
    if IsExcluded(m, os, h) || !IsWindow(os, h) then (m, os)
    else
      var info := GetOrCreateInfo(m, os, h);
      var p := Numeric.Clamp(info.opacityPercent + delta, MinOpacityPercent, MaxOpacityPercent);
      (m.(windows := m.windows[h := info.(opacityPercent := p)]), ApplyOpacity(os, h, p))
  }

  /** Enters borderless mode: snapshots the current rectangle and style into
      the entry, strips caption and thick frame and, for a maximized window,
      stretches it over its monitor. `monitor` is the monitor rectangle the
      system reports, or None when it reports none. */
  function ApplyBorderless(os: Os, h: Handle, info: WindowInfo, monitor: Option<Rect>): (r: (WindowInfo, Os))
    requires IsWindow(os, h)
    ensures r.0 == info.(originalRect := os.windows[h].rect, originalStyle := os.windows[h].style)
    ensures r.1.foreground == os.foreground && r.1.windows.Keys == os.windows.Keys
    ensures forall g :: g in os.windows && g != h ==> r.1.windows[g] == os.windows[g]
    ensures r.1.windows[h].style == StripFrame(os.windows[h].style)
    ensures r.1.windows[h].rect ==
      (if os.windows[h].zoomed && monitor.Some? then monitor.value else os.windows[h].rect)
    ensures r.1.windows[h] == os.windows[h].(style := r.1.windows[h].style, rect := r.1.windows[h].rect)
  {
    var rect := GetWindowRect(os, h).GetOr(Rect(0, 0, 0, 0));
    var style := GetStyle(os, h);
    var saved := info.(originalRect := rect, originalStyle := style);
    var stripped := SetStyle(os, h, StripFrame(style));
    if IsZoomed(stripped, h) then
      match monitor
      case Some(mr) =>
        SetWindowPosToRect(stripped, h, mr);
        (saved, SetWindowPos(stripped, h, mr.left, mr.top, mr.Width(), mr.Height()))
      case None => (saved, stripped)
    else
      (saved, stripped)
  }

  /** Leaves borderless mode: writes back the saved style and rectangle. */
  function RestoreStyle(os: Os, h: Handle, info: WindowInfo): (r: Os)
    requires IsWindow(os, h)
    ensures r.foreground == os.foreground && r.windows.Keys == os.windows.Keys
    ensures forall g :: g in os.windows && g != h ==> r.windows[g] == os.windows[g]
    ensures r.windows[h] == os.windows[h].(style := info.originalStyle, rect := info.originalRect)
  {
    var styled := SetStyle(os, h, info.originalStyle);
    SetWindowPosToRect(styled, h, info.originalRect);
    SetWindowPos(styled, h, info.originalRect.left, info.originalRect.top,
                 info.originalRect.Width(), info.originalRect.Height())
  }

  /** Switches a window into or out of borderless mode. */
  function ToggleBorderless(m: Manager, os: Os, h: Handle, monitor: Option<Rect>): (r: (Manager, Os))
    ensures r.0.shellWindow == m.shellWindow && r.0.ownHandle == m.ownHandle
    ensures r.1.foreground == os.foreground && r.1.windows.Keys == os.windows.Keys
    ensures IsExcluded(m, os, h) || !IsWindow(os, h) ==> r == (m, os)
    ensures !IsExcluded(m, os, h) && IsWindow(os, h) ==>
      var info := GetOrCreateInfo(m, os, h);
      var w := os.windows[h];
      && r.0.windows.Keys == m.windows.Keys + {h}
      && r.0.windows[h].isBorderless == !info.isBorderless
      && r.0.windows[h].opacityPercent == info.opacityPercent
      && r.0.windows[h].isGhostMode == info.isGhostMode
      && r.0.windows[h].currentGhostOpacity == info.currentGhostOpacity
      && r.0.windows[h].originalExStyle == info.originalExStyle
      && (info.isBorderless ==>
            && r.0.windows[h] == info.(isBorderless := false)
            && r.1.windows[h] == w.(style := info.originalStyle, rect := info.originalRect))
      && (!info.isBorderless ==>
            && r.0.windows[h].originalStyle == w.style
            && r.0.windows[h].originalRect == w.rect
            && r.1.windows[h].style == StripFrame(w.style)
            && r.1.windows[h].rect == (if w.zoomed && monitor.Some? then monitor.value else w.rect)
            && r.1.windows[h] == w.(style := r.1.windows[h].style, rect := r.1.windows[h].rect))
    ensures forall g :: g in m.windows && g != h ==> g in r.0.windows && r.0.windows[g] == m.windows[g]
    ensures forall g :: g in os.windows && g != h ==> g in r.1.windows && r.1.windows[g] == os.windows[g]
    ensures OpacityInRange(m) ==> OpacityInRange(r.0)
  {
    if IsExcluded(m, os, h) || !IsWindow(os, h) then (m, os)
    else
      var info := GetOrCreateInfo(m, os, h);
      if info.isBorderless then
        (m.(windows := m.windows[h := info.(isBorderless := false)]), RestoreStyle(os, h, info))
      else
        var applied := ApplyBorderless(os, h, info, monitor);
        (m.(windows := m.windows[h := applied.0.(isBorderless := true)]), applied.1)
  }

  /** Switches ghost mode; leaving it shows the window at its own opacity again. */
  function ToggleGhostMode(m: Manager, os: Os, h: Handle): (r: (Manager, Os))
    ensures r.0.shellWindow == m.shellWindow && r.0.ownHandle == m.ownHandle
    ensures r.1.foreground == os.foreground && r.1.windows.Keys == os.windows.Keys
    ensures IsExcluded(m, os, h) || !IsWindow(os, h) ==> r == (m, os)
    ensures !IsExcluded(m, os, h) && IsWindow(os, h) ==>
      var info := GetOrCreateInfo(m, os, h);
      && r.0.windows.Keys == m.windows.Keys + {h}
      && r.0.windows[h] == info.(isGhostMode := !info.isGhostMode)
      && (!info.isGhostMode ==> r.1 == os)
      && (info.isGhostMode ==>
            && r.1 == ApplyOpacity(os, h, info.opacityPercent)
            && r.1.windows[h] == os.windows[h].(exStyle := os.windows[h].exStyle | WS_EX_LAYERED,
                                                alpha := PercentToAlpha(info.opacityPercent)))
    ensures forall g :: g in m.windows && g != h ==> g in r.0.windows && r.0.windows[g] == m.windows[g]
    ensures forall g :: g in os.windows && g != h ==> g in r.1.windows && r.1.windows[g] == os.windows[g]
    ensures OpacityInRange(m) ==> OpacityInRange(r.0)
  {
    if IsExcluded(m, os, h) || !IsWindow(os, h) then (m, os)
    else
      var info := GetOrCreateInfo(m, os, h);
      var toggled := info.(isGhostMode := !info.isGhostMode);
      var m' := m.(windows := m.windows[h := toggled]);
      if !toggled.isGhostMode then (m', ApplyOpacity(os, h, toggled.opacityPercent)) else (m', os)
  }

  /** The state `ResetAll` leaves a live registered window in: fully opaque,
      layered, and back on its saved style and rectangle if it was borderless. */
  predicate ResetTo(before: Win, after: Win, info: WindowInfo) {
    after == before.(
      exStyle := before.exStyle | WS_EX_LAYERED,
      alpha := 255,
      style := if info.isBorderless then info.originalStyle else before.style,
      rect := if info.isBorderless then info.originalRect else before.rect)
  }

  /** One step of `ResetAll`: a live window is made fully opaque and, if its
      entry is borderless, put back on its saved style and rectangle. */
  function ResetWindow(os: Os, h: Handle, info: WindowInfo): (r: Os)
    ensures !IsWindow(os, h) ==> r == os
    ensures r.foreground == os.foreground && r.windows.Keys == os.windows.Keys
    ensures IsWindow(os, h) ==> ResetTo(os.windows[h], r.windows[h], info)
    ensures forall g :: g in os.windows && g != h ==> r.windows[g] == os.windows[g]
  {
    if !IsWindow(os, h) then os
    else
      var shown := ApplyOpacity(os, h, 100);
      if info.isBorderless then RestoreStyle(shown, h, info) else shown
  }

  /** Emergency reset: every registered window that is still alive is made
      fully opaque and, if borderless, restored; then the registry is cleared. */
  method ResetAll(m: Manager, os: Os) returns (m': Manager, os': Os)
    ensures m'.windows == map[]
    ensures m'.shellWindow == m.shellWindow && m'.ownHandle == m.ownHandle
    ensures ModifiedWindows(m', os') == map[]
    ensures os'.foreground == os.foreground && os'.windows.Keys == os.windows.Keys
    ensures forall h :: IsWindow(os, h) && h in m.windows ==> ResetTo(os.windows[h], os'.windows[h], m.windows[h])
    ensures forall h :: h in os.windows && (h !in m.windows || !IsWindow(os, h)) ==> os'.windows[h] == os.windows[h]
  {
    var pending := m.windows.Keys;
    os' := os;
    while pending != {}
      invariant pending <= m.windows.Keys
      invariant os'.foreground == os.foreground && os'.windows.Keys == os.windows.Keys
      invariant forall h :: h in os.windows && (h !in m.windows || h in pending || !IsWindow(os, h)) ==> os'.windows[h] == os.windows[h]
      invariant forall h :: IsWindow(os, h) && h in m.windows && h !in pending ==>
        ResetTo(os.windows[h], os'.windows[h], m.windows[h])
      decreases pending
    {
      var h := Numeric.PickMember(pending);
      pending := pending - {h};
      os' := ResetWindow(os', h, m.windows[h]);
    }
    m' := m.(windows := map[]);
  }

  /** Drops the entries whose window no longer exists. */
  function Cleanup(m: Manager, os: Os): (r: Manager)
    ensures forall h :: h in r.windows <==> h in m.windows && IsWindow(os, h)
    ensures forall h :: h in r.windows ==> r.windows[h] == m.windows[h]
    ensures r.shellWindow == m.shellWindow && r.ownHandle == m.ownHandle
    ensures OpacityInRange(m) ==> OpacityInRange(r)
  {
    m.(windows := map h | h in m.windows && IsWindow(os, h) :: m.windows[h])
  }

  /** Cleanup changes nothing any sweep can observe: the modified live
      windows are the same before and after, and a second cleanup is a no-op. */
  lemma CleanupUnobservable(m: Manager, os: Os)
    ensures ModifiedWindows(Cleanup(m, os), os) == ModifiedWindows(m, os)
    ensures Cleanup(Cleanup(m, os), os) == Cleanup(m, os)
  {
  }

  /** Two desktops that agree on the foreground, on the set of live windows
      and on every window record are equal. */
  lemma SameExceptAt(a: Os, b: Os, h: Handle)
    requires a.foreground == b.foreground && a.windows.Keys == b.windows.Keys
    requires h in a.windows && a.windows[h] == b.windows[h]
    requires forall g :: g in b.windows && g != h ==> a.windows[g] == b.windows[g]
    ensures a == b
  {
    assert a.windows == b.windows;
  }

  /** Toggling borderless mode twice on a window that is not borderless puts
      the window back exactly as it was (style, rectangle and every other
      attribute), whatever the monitor reports in between. */
  lemma BorderlessRoundTrip(m: Manager, os: Os, h: Handle, monitor1: Option<Rect>, monitor2: Option<Rect>)
    requires IsWindow(os, h) && !IsExcluded(m, os, h)
    requires h !in m.windows || !m.windows[h].isBorderless
    ensures
      var once := ToggleBorderless(m, os, h, monitor1);
      var twice := ToggleBorderless(once.0, once.1, h, monitor2);
      && twice.1 == os
      && twice.0.windows[h].isBorderless == false
      && twice.0.windows[h].originalStyle == os.windows[h].style
      && twice.0.windows[h].originalRect == os.windows[h].rect
  {
    var w := os.windows[h];
    var once := ToggleBorderless(m, os, h, monitor1);
    var info1 := once.0.windows[h];
    assert info1.isBorderless && info1.originalStyle == w.style && info1.originalRect == w.rect;
    assert IsWindow(once.1, h) && GetClassName(once.1, h) == GetClassName(os, h);
    assert !IsExcluded(once.0, once.1, h);
    var twice := ToggleBorderless(once.0, once.1, h, monitor2);
    assert GetOrCreateInfo(once.0, once.1, h) == info1;
    assert twice.1.windows[h] == once.1.windows[h].(style := w.style, rect := w.rect);
    assert twice.1.windows[h] == w;
    SameExceptAt(twice.1, os, h);
  }

  /** Turning ghost mode on and off again leaves the entry as it was before
      (created with defaults if it was missing) and the window shown at its
      configured opacity. */
  lemma GhostRoundTrip(m: Manager, os: Os, h: Handle)
    requires IsWindow(os, h) && !IsExcluded(m, os, h)
    requires h !in m.windows || !m.windows[h].isGhostMode
    ensures
      var info := GetOrCreateInfo(m, os, h);
      var once := ToggleGhostMode(m, os, h);
      var twice := ToggleGhostMode(once.0, once.1, h);
      && twice.0 == m.(windows := m.windows[h := info])
      && twice.1 == ApplyOpacity(os, h, info.opacityPercent)
  {
    var info := GetOrCreateInfo(m, os, h);
    var once := ToggleGhostMode(m, os, h);
    assert once.1 == os;
    assert once.0 == m.(windows := m.windows[h := info.(isGhostMode := true)]);
    assert GetOrCreateInfo(once.0, once.1, h) == info.(isGhostMode := true);
    assert !IsExcluded(once.0, once.1, h);
    assert once.0.windows[h := info] == m.windows[h := info];
  }
}
