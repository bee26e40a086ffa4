# yhwndy window engine — a Dafny model

yhwndy is a Windows tray utility that changes top-level windows of other
applications from global hotkeys and a low-level mouse hook. This project
models its engine: the three C# classes that hold and apply the changes.

- **WindowManager** (`window_manager.dfy`) is the registry. It keeps one
  `WindowInfo` per touched window: opacity percent, borderless flag, ghost
  flag, the style and rectangle saved on first touch, and the last alpha the
  ghost timer wrote. It implements opacity steps (clamped to 5..100 %),
  borderless mode on and off, ghost mode on and off, the emergency
  "reset all", and the purge of dead handles.
- **MouseHook** (`mouse_hook.dfy`) is the Ctrl+drag gesture. A button-down
  on the foreground window picks a mode from the pointer position: a
  corner, an edge or the middle (move). Each later mouse-move computes the
  window's new position and size, with aspect-ratio-preserving corner
  resizes and a 50 px minimum. Button-up ends the drag.
- **GhostModeManager** (`ghost_mode.dfy`) is the ghost timer. Each tick, a
  window in ghost mode gets an alpha from the pointer's distance to its
  rectangle:
  - nearly transparent (13) closer than 50 px;
  - its own opacity from 150 px on;
  - linear in between.

  While Ctrl is held, the window is shown at its own opacity.
  A tick writes the window only when the alpha recorded in the entry differs
  from the target. Toggling ghost mode does not refresh that record, so it
  can go stale; `GhostModeManager.StaleGhostAlphaExample` shows a window
  left fully opaque with the pointer inside it.

The operating system is an explicit value: `Native.Os` maps each live window
handle to its style bits, extended style bits, rectangle, maximized flag,
class name, alpha and root owner, together with the foreground window. Each
Win32 call the engine makes is a pure function on that value, and a call on
a dead handle writes nothing. The null handle is never a live window. The
pointer position, the Ctrl key state and the monitor rectangle are
parameters of the operations that read them.

C# `int` arithmetic is modelled with unbounded integers. The `(byte)` casts,
the truncating divisions and the `(int)` casts of doubles are written out.
`Math.Sqrt` is replaced by exact integer square roots. Lemma
`GhostModeManager.ExactAlphaAgrees` proves that the resulting alpha equals
the one the real-valued formula gives.

The model follows the code as written:
- the drag acts on the foreground window, not on the window under the
  pointer;
- any non-excluded, non-maximized window can be dragged, whether or not it
  is in ghost mode;
- the hook tracks the geometry itself on every mouse-move sample;
- "reset all" visits every registry entry whose window is alive, modified
  or not.

## Model

| member | source | states |
|---|---|---|
| Native.ToByte | src/yhwndy/WindowManager.cs:145 | the unchecked byte cast keeps values 0..255 and is otherwise congruent modulo 256 |
| Native.SetWindowPosToRect | src/yhwndy/WindowManager.cs:236-239 | a window moved to a rectangle's position and size ends up on exactly that rectangle |
| Numeric.Clamp | src/yhwndy/WindowManager.cs:129 | the result lies in [lo, hi], equals the input when the input is in range, and equals the nearer bound otherwise |
| Numeric.TruncQuot | src/yhwndy/MouseHook.cs:192 | the quotient rounds toward zero, as the `(int)` cast does: q*b is the multiple of b nearest to a on the side of zero, so for b > 0 it is q*b <= a < (q+1)*b when a >= 0 and (q-1)*b < a <= q*b when a < 0 |
| Numeric.TruncQuotUnique | src/yhwndy/MouseHook.cs:192 | that characterization of rounding toward zero admits exactly one quotient |
| Numeric.TruncQuotBracket | src/yhwndy/MouseHook.cs:192 | for a non-negative product, the truncated quotient q satisfies q*b <= x*y < (q+1)*b |
| Numeric.ISqrt | src/yhwndy/GhostModeManager.cs:86 | the integer square root r satisfies r*r <= n < (r+1)*(r+1) |
| Numeric.CeilSqrt | src/yhwndy/GhostModeManager.cs:86 | the result is the least r with n <= r*r |
| Numeric.FloorOfRoot | src/yhwndy/GhostModeManager.cs:86 | the floor of the real square root of n is the integer square root of n |
| Numeric.FloorOfNegRoot | src/yhwndy/GhostModeManager.cs:86 | the floor of minus the real square root of n is minus the ceiling root of n |
| Numeric.FloorShiftDiv | src/yhwndy/GhostModeManager.cs:110-112 | the floor of b + (x - c)/100 equals b + (floor(x) - c) div 100 |
| WindowManager.NewManager | src/yhwndy/WindowManager.cs:62-66 | a new manager has an empty registry and holds the engine's own window and the shell window it was given |
| WindowManager.NewManagerExclusions | src/yhwndy/WindowManager.cs:72-75 | a new manager refuses the null handle, its own window and the shell window on every desktop |
| WindowManager.ModifiedWindows | src/yhwndy/WindowManager.cs:69 | a handle is listed iff it is registered, its window is alive, and it has opacity below 100, borderless mode or ghost mode; listed entries are the registered ones |
| WindowManager.GetTopLevelWindow | src/yhwndy/WindowManager.cs:91-95 | the result is the root owner whenever the window is alive and has a non-null one, and the handle itself when the ancestor query returns null; it is null exactly for the null handle |
| WindowManager.GetOrCreateInfo | src/yhwndy/WindowManager.cs:98-112 | an existing entry is returned as is; a new one is 100 %, not borderless, not ghost, ghost alpha 255, holds the window's current style, extended style and rectangle, and has no modification |
| WindowManager.PercentToAlpha | src/yhwndy/WindowManager.cs:145 | for 0..100 % the alpha is the truncated percent*255/100 (a*100 <= p*255 < a*100+100), so 100 % is alpha 255 |
| WindowManager.StripFrame | src/yhwndy/WindowManager.cs:202 | the result has neither caption nor thick-frame bit, and OR-ing back the original's frame bits gives the original style |
| WindowManager.WithLayered | src/yhwndy/WindowManager.cs:140-143 | the layered bit is set and no other bit changes |
| WindowManager.SetAlpha | src/yhwndy/WindowManager.cs:150-159 | a live window becomes layered and has exactly the given alpha; every other window and every other attribute is unchanged; a dead handle changes nothing |
| WindowManager.SetAlphaIdempotent | src/yhwndy/WindowManager.cs:139-146 | writing the same alpha twice is the same as writing it once |
| WindowManager.ApplyOpacity | src/yhwndy/WindowManager.cs:136-147 | a live window becomes layered with alpha PercentToAlpha(percent), and 100 % is fully opaque; nothing else changes; a dead handle changes nothing |
| WindowManager.SetDirectOpacity | src/yhwndy/WindowManager.cs:150-167 | writes the alpha to a live window and records it as the entry's current ghost alpha when the window is registered; never adds or removes entries and keeps opacities in 5..100 % |
| WindowManager.ChangeOpacity | src/yhwndy/WindowManager.cs:123-133 | excluded or dead windows are untouched; otherwise the entry is created if needed, the new percent is old+delta clamped to 5..100 (each bound hit only when old+delta reaches it), and the window is exactly ApplyOpacity at that percent: layered with its alpha, nothing else changed |
| WindowManager.ApplyBorderless | src/yhwndy/WindowManager.cs:192-227 | saves the current rectangle and style, strips the frame bits, and moves the window onto the monitor rectangle exactly when it is maximized and a monitor is known; every other attribute and window is unchanged |
| WindowManager.RestoreStyle | src/yhwndy/WindowManager.cs:230-240 | the window gets back exactly the saved style and rectangle, and nothing else changes |
| WindowManager.ToggleBorderless | src/yhwndy/WindowManager.cs:170-189 | flips the borderless flag of a live non-excluded window and keeps its other settings; switching on snapshots and strips the frame, switching off restores the snapshot; other windows and entries are unchanged |
| WindowManager.BorderlessRoundTrip | src/yhwndy/WindowManager.cs:170-240 | toggling borderless twice from non-borderless leaves the window exactly as before, whatever monitor is reported, and the entry holds the original style and rectangle |
| WindowManager.ToggleGhostMode | src/yhwndy/WindowManager.cs:243-256 | flips the ghost flag of a live non-excluded window; switching on writes nothing, switching off is exactly ApplyOpacity at the window's own percent, with no other attribute changed |
| WindowManager.GhostRoundTrip | src/yhwndy/WindowManager.cs:243-256 | ghost on then off leaves the registry as if the entry had just been fetched, and the window shown at its configured opacity |
| WindowManager.ResetWindow | src/yhwndy/WindowManager.cs:263-272 | a live window ends fully opaque and layered, back on its saved style and rectangle if it was borderless; other windows are unchanged; a dead handle changes nothing |
| WindowManager.ResetAll | src/yhwndy/WindowManager.cs:259-281 | the registry ends empty, so nothing is modified; every live registered window is reset as ResetWindow states; unregistered windows are untouched |
| WindowManager.Cleanup | src/yhwndy/WindowManager.cs:284-291 | keeps exactly the entries whose window is alive, unchanged |
| WindowManager.CleanupUnobservable | src/yhwndy/WindowManager.cs:284-291 | cleanup does not change the set of modified windows, and a second cleanup does nothing |
| MouseHook.InitialDrag | src/yhwndy/MouseHook.cs:36-41 | a new hook is not dragging, has no drag window and no drag mode |
| MouseHook.IdleHookPassesThrough | src/yhwndy/MouseHook.cs:72-105 | before any drag, moves, button-ups and other messages are passed on and change neither the drag fields nor any window |
| MouseHook.GetDragMode | src/yhwndy/MouseHook.cs:269-290 | the mode is the product of the two axis bands (16 px from each edge): both bands near an edge give a corner, one gives an edge, none gives a move; it is never None |
| MouseHook.CornersBeforeEdges | src/yhwndy/MouseHook.cs:276-286 | a point within 16 px of two edges resizes from their common corner, in the order the source tests the corners |
| MouseHook.CursorFor | src/yhwndy/MouseHook.cs:292-302 | each cursor id is shown for exactly its modes: arrow for none, size-all for move, north-south, west-east and the two diagonals for their edges and corners |
| MouseHook.HeightFromWidth | src/yhwndy/MouseHook.cs:192 | defined iff the ratio's numerator is non-zero; an infinite ratio gives 0; otherwise the result is width/ratio rounded toward zero, for widths of either sign (a corner dragged past the opposite edge) |
| MouseHook.WidthFromHeight | src/yhwndy/MouseHook.cs:197 | defined iff the ratio's denominator is non-zero; then the result is height*ratio rounded toward zero, for heights of either sign |
| MouseHook.Target | src/yhwndy/MouseHook.cs:157-185 | a move shifts the window by the pointer delta at its original size; each edge resize moves only that edge by the delta along its axis; no mode keeps the original rectangle |
| MouseHook.CornerAnchors | src/yhwndy/MouseHook.cs:187-246 | a corner resize keeps the opposite corner fixed |
| MouseHook.CornerKeepsAspect | src/yhwndy/MouseHook.cs:187-246 | a corner resize follows the pointer on the axis that moved strictly more and derives the other side from the original aspect ratio, rounded toward zero for positive and negative sizes alike |
| MouseHook.CornerExample | src/yhwndy/MouseHook.cs:187-199 | a 200x100 window dragged by its south-east corner by (40, 5) becomes 240x120 at the same position |
| MouseHook.EnforceMinSize | src/yhwndy/MouseHook.cs:249-251 | width and height become max(size, 50): exactly 50 below the floor, unchanged otherwise; the position is unchanged |
| MouseHook.OnMouseDown | src/yhwndy/MouseHook.cs:107-148 | a drag starts iff Ctrl is held, the foreground root window is non-null, not excluded, not maximized, alive, and contains the point; it then records the window, mode, start point, rectangle and aspect ratio; otherwise the state is unchanged |
| MouseHook.OnMouseMove | src/yhwndy/MouseHook.cs:150-256 | without a drag nothing changes; otherwise only the dragged window's rectangle changes: its corner is the target's, and its width and height are the target's raised to at least 50 |
| MouseHook.MoveFollowsPointer | src/yhwndy/MouseHook.cs:164-167 | during a move drag of a window at least 50x50, the window keeps its size and is offset from its original position by exactly the pointer's displacement |
| MouseHook.OnMouseUp | src/yhwndy/MouseHook.cs:258-266 | the drag ends, window and mode are cleared, and start point, rectangle and aspect ratio are kept |
| MouseHook.HookCallback | src/yhwndy/MouseHook.cs:72-105 | moves and button-ups are swallowed iff a drag is in progress; a button-down is swallowed iff a drag starts; other messages pass through unchanged; only a swallowed button-down starts a drag; a button-down is decided by OnMouseDown, a move during a drag is OnMouseMove, and a button-up during a drag is OnMouseUp |
| GhostModeManager.NearestPoint | src/yhwndy/GhostModeManager.cs:80-81 | the clamped point lies in a well-formed rectangle and is the pointer itself when the pointer is inside |
| GhostModeManager.SquaredDistance | src/yhwndy/GhostModeManager.cs:71-87 | the squared distance is zero inside the rectangle and, for a well-formed rectangle, zero only inside |
| GhostModeManager.DistanceIsMinimal | src/yhwndy/GhostModeManager.cs:79-86 | no point of the rectangle is closer to the pointer than the computed distance |
| GhostModeManager.DistanceIsAttained | src/yhwndy/GhostModeManager.cs:79-86 | the computed distance is the distance to the clamped point, which lies in the rectangle |
| GhostModeManager.CalculateOpacity | src/yhwndy/GhostModeManager.cs:95-113 | alpha is 13 below 50 px and the window's own alpha from 150 px on, and in between it lies between those two values |
| GhostModeManager.HalfWayExample | src/yhwndy/GhostModeManager.cs:109-112 | at 100 px, a 100 % window gets alpha 134 |
| GhostModeManager.OpacityMonotone | src/yhwndy/GhostModeManager.cs:95-113 | alpha is monotone in the distance: non-decreasing when the window's own alpha is at least 13, non-increasing otherwise |
| GhostModeManager.AlphaFromSquaredDistance | src/yhwndy/GhostModeManager.cs:58-59 | from the squared distance: 13 below 50*50, the window's own alpha from 150*150 on, and between the two in between |
| GhostModeManager.ExactAlphaAgrees | src/yhwndy/GhostModeManager.cs:58-59 | for any distance whose square is the integer squared distance, the real formula and the integer one give the same alpha |
| GhostModeManager.HalfWayExactExample | src/yhwndy/GhostModeManager.cs:109-112 | the integer formula also gives alpha 134 at squared distance 10000 for a 100 % window |
| GhostModeManager.TickWindow | src/yhwndy/GhostModeManager.cs:41-64 | a window not in ghost mode or dead is untouched; otherwise the entry records the target alpha (own opacity under Ctrl, else the distance curve), and the window is made layered at that alpha only when the recorded alpha differed; when it was equal, the window is left as it is |
| GhostModeManager.OnTimerTick | src/yhwndy/GhostModeManager.cs:30-66 | without a pointer position nothing changes; windows not in ghost mode are untouched; every ghost entry records its target alpha and its window is rewritten only when the recorded alpha differed; no entry is added or removed |
| GhostModeManager.StaleGhostAlphaExample | src/yhwndy/GhostModeManager.cs:41-64 | the recorded alpha can go stale: ghost on, a tick with the pointer inside (alpha 13, recorded 13), ghost off (alpha 255, still recorded 13), ghost on, and a tick with the pointer inside writes nothing, so the window stays at 255 although its target is 13 |

## Left out

- Hook installation and removal, `CallNextHookEx`, the `nCode` check, cursor loading and `SetCursor` (MouseHook.cs). These are system plumbing; which cursor a mode shows is modelled by `MouseHook.CursorFor`.
- The WinForms timer and `Dispose` (GhostModeManager.cs). These are system plumbing; one tick is `GhostModeManager.OnTimerTick`.
- `GetAsyncKeyState`, `GetCursorPos`, `MonitorFromWindow` and `GetMonitorInfo`. Their results are parameters: `ctrl`, `cursor` (None when the position cannot be read), and `monitor` (None when no monitor is reported).
- The `SetWindowPos` flags: z-order, activation and frame-change notification. The model records only position and size, and the system is assumed not to change the maximized flag.
- The `Handle` field of `WindowInfo`. The registry key plays its role, since the code always stores an entry under its own handle.
- `GetClassName`'s 256-character buffer. Win32 class names are at most 256 characters, so no excluded name is cut.
- `MainForm`, `HotkeyManager`, `StartupManager` and `Program`: the tray UI, the hotkey registration, the autostart registry entry and the entry point. `WindowManager.Cleanup` is modelled although the application never calls it.
- `IsExcluded` transcribes WindowManager.cs:72-88 as a predicate, and `HasModifications` transcribes WindowManager.cs:39. Neither carries a contract of its own. The contracts of `ChangeOpacity`, `ToggleBorderless`, `ToggleGhostMode` and `OnMouseDown` state that an excluded handle is a no-op. `ModifiedWindows` spells out `HasModifications`.
- Rejected native writes. Every `SetWindowLongW`, `SetWindowPos` and `SetLayeredWindowAttributes` on a live window is assumed to succeed, although the code ignores their results and the system can refuse them (for example, for a window of a more privileged process). The statements about the desktop rest on this assumption: the exact window records of `ChangeOpacity`, `ToggleBorderless`, `ToggleGhostMode` and `OnMouseMove`, `ResetTo` in `ResetAll`, and the restored desktop in `BorderlessRoundTrip`. The registry side of each contract does not depend on it, since the code updates the registry whatever the writes do.
- Double rounding. Distances, aspect ratios and interpolation are exact: `Math.Sqrt` becomes the exact integer roots, and the aspect ratio becomes the exact fraction width/height.
- WindowManager.ChangeOpacity: does not model the 32-bit overflow of `OpacityPercent + delta` for deltas near ±2^31. The application only passes ±5.
- MouseHook.OnMouseMove: when the aspect ratio is 0 or not a number (a zero-width rectangle), or the width is derived from an infinite ratio, the C# `(int)` cast of the non-finite quotient is platform-dependent. The model writes nothing for such a sample instead of some unspecified size.
- MouseHook.Target: coordinates and sizes are unbounded integers, so the 32-bit wrap-around of `left + dx` and similar sums is not modelled.
