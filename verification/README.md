# HandyControl window chrome, glow border and tray icon, in Dafny

This project models the integer, bitmask and state-machine logic behind HandyControl's custom
window chrome:

- **The glow border.** Four layered "glow windows" (one per `Dock` side) follow the target
  window. Each holds its bounds, visibility, activity and two glow colours. Changes set bits in a
  dirty set (`FieldInvalidationTypes`). `CommitChanges` turns the dirty set into at most one
  `SetWindowPos` and a re-render: when the position is stale the window is moved and repainted
  at once, otherwise the repaint waits for the next frame. It also clears the bitmap cache of a
  colour that changed.
- **Deferral.** The owning window defers commits while a `ChangeScope` is open. The last scope
  to close commits every glow window.
- **Strip drawing.** The premultiplied-alpha bitmaps are filled from the alpha masks. Each strip
  is tiled from its five or three parts.
- **Window chrome decisions.**
  - which clip region to install and when;
  - what change a `WM_WINDOWPOSCHANGED` reports;
  - the "logical size for restore" hand-off between `WM_SYSCOMMAND` and `WM_WINDOWPOSCHANGING`;
  - the maximized `WM_NCCALCSIZE` adjustment and the one-pixel non-client strip;
  - the system-menu enable table;
  - the quadrants of a per-corner rounded region;
  - the pressed-button mask;
  - forwarding of non-client right-button messages.
- **Win32 helpers.**
  - sign-extending 16-bit parameter packing (`LoWord`, `HiWord`, `MakeParam`);
  - `GET_SC_WPARAM`;
  - `RECT` arithmetic in wrapping 32-bit `int`.
- **`ArithmeticHelper`.** The even integer split, and the choice of the display for a window.
- **Lifecycles.** Dispose-once (`DisposableObject`), lazy window and class creation
  (`HwndWrapper`), and the tray icon state machine (`NotifyIcon`).

## How it is modelled

- Native calls are parameters (what `GetWindowPlacement`, `ScreenToClient` or `IsKeyPressed`
  return) or recorded effects: an `Effect`/`Call` datatype that a step returns next to the new
  state.
- C# `int` arithmetic wraps: `Int32.Wrap`.
- C# `/` and `%` truncate toward zero: `Int32.Quot` and `Int32.Rem`.
- Casts to `short` are `Int32.ToShort`.
- Bit sets keep the source's constants, as `bv8` for `FieldInvalidationTypes` and `bv32` for
  `SWP_*`, `MK_*` and `TPM_*`.
- The glow bitmap caches are maps from bitmap part to the colour the cached bitmap was made
  with. So "the cache matches the current colour" is a predicate (`CacheCoherent`,
  `CachesCurrent`).
- The owning window keeps its loaded glow windows as a `map<Dock, Glow>`.

Modules (one file each):

| module | models |
|---|---|
| `Wrappers`, `Int32` | `Option`/`Result`; C# 32-bit and 16-bit integer semantics |
| `NativeMethods` | `Tools/Interop/NativeMethods.cs`: packing, `GET_SC_WPARAM`, `RECT`, `IntersectRect`, the structs |
| `ArithmeticHelper` | `Tools/Helper/ArithmeticHelper.cs` |
| `DisposableObject`, `HwndWrapper` | `Data/GlowWindow/` |
| `NotifyIcon` | `Controls/Other/NotifyIcon.cs` |
| `GlowBitmap`, `GlowLayout`, `GlowWindow`, `GlowHost`, `ChromeWindow` | `Controls/Window/CustomChromeWindow.cs` |

## Model

Source paths are relative to the repository root.

| member | source | states |
|---|---|---|
| NativeMethods.LoWord | src/Shared/HandyControl_Shared/Tools/Interop/NativeMethods.cs:338 | the low word is a 16-bit signed value congruent to the input modulo 2^16 (so it lies in [-32768, 32767]) |
| NativeMethods.HiWord | src/Shared/HandyControl_Shared/Tools/Interop/NativeMethods.cs:342 | the high word is the input's arithmetic shift right by 16: a short `h` with `h*65536 <= value < h*65536 + 65536` |
| NativeMethods.MakeParam | src/Shared/HandyControl_Shared/Tools/Interop/NativeMethods.cs:505 | the packed value agrees with the low word modulo 2^16, and its upper half agrees with the high word modulo 2^16 |
| NativeMethods.ParamRoundTrip | src/Shared/HandyControl_Shared/Tools/Interop/NativeMethods.cs:338-344 | for short x and y, `GetXLParam(MakeParam(x, y)) == x` and `GetYLParam(MakeParam(x, y)) == y` |
| NativeMethods.GetScWParam | src/Shared/HandyControl_Shared/Tools/Interop/NativeMethods.cs:602 | the system command is the low word with its low four bits cleared: a multiple of 16 in [0, 0xFFF0] |
| NativeMethods.GetScWParamIdempotent | src/Shared/HandyControl_Shared/Tools/Interop/NativeMethods.cs:602 | masking an already masked command changes nothing |
| NativeMethods.Rect.WithWidth | src/Shared/HandyControl_Shared/Tools/Interop/NativeMethods.cs:118-122 | after setting `Width`, reading it back gives the value set; `Left`, `Top` and `Bottom` are unchanged |
| NativeMethods.Rect.WithHeight | src/Shared/HandyControl_Shared/Tools/Interop/NativeMethods.cs:112-116 | after setting `Height`, reading it back gives the value set; `Left`, `Top` and `Right` are unchanged |
| NativeMethods.Rect.Offset | src/Shared/HandyControl_Shared/Tools/Interop/NativeMethods.cs:126-132 | a translation keeps `Width` and `Height`, and moves `Left`/`Top` by dx/dy (modulo 2^32) |
| NativeMethods.Rect.ToInt32Rect | src/Shared/HandyControl_Shared/Tools/Interop/NativeMethods.cs:136 | position is (`Left`, `Top`), and position plus size gives back `Right` and `Bottom` in 32-bit arithmetic |
| NativeMethods.FromPositionAndSize | src/Shared/HandyControl_Shared/Controls/Window/CustomChromeWindow.cs:363 | the RECT built from a WINDOWPOS has the position as its top left, and its `Width` and `Height` read back the size, even when the far edges wrap |
| NativeMethods.Int32RectRoundTrip | src/Shared/HandyControl_Shared/Tools/Interop/NativeMethods.cs:104-136 | converting a RECT to position plus size and back yields the same RECT |
| NativeMethods.IntersectRect | src/Shared/HandyControl_Shared/Tools/Interop/NativeMethods.cs:609 | the result is the overlap (max of the near edges, min of the far edges) when that is non-empty, and the all-zero rectangle exactly when it is empty |
| NativeMethods.IntersectRectContains | src/Shared/HandyControl_Shared/Tools/Interop/NativeMethods.cs:609 | a point is in a non-empty intersection if and only if it is in both rectangles |
| NativeMethods.IntersectRectSymmetric | src/Shared/HandyControl_Shared/Tools/Interop/NativeMethods.cs:609 | the intersection does not depend on argument order |
| ArithmeticHelper.DivideInt2Arr | src/Shared/HandyControl_Shared/Tools/Helper/ArithmeticHelper.cs:24-38 | a negative count fails as the array allocation does, a zero count fails with division by zero, and otherwise the result is `count` copies of the truncated quotient with the first `rest` raised by one |
| ArithmeticHelper.SplitSum | src/Shared/HandyControl_Shared/Tools/Helper/ArithmeticHelper.cs:29-36 | the elements sum to n times the quotient plus the number of raised elements |
| ArithmeticHelper.DivideInt2ArrSum | src/Shared/HandyControl_Shared/Tools/Helper/ArithmeticHelper.cs:24-38 | for num >= 0 the elements sum to num; for negative num the sum misses the (negative) remainder, since the second loop does not run |
| ArithmeticHelper.DivideInt2ArrBalanced | src/Shared/HandyControl_Shared/Tools/Helper/ArithmeticHelper.cs:29-36 | the array is non-increasing and its largest and smallest elements differ by at most one |
| ArithmeticHelper.GetRectCenter | src/Shared/HandyControl_Shared/Tools/Helper/ArithmeticHelper.cs:165 | for a rectangle whose extent does not overflow, the centre lies inside it and is the midpoint rounded toward the top left, on each axis separately |
| ArithmeticHelper.SquaredDistance | src/Shared/HandyControl_Shared/Tools/Helper/ArithmeticHelper.cs:169 | the (squared) distance between two points is never negative, and zero exactly when the points coincide |
| ArithmeticHelper.LargestOverlapIndex | src/Shared/HandyControl_Shared/Tools/Helper/ArithmeticHelper.cs:176-186 | returns -1 exactly when no area is positive, and otherwise the first index whose area is positive and strictly larger than all before it and no smaller than all after it |
| ArithmeticHelper.NearestIndex | src/Shared/HandyControl_Shared/Tools/Helper/ArithmeticHelper.cs:187-199 | returns -1 exactly on an empty list, and otherwise the first index of the smallest distance |
| ArithmeticHelper.FindDisplayForWindowRect | src/Shared/HandyControl_Shared/Tools/Helper/ArithmeticHelper.cs:171-201 | over a given display list: returns -1 exactly when the list is empty (always, for the program as written, whose list stays empty); otherwise it picks the first display with the largest positive work-area overlap, or the display whose centre is nearest when nothing overlaps |
| ArithmeticHelper.FindMaximumSingleMonitorRectangle | src/Shared/HandyControl_Shared/Tools/Helper/ArithmeticHelper.cs:203-226 | gives all-zero rectangles with no display (always, for the program as written); otherwise the chosen display's work area and its intersection with the window, the display being the largest-overlap or the nearest one; the WPF `Rect` round trip of the call fails on a negative size |
| ArithmeticHelper.OverlapMeansNonEmptySubRect | src/Shared/HandyControl_Shared/Tools/Helper/ArithmeticHelper.cs:220-225 | when a display is chosen for its overlap, the window's part on it is non-empty |
| ArithmeticHelper.OverlapArea | src/Shared/HandyControl_Shared/Tools/Helper/ArithmeticHelper.cs:179-180 | an empty intersection has area zero, so it never wins the first loop; positive extents whose product fits in 31 bits give that true, positive product |
| DisposableObject.ThrowIfDisposed | src/Shared/HandyControl_Shared/Data/GlowWindow/DisposableObject.cs:38-42 | fails exactly when the object is disposed |
| DisposableObject.AddDisposing | src/Shared/HandyControl_Shared/Data/GlowWindow/DisposableObject.cs:25-29 | adding a handler fails exactly after disposal, and otherwise appends the handler |
| DisposableObject.LastIndex | src/Shared/HandyControl_Shared/Data/GlowWindow/DisposableObject.cs:30-35 | -1 exactly when the handler is not subscribed; otherwise a position holding the handler with no occurrence after it |
| DisposableObject.RemoveLast | src/Shared/HandyControl_Shared/Data/GlowWindow/DisposableObject.cs:30-35 | delegate removal takes out exactly the last occurrence of the handler, keeping the rest in order (one fewer in the multiset), and leaves the list unchanged when the handler is absent |
| DisposableObject.RemoveDisposing | src/Shared/HandyControl_Shared/Data/GlowWindow/DisposableObject.cs:30-35 | removing a handler fails exactly after disposal, and otherwise removes the last occurrence of it from the invocation list |
| DisposableObject.AddThenRemove | src/Shared/HandyControl_Shared/Data/GlowWindow/DisposableObject.cs:23-36 | adding a handler and then removing it restores the object |
| DisposableObject.DisposeCore | src/Shared/HandyControl_Shared/Data/GlowWindow/DisposableObject.cs:44-60 | the object ends disposed whatever throws; a second call does nothing; the handlers are raised in order up to the first that throws, and cleared only when all return; managed resources are released only when disposing, native ones unless an earlier step threw |
| DisposableObject.Dispose | src/Shared/HandyControl_Shared/Data/GlowWindow/DisposableObject.cs:15-19 | `Dispose()` disposes with managed resources: with no fault it raises every handler and releases both kinds of resources |
| DisposableObject.Finalize | src/Shared/HandyControl_Shared/Data/GlowWindow/DisposableObject.cs:10-13 | the finalizer disposes without releasing managed resources |
| DisposableObject.DisposeTwice | src/Shared/HandyControl_Shared/Data/GlowWindow/DisposableObject.cs:44-47 | a second disposal, with any arguments, has no effect |
| DisposableObject.HandlersRaisedOnce | src/Shared/HandyControl_Shared/Data/GlowWindow/DisposableObject.cs:23-59 | across two disposals every handler is raised exactly once, and adding or removing handlers afterwards fails |
| HwndWrapper.EnsureHandle | src/Shared/HandyControl_Shared/Data/GlowWindow/HwndWrapper.cs:83-95 | no effect once a handle exists or while creation is not allowed; otherwise creation is disallowed first, the window is created, and it is subclassed exactly when the wrapper subclasses |
| HwndWrapper.Handle | src/Shared/HandyControl_Shared/Data/GlowWindow/HwndWrapper.cs:74-81 | returns the handle held after `EnsureHandle`, and an existing handle unchanged with no effect |
| HwndWrapper.CreateAtMostOnce | src/Shared/HandyControl_Shared/Data/GlowWindow/HwndWrapper.cs:83-95 | a second `EnsureHandle` after the first does nothing, whatever creation would return |
| HwndWrapper.WindowClassAtom | src/Shared/HandyControl_Shared/Data/GlowWindow/HwndWrapper.cs:17-25 | the class is registered only while the atom is 0; an existing atom is returned with no effect |
| HwndWrapper.DestroyWindowClassCore | src/Shared/HandyControl_Shared/Data/GlowWindow/HwndWrapper.cs:32-38 | the atom ends 0; the class is unregistered exactly when the atom was non-zero |
| HwndWrapper.DestroyWindowCore | src/Shared/HandyControl_Shared/Data/GlowWindow/HwndWrapper.cs:64-70 | the handle ends 0; the window is destroyed exactly when the handle was non-zero |
| HwndWrapper.DisposeNativeResources | src/Shared/HandyControl_Shared/Data/GlowWindow/HwndWrapper.cs:99-104 | afterwards creation is disallowed and handle and atom are 0, with one destroy call per live resource, the window first |
| HwndWrapper.Dispose | src/Shared/HandyControl_Shared/Data/GlowWindow/HwndWrapper.cs:99-104 | disposal through `DisposableObject` releases the window and the class when no handler throws |
| HwndWrapper.NoHandleAfterRelease | src/Shared/HandyControl_Shared/Data/GlowWindow/HwndWrapper.cs:83-104 | after native disposal, asking for the handle creates nothing and yields 0 |
| HwndWrapper.AsWrittenNeverCreates | src/Shared/HandyControl_Shared/Data/GlowWindow/HwndWrapper.cs:11 | with the creation flag left at its default, asking for the handle never creates a window |
| HwndWrapper.CorrectedCreatesOnce | src/Shared/HandyControl_Shared/Data/GlowWindow/HwndWrapper.cs:83-95 | with creation allowed initially, the first request creates and subclasses the window, and later ones return that handle |
| NotifyIcon.UpdateIcon | src/Shared/HandyControl_Shared/Controls/Other/NotifyIcon.cs:368-404 | nothing in design mode; otherwise NIM_ADD exactly when showing and not added, NIM_MODIFY when showing and added, NIM_DELETE when hiding and added, no call when hiding and not added; a transparent update sends icon 0; `added` follows `show` |
| NotifyIcon.UpdateIconTracksShell | src/Shared/HandyControl_Shared/Controls/Other/NotifyIcon.cs:386-402 | provided the shell shows the icon exactly when `added` says so, every call is one the shell accepts (no duplicate add, no modify or delete of a missing icon), and afterwards `added` still says whether the shell shows the icon |
| NotifyIcon.BlinkTick | src/Shared/HandyControl_Shared/Controls/Other/NotifyIcon.cs:193-197 | flips transparency and shows the icon only while visible with a non-zero icon handle |
| NotifyIcon.BlinkTwiceRestores | src/Shared/HandyControl_Shared/Controls/Other/NotifyIcon.cs:193-197 | two ticks restore the transparency state, the icon staying added and being modified |
| NotifyIcon.SetIsBlink | src/Shared/HandyControl_Shared/Controls/Other/NotifyIcon.cs:169-191 | ignored unless visible; turning blinking on starts the timer; turning it off drops the timer and shows the opaque icon |
| NotifyIcon.SetVisibility | src/Shared/HandyControl_Shared/Controls/Other/NotifyIcon.cs:64-81 | showing loads a missing icon and adds the opaque icon; hiding removes the icon if one was loaded, and does nothing else without one |
| NotifyIcon.WmMouseDown | src/Shared/HandyControl_Shared/Controls/Other/NotifyIcon.cs:465-475 | only a two-click press raises a double-click and sets the double-click flag |
| NotifyIcon.WmMouseUp | src/Shared/HandyControl_Shared/Controls/Other/NotifyIcon.cs:477-487 | raises Click exactly for the left button when no double-click preceded, and always clears the flag |
| NotifyIcon.Dispatch | src/Shared/HandyControl_Shared/Controls/Other/NotifyIcon.cs:437-458 | tray mouse messages make no shell call; only the left button clicks; right-up shows the context menu and clears the double-click flag; a mouse move starts the position timer exactly when it is not running; other messages do nothing |
| NotifyIcon.CallbackAsWritten | src/Shared/HandyControl_Shared/Controls/Other/NotifyIcon.cs:429-463 | nothing before loading; `TaskbarCreated` runs `UpdateIcon(true)`, which sends NIM_MODIFY when `added` is set; other messages go to the mouse dispatch |
| NotifyIcon.TaskbarRestartAsWrittenLosesIcon | src/Shared/HandyControl_Shared/Controls/Other/NotifyIcon.cs:433-435 | with the icon added, a shell restart draws one NIM_MODIFY, which the new empty shell rejects; the shell then shows no icon while `added` stays true |
| NotifyIcon.Callback | src/Shared/HandyControl_Shared/Controls/Other/NotifyIcon.cs:429-463 | corrected handler: nothing before loading; `TaskbarCreated` adds the opaque icon with NIM_ADD whatever `added` was, and does nothing in design mode; mouse messages are handled as written |
| NotifyIcon.TaskbarRestartRestoresIcon | src/Shared/HandyControl_Shared/Controls/Other/NotifyIcon.cs:433-435 | after a shell restart the corrected handler sends only calls the empty shell accepts, and then the shell shows the icon and `added` is true |
| NotifyIcon.ClicksBoundedByLeftUps | src/Shared/HandyControl_Shared/Controls/Other/NotifyIcon.cs:429-487 | over any message sequence there are no more Clicks than left button-ups, and every Click is of the left button |
| NotifyIcon.ClicksAppend | src/Shared/HandyControl_Shared/Controls/Other/NotifyIcon.cs:465-487 | counting clicks is additive over concatenated event sequences |
| NotifyIcon.FirstEventClicks | src/Shared/HandyControl_Shared/Controls/Other/NotifyIcon.cs:439-450 | one tray message clicks at most once, and only if it is a left button-up |
| NotifyIcon.DoubleClickSuppressesSecondClick | src/Shared/HandyControl_Shared/Controls/Other/NotifyIcon.cs:465-487 | down, up, double-click, up raises Click then DoubleClick, with no second Click |
| NotifyIcon.Dispose | src/Shared/HandyControl_Shared/Controls/Other/NotifyIcon.cs:554-567 | marks the tray disposed; when disposing, stops a running blink timer and deletes an added icon; a repeat does nothing |
| NotifyIcon.DisposeIdempotent | src/Shared/HandyControl_Shared/Controls/Other/NotifyIcon.cs:554-567 | a second `Dispose` has no effect |
| NotifyIcon.CursorOverIcon | src/Shared/HandyControl_Shared/Controls/Other/NotifyIcon.cs:199-211 | true exactly when the icon was found and the cursor lies within its rectangle, all four edges included; false when not found or one pixel outside any edge |
| GlowBitmap.PartIndexInjective | src/Shared/HandyControl_Shared/Controls/Window/CustomChromeWindow.cs:888-906 | the sixteen bitmap parts have distinct cache indices |
| GlowBitmap.PremultiplyAlpha | src/Shared/HandyControl_Shared/Controls/Window/CustomChromeWindow.cs:837 | the premultiplied channel never exceeds the channel or the alpha |
| GlowBitmap.PremultiplyAlphaTruncates | src/Shared/HandyControl_Shared/Controls/Window/CustomChromeWindow.cs:837 | the premultiplied channel is `channel*alpha/255` rounded down |
| GlowBitmap.PremultiplyAlphaExtremes | src/Shared/HandyControl_Shared/Controls/Window/CustomChromeWindow.cs:837 | full alpha keeps the channel, zero alpha gives 0 |
| GlowBitmap.PremultiplyAlphaMonotone | src/Shared/HandyControl_Shared/Controls/Window/CustomChromeWindow.cs:837 | more alpha never gives a darker channel |
| GlowBitmap.Premultiplied | src/Shared/HandyControl_Shared/Controls/Window/CustomChromeWindow.cs:839-857 | the intended fill keeps the mask's length and copies every pixel's alpha byte unchanged |
| GlowBitmap.CreateAsWritten | src/Shared/HandyControl_Shared/Controls/Window/CustomChromeWindow.cs:839-857 | the fill as written: fails on an empty mask (reading byte 3), otherwise premultiplies every pixel by the first pixel's alpha |
| GlowBitmap.Create | src/Shared/HandyControl_Shared/Controls/Window/CustomChromeWindow.cs:839-857 | the corrected fill computes `Premultiplied`: each pixel's B, G, R scaled by its own alpha, in B, G, R, A order |
| GlowBitmap.AsWrittenAgreesIffUniformAlpha | src/Shared/HandyControl_Shared/Controls/Window/CustomChromeWindow.cs:844 | the fill as written is correct exactly for masks whose alpha is the same on every pixel |
| GlowBitmap.UniformAlphaAgrees | src/Shared/HandyControl_Shared/Controls/Window/CustomChromeWindow.cs:844-855 | when every pixel has the first pixel's alpha, the fill as written equals the intended one |
| GlowBitmap.AsWrittenDiffersAt | src/Shared/HandyControl_Shared/Controls/Window/CustomChromeWindow.cs:844-855 | an alpha byte that differs from the first pixel's comes out wrong in the fill as written |
| GlowBitmap.PremultipliedStep | src/Shared/HandyControl_Shared/Controls/Window/CustomChromeWindow.cs:845-855 | one loop iteration of the corrected fill appends exactly the next pixel, premultiplied by its own alpha |
| GlowBitmap.AsWrittenStep | src/Shared/HandyControl_Shared/Controls/Window/CustomChromeWindow.cs:844-855 | one loop iteration of the fill as written appends the next pixel, premultiplied by the first pixel's alpha |
| GlowBitmap.AsWrittenSecondPixelWrong | src/Shared/HandyControl_Shared/Controls/Window/CustomChromeWindow.cs:844 | on a two-pixel mask with alphas 255 and 0, the fill as written paints the transparent pixel opaque white |
| GlowLayout.PartsOf | src/Shared/HandyControl_Shared/Controls/Window/CustomChromeWindow.cs:1338-1432 | a side strip asks for five parts, a top or bottom strip for three |
| GlowLayout.PartsDisjoint | src/Shared/HandyControl_Shared/Controls/Window/CustomChromeWindow.cs:1338-1432 | no bitmap part is used by two strips |
| GlowLayout.DrawVertical | src/Shared/HandyControl_Shared/Controls/Window/CustomChromeWindow.cs:1338-1402 | a side strip blends corner, end, middle, end, corner at x = 0, the middle only when the room left for it is positive |
| GlowLayout.DrawHorizontal | src/Shared/HandyControl_Shared/Controls/Window/CustomChromeWindow.cs:1404-1450 | a top or bottom strip blends end, middle, end at y = 0, the middle only when the room left for it is positive |
| GlowLayout.Draw | src/Shared/HandyControl_Shared/Controls/Window/CustomChromeWindow.cs:1255-1296 | a strip only blends its own parts |
| GlowLayout.DrawVerticalCovers | src/Shared/HandyControl_Shared/Controls/Window/CustomChromeWindow.cs:1338-1402 | for sizes that do not wrap, the pieces run from 0 to the strip's height without gaps, and tile it exactly when the middle is drawn |
| GlowLayout.DrawHorizontalCovers | src/Shared/HandyControl_Shared/Controls/Window/CustomChromeWindow.cs:1404-1450 | the pieces run from 9 to width - 9 (between the side strips) without gaps, and tile it exactly when the middle is drawn |
| GlowWindow.NewGlow | src/Shared/HandyControl_Shared/Controls/Window/CustomChromeWindow.cs:968-1017 | a new glow window has nothing invalidated and empty caches |
| GlowWindow.WmNcHitTest | src/Shared/HandyControl_Shared/Controls/Window/CustomChromeWindow.cs:1151-1175 | each strip reports only codes on its own edge: left {13, 10, 16}, top {13, 12, 14}, right {14, 11, 17}, bottom {16, 15, 17} |
| GlowWindow.HitTestGrips | src/Shared/HandyControl_Shared/Controls/Window/CustomChromeWindow.cs:1151-1175 | along the strip, the start corner code is reported exactly within 18 px of the start, the end corner code exactly within 18 px of the end (outside the start grip), and the edge code exactly in between |
| GlowWindow.InvalidateCachedBitmaps | src/Shared/HandyControl_Shared/Controls/Window/CustomChromeWindow.cs:1187-1194 | a colour's cache is cleared exactly when its colour flag is set, and nothing else changes |
| GlowWindow.WindowPosFlags | src/Shared/HandyControl_Shared/Controls/Window/CustomChromeWindow.cs:1196-1213 | the flags always hold NOZORDER, NOACTIVATE and NOOWNERZORDER; SHOWWINDOW or HIDEWINDOW exactly when visibility changed (by the new value); NOMOVE when the location did not change or the window hides; NOSIZE when the size did not change or the window hides; nothing else |
| GlowWindow.UpdateWindowPosCore | src/Shared/HandyControl_Shared/Controls/Window/CustomChromeWindow.cs:1196-1213 | one `SetWindowPos` with the current bounds when location, size or visibility is invalid, and none otherwise |
| GlowWindow.BeginDelayedRender | src/Shared/HandyControl_Shared/Controls/Window/CustomChromeWindow.cs:1232-1238 | marks a render pending, subscribing to rendering only if none was |
| GlowWindow.CancelDelayedRender | src/Shared/HandyControl_Shared/Controls/Window/CustomChromeWindow.cs:1240-1246 | clears the pending render, unsubscribing only if one was pending |
| GlowWindow.GetOrCreateBitmaps | src/Shared/HandyControl_Shared/Controls/Window/CustomChromeWindow.cs:1298-1315 | cached parts are kept; missing requested parts are created with the current colour; nothing else is created |
| GlowWindow.RenderLayeredWindow | src/Shared/HandyControl_Shared/Controls/Window/CustomChromeWindow.cs:1255-1296 | without a drawing context nothing happens; otherwise it creates missing bitmaps for the cache of the current state only, keeps existing cache entries, and ends with one `UpdateLayeredWindow` at the window's `Left`, `Top`, `Width` and `Height`, blending the strip layout of its orientation, each blend painted with the current state's cached colour for its part; no property changes |
| GlowWindow.UpdateLayeredWindowCore | src/Shared/HandyControl_Shared/Controls/Window/CustomChromeWindow.cs:1215-1228 | a visible window with a stale render delays its render when the position is valid; otherwise it cancels any pending frame and repaints at once at the current bounds (only unsubscribing without a drawing context); it never moves the window |
| GlowWindow.CommitChanges | src/Shared/HandyControl_Shared/Controls/Window/CustomChromeWindow.cs:1177-1183 | the invalidation set ends empty and no property changes; a cache is cleared when its colour flag was set and kept entry for entry otherwise; `SetWindowPos` happens exactly when location, size or visibility was invalid; a visible window with a stale render is repainted at once at its bounds when its position was stale, and otherwise left with a render pending for the next frame |
| GlowWindow.CommitDelayedRender | src/Shared/HandyControl_Shared/Controls/Window/CustomChromeWindow.cs:1248-1253 | the pending render is always cleared; a hidden window, or one without a drawing context, only unsubscribes; a visible one repaints at its current bounds with the current state's cached colours |
| GlowWindow.PositionAndRepaint | src/Shared/HandyControl_Shared/Controls/Window/CustomChromeWindow.cs:1180-1181 | the window is moved exactly when a location, size or visibility flag is set; properties, flags and every cached bitmap are kept, and current caches stay current; a stale render waits for the next frame when the position was valid, and is painted at once, after the move, when it was not |
| GlowWindow.CommitKeepsCoherence | src/Shared/HandyControl_Shared/Controls/Window/CustomChromeWindow.cs:1177-1183 | a commit keeps coherent caches coherent |
| GlowWindow.CommitMakesCachesCurrent | src/Shared/HandyControl_Shared/Controls/Window/CustomChromeWindow.cs:1177-1194 | after a commit every cached bitmap has the current colour of its cache |
| GlowWindow.RenderKeepsCoherence | src/Shared/HandyControl_Shared/Controls/Window/CustomChromeWindow.cs:1255-1315 | rendering keeps every cached bitmap of a changed colour flagged for clearing |
| GlowWindow.RenderPaintsCurrentColor | src/Shared/HandyControl_Shared/Controls/Window/CustomChromeWindow.cs:1255-1296 | after a commit, rendering paints every part in the colour of the current activity state |
| GlowWindow.FlagsOf | src/Shared/HandyControl_Shared/Controls/Window/CustomChromeWindow.cs:1054-1100 | every setter invalidates at least one field, and only known ones |
| GlowWindow.Assign | src/Shared/HandyControl_Shared/Controls/Window/CustomChromeWindow.cs:1054-1100 | assigning a property makes it hold and changes no other property, flag, cache or pending render |
| GlowWindow.UpdateProperty | src/Shared/HandyControl_Shared/Controls/Window/CustomChromeWindow.cs:1045-1052 | assigning the current value changes nothing; otherwise the value is stored and its flags are OR-ed in; while deferring that is all, and otherwise the result is exactly `CommitChanges` of that state, so nothing is left invalid and a changed position, size or visibility moves the window |
| GlowWindow.UpdatePropertyIdempotent | src/Shared/HandyControl_Shared/Controls/Window/CustomChromeWindow.cs:1045-1052 | assigning the same value twice is the same as once |
| GlowWindow.DeferredFlagsAccumulate | src/Shared/HandyControl_Shared/Controls/Window/CustomChromeWindow.cs:1045-1052 | while deferring, a later assignment never loses the flags of an earlier one |
| GlowWindow.AssignKeepsCoherence | src/Shared/HandyControl_Shared/Controls/Window/CustomChromeWindow.cs:1045-1100 | storing a value with its flags keeps every stale cache flagged |
| GlowWindow.UpdatePropertyKeepsCoherence | src/Shared/HandyControl_Shared/Controls/Window/CustomChromeWindow.cs:1045-1052 | a property update, committed or not, keeps the caches coherent |
| GlowWindow.UpdateWindowPos | src/Shared/HandyControl_Shared/Controls/Window/CustomChromeWindow.cs:1452-1486 | a hidden strip is left alone; a visible one takes the bounds of its side of the target, keeping its visibility, activity and colours |
| GlowWindow.StripBounds | src/Shared/HandyControl_Shared/Controls/Window/CustomChromeWindow.cs:1459-1485 | in wrapping 32-bit arithmetic: side strips are 9 px wide and run from 9 above to 9 below the target, top and bottom strips are 9 px high and run from 9 left to 9 right of it; the left strip ends at `Left`, the top one at `Top`, the right strip starts at `Right`, the bottom one at `Bottom` |
| GlowWindow.StripsFrameTarget | src/Shared/HandyControl_Shared/Controls/Window/CustomChromeWindow.cs:1452-1486 | each strip is 9 px thick and touches its edge from outside; side strips run from 9 above to 9 below the target (height + 18), top and bottom from 9 left to 9 right (width + 18); the right strip starts at `Right`, the bottom one at `Bottom` |
| GlowHost.AssignAll | src/Shared/HandyControl_Shared/Controls/Window/CustomChromeWindow.cs:726-736 | every loaded glow window gets the value, and one that already held it is untouched |
| GlowHost.CommitAll | src/Shared/HandyControl_Shared/Controls/Window/CustomChromeWindow.cs:740-744 | every loaded glow window is committed: nothing left invalid, no property changed |
| GlowHost.OpenScope | src/Shared/HandyControl_Shared/Controls/Window/CustomChromeWindow.cs:787-791 | opening a scope raises the defer count by one, so changes are deferred |
| GlowHost.CloseScope | src/Shared/HandyControl_Shared/Controls/Window/CustomChromeWindow.cs:793-799 | closing a scope lowers the count by one; only the scope that brings it to 0 commits, and then nothing is left invalid; closing a closed scope does nothing; no property changes |
| GlowHost.NestedScopes | src/Shared/HandyControl_Shared/Controls/Window/CustomChromeWindow.cs:738-744 | with nested scopes the inner close changes nothing, the count is restored, and the glow windows are committed only when the outermost scope closes at top level |
| GlowHost.CloseScopeTwice | src/Shared/HandyControl_Shared/Controls/Window/CustomChromeWindow.cs:783-800 | disposing a scope twice decrements the count once |
| GlowHost.UpdateGlowColors | src/Shared/HandyControl_Shared/Controls/Window/CustomChromeWindow.cs:726-736 | every loaded glow window takes both colours, and at top level everything is committed |
| GlowHost.ActiveAssigned | src/Shared/HandyControl_Shared/Controls/Window/CustomChromeWindow.cs:730-732 | assigning the active colour sets it on every loaded glow window |
| GlowHost.InactiveKeepsActive | src/Shared/HandyControl_Shared/Controls/Window/CustomChromeWindow.cs:730-733 | setting the inactive colour sets it on every loaded glow window and leaves each active colour unchanged |
| GlowHost.ColorsCommittedAtTopLevel | src/Shared/HandyControl_Shared/Controls/Window/CustomChromeWindow.cs:726-744 | after a colour change at top level every cached bitmap has the new colour |
| GlowHost.UpdateGlowActiveState | src/Shared/HandyControl_Shared/Controls/Window/CustomChromeWindow.cs:653-660 | every loaded glow window takes the window's activity, committed at top level |
| GlowHost.ActivityAssigned | src/Shared/HandyControl_Shared/Controls/Window/CustomChromeWindow.cs:657-658 | assigning the activity sets it on every loaded glow window |
| GlowHost.SetIsGlowVisible | src/Shared/HandyControl_Shared/Controls/Window/CustomChromeWindow.cs:609-620 | no change when equal; otherwise all four glow windows exist afterwards and have the new visibility |
| GlowHost.NewGlowFor | src/Shared/HandyControl_Shared/Controls/Window/CustomChromeWindow.cs:622-630 | a created glow window starts hidden with the window's colours and activity |
| GlowHost.UpdateGlowVisibility | src/Shared/HandyControl_Shared/Controls/Window/CustomChromeWindow.cs:672-698 | nothing when the glow already matches; showing during the minimize animation with delay allowed starts the timer only; otherwise the timer stops and the visibility is applied |
| GlowHost.PositionAll | src/Shared/HandyControl_Shared/Controls/Window/CustomChromeWindow.cs:648-649 | every visible glow window takes its strip bounds, hidden ones are untouched |
| GlowHost.UpdateGlowWindowPositions | src/Shared/HandyControl_Shared/Controls/Window/CustomChromeWindow.cs:643-651 | every visible glow window ends at its strip bounds, and at top level everything is committed |
| GlowHost.VisibleStripsPlaced | src/Shared/HandyControl_Shared/Controls/Window/CustomChromeWindow.cs:648-649 | after positioning, every visible glow window sits on the strip of its own side |
| GlowHost.PlaceAndClose | src/Shared/HandyControl_Shared/Controls/Window/CustomChromeWindow.cs:648-650 | moving the visible glow windows and closing the scope places each visible one on its strip, lowers the count by one and commits everything when it reaches 0 |
| GlowHost.DelayedVisibilityTick | src/Shared/HandyControl_Shared/Controls/Window/CustomChromeWindow.cs:720-724 | the timer tick stops the timer and applies the visibility without delay |
| ChromeWindow.PressedMouseButtons | src/Shared/HandyControl_Shared/Controls/Window/CustomChromeWindow.cs:172-189 | each MK bit is set exactly when its key is pressed, and no other bit is set |
| ChromeWindow.RaiseNonClientMouseMessageAsClient | src/Shared/HandyControl_Shared/Controls/Window/CustomChromeWindow.cs:161-170 | each non-client right-button message becomes its client counterpart, carrying the pressed-button mask |
| ChromeWindow.ForwardedPointRoundTrip | src/Shared/HandyControl_Shared/Controls/Window/CustomChromeWindow.cs:161-170 | the receiver reads back exactly the client point, when it fits 16 bits |
| ChromeWindow.ColorRef | src/Shared/HandyControl_Shared/Controls/Window/CustomChromeWindow.cs:225 | a COLORREF fits in 24 bits |
| ChromeWindow.ColorRefRoundTrip | src/Shared/HandyControl_Shared/Controls/Window/CustomChromeWindow.cs:225 | red, green and blue are read back from the low, middle and high byte |
| ChromeWindow.ClientRectRelativeToWindow | src/Shared/HandyControl_Shared/Controls/Window/CustomChromeWindow.cs:248-260 | the client rectangle keeps its size |
| ChromeWindow.ClientRectStartsAtOrigin | src/Shared/HandyControl_Shared/Controls/Window/CustomChromeWindow.cs:248-260 | without wrapping, it starts at the client origin's offset inside the window |
| ChromeWindow.NonClientStrip | src/Shared/HandyControl_Shared/Controls/Window/CustomChromeWindow.cs:228-231 | the painted strip is the one-pixel row directly below the client area |
| ChromeWindow.WmNcCalcSize | src/Shared/HandyControl_Shared/Controls/Window/CustomChromeWindow.cs:263-282 | non-maximized windows keep the proposed rectangle; maximized ones take the default one with the top at the proposed top plus the border, and lose the bottom row to the strip exactly when the work area fills the monitor |
| ChromeWindow.MaximizedClipRect | src/Shared/HandyControl_Shared/Controls/Window/CustomChromeWindow.cs:461-468 | the clip is the client rectangle, one row taller exactly when the strip shows |
| ChromeWindow.NcStripRoundTrip | src/Shared/HandyControl_Shared/Controls/Window/CustomChromeWindow.cs:263-282 | the row given up to the strip is the row the clip gives back, and the strip lies exactly there |
| ChromeWindow.UpdateClipRegionCore | src/Shared/HandyControl_Shared/Controls/Window/CustomChromeWindow.cs:437-451 | maximized always installs the maximized clip; a move or undock with unchanged placement does nothing; otherwise a negative radius clears the clip and any other installs a round rect of the window's size |
| ChromeWindow.UpdateClipRegion | src/Shared/HandyControl_Shared/Controls/Window/CustomChromeWindow.cs:431-435 | the core decision is applied and the placement is remembered |
| ChromeWindow.RepeatedMoveIsNoOp | src/Shared/HandyControl_Shared/Controls/Window/CustomChromeWindow.cs:431-451 | after a recorded non-maximized placement, a move keeping it is a no-op, while a resize always reinstalls the region |
| ChromeWindow.PositionChangeType | src/Shared/HandyControl_Shared/Controls/Window/CustomChromeWindow.cs:364-367 | a size change without SWP_NOSIZE, else a move without SWP_NOMOVE, else none |
| ChromeWindow.WmWindowPosChanged | src/Shared/HandyControl_Shared/Controls/Window/CustomChromeWindow.cs:357-376 | the clip is updated with the new bounds exactly on a size change or move, and the glow may be delayed exactly when SWP_SHOWWINDOW is absent |
| ChromeWindow.WindowPosBoundsExtent | src/Shared/HandyControl_Shared/Controls/Window/CustomChromeWindow.cs:363 | bounds built from a WINDOWPOS have exactly its size |
| ChromeWindow.WmSysCommand | src/Shared/HandyControl_Shared/Controls/Window/CustomChromeWindow.cs:314-330 | move redraws; size, move, minimize or maximize of a normal, unsnapped window saves its bounds; restore keeps the saved bounds and applies and arms them exactly when not minimized and they have positive size; the restore invariant is kept |
| ChromeWindow.WmWindowPosChanging | src/Shared/HandyControl_Shared/Controls/Window/CustomChromeWindow.cs:339-355 | ignored unless it moves and sizes to a positive size; when armed it uses the saved bounds and disarms, otherwise the change's own rectangle |
| ChromeWindow.RestoreHandOffOnce | src/Shared/HandyControl_Shared/Controls/Window/CustomChromeWindow.cs:314-355 | restoring a maximized window makes the next repositioning use the saved bounds and the one after it its own again, leaving the initial state |
| ChromeWindow.SystemMenuStates | src/Shared/HandyControl_Shared/Controls/Window/CustomChromeWindow.cs:575-593 | no menu changes unless normal or maximized |
| ChromeWindow.FlagsForDistinct | src/Shared/HandyControl_Shared/Controls/Window/CustomChromeWindow.cs:575-593 | with distinct items, the state an item ends in is the one its call sets |
| ChromeWindow.SystemMenuTable | src/Shared/HandyControl_Shared/Controls/Window/CustomChromeWindow.cs:575-593 | every item is set once: restore grayed unless maximized; move, size and maximize grayed when maximized; minimize grayed when not allowed; close always enabled |
| ChromeWindow.ShowWindowMenu | src/Shared/HandyControl_Shared/Controls/Window/CustomChromeWindow.cs:568-600 | the popup is tracked with the right-button, no-notify and return-command flags plus the drop alignment; the chosen command is posted as WM_SYSCOMMAND, or nothing when dismissed |
| ChromeWindow.ShowsMenuAt | src/Shared/HandyControl_Shared/Controls/Window/CustomChromeWindow.cs:560-566 | the menu is shown exactly for a point inside the element, edges included |
| ChromeWindow.Quadrants | src/Shared/HandyControl_Shared/Controls/Window/CustomChromeWindow.cs:517-525 | there are four quadrant rectangles |
| ChromeWindow.QuadrantsCover | src/Shared/HandyControl_Shared/Controls/Window/CustomChromeWindow.cs:517-525 | every pixel of the rectangle lies in a quadrant, and on a rectangle at least 2 px each way no quadrant reaches outside it |
| ChromeWindow.CornersInOwnQuadrant | src/Shared/HandyControl_Shared/Controls/Window/CustomChromeWindow.cs:517-534 | on a rectangle at least 4 px each way, each corner pixel lies only in its own quadrant, so each corner is shaped by its own radius |
| ChromeWindow.ComputeRoundRectRegion | src/Shared/HandyControl_Shared/Controls/Window/CustomChromeWindow.cs:489-494 | the region is one pixel wider and taller than the given size (in 32-bit arithmetic) |
| ChromeWindow.ComputeCornerRadiusRectRegion | src/Shared/HandyControl_Shared/Controls/Window/CustomChromeWindow.cs:496-558 | equal radii give one round rect; otherwise each corner's round rect is paired with its own quadrant |

## Left out

- P/Invoke calls are not executed.
  - GDI regions, layered-window drawing, `SendMessage`/`PostMessage`, menus, monitor and
    placement queries are recorded effects or parameters.
  - `ScreenToClient`, `IsKeyPressed`, `GetWindowPlacement`, `GetMonitorInfo`, `DefWindowProc`'s
    rectangle and the cursor position are parameters.
  - `IntersectRect` follows the Win32 contract.
- DPI and floating point are not modelled.
  - `DpiHelper` unit conversions are left out, as is `GetOnScreenPosition`.
  - The ellipse size in `ComputeRoundRectRegion` is kept as the corner radius.
  - `IsAeroSnappedToMonitor` and `ShouldShowGlow` are boolean parameters, and so is
    `SystemParameters.MinimizeAnimation`.
  - The WPF `Rect` values of the restore hand-off are reals with an `Empty` marker; NaN and
    infinities are not modelled.
  - The double `Math.Sqrt` distance of `FindDisplayForWindowRect` is the squared integer
    distance. It orders displays the same way, ignoring rounding.
- Timers and rendering callbacks (`DispatcherTimer`, `CompositionTarget.Rendering`) are flags
  in the state (`timerRunning`, `pendingDelayRender`, `blinkTimer`). Their firing is an
  explicit call (`DelayedVisibilityTick`, `CommitDelayedRender`, `BlinkTick`).
- The owning window keeps only state for its glow windows. The effects each glow window logs
  while the host fans out are not collected, so the cross-window order of native calls is not
  modelled.
- Alpha masks are loaded from PNG resources (`GetOrCreateAlphaMask`). A mask is an input with
  a valid size.
- NotifyIcon's tray-toolbar probing (`FindTrayToolbarWindow`, `FindNotifyIcon`) reads another
  process's memory. Its outcome is a parameter of `CursorOverIcon`.
- Also left out as framework or event-loop bound:
  - the chrome window's own `WmNcHitTest`, which hit-tests the WPF visual tree;
  - z-order handling (`UpdateZOrderOfThisAndOwner`, `UpdateZOrderOfOwner`);
  - `WmActivate`/`WmNcActivate`, `SuppressRedrawScope`;
  - dependency-property plumbing;
  - `ChangeOwner`, `DestroyGlowWindows`.
- The `try`/`catch` that `WmWindowPosChanged` wraps around its body is not modelled. No modelled
  step throws.
- ChromeWindow.ComputeCornerRadiusRectRegion: `MathHelper.AreClose` on the double radii is
  replaced by equality of the radii truncated to `int`. Unequal radii with the same integer
  part (4.2 and 4.7, say) therefore take the single rounded rectangle here where the source
  combines four quadrants, and radii within the `AreClose` tolerance that straddle an integer
  take the quadrants here where the source draws one rectangle.
- ChromeWindow.ColorRef: `B << 16 | G << 8 | R` is modelled as a sum. The three bytes occupy
  disjoint bits, so the two agree.
- ChromeWindow.RestoreInvariant: states only that the hand-off is never armed with
  `Rect.Empty`, not that the armed bounds have positive size. `WmSysCommand` arms only positive
  bounds, but a later sizing command overwrites them with the window's current bounds, whatever
  their size.
- GlowWindow.WindowPosFlags: the contract states the exact bits. A hiding window adds 131
  (`SWP_HIDEWINDOW | SWP_NOMOVE | SWP_NOSIZE`). So NOMOVE and NOSIZE are then set whether or not
  location and size changed, and the rule "NOMOVE exactly when the location did not change"
  holds only when not hiding.
- ArithmeticHelper.FindDisplayForWindowRect: the static display list `_displays`
  (ArithmeticHelper.cs:143) starts empty and nothing in the program ever adds to it. As written,
  the function therefore always returns -1 and `FindMaximumSingleMonitorRectangle` always
  gives all-zero rectangles. The model makes the list a parameter so that the choice among
  displays is stated as well. The program's own case is the empty list, which the first
  `ensures` of each method covers (`index == -1` exactly for no displays; zero rectangles).
- ArithmeticHelper.FindMaximumSingleMonitorRectangle: the `Rect` → `RECT` round trip through WPF
  doubles is modelled only for its failure on a negative size (which `new Rect` throws) and for
  the unchecked overflow of the extent. Fractional coordinates do not arise from integer input.
- ArithmeticHelper.DivideInt2Arr: a negative count fails like the array allocation
  (`OverflowException`). A negative `num` gives a negative remainder, and the second loop then
  does nothing. `DivideInt2ArrSum` states that case as it is, rather than the sum equalling `num`.
- HwndWrapper: `RegisterClass`, `CreateWindowCore` and `SetWindowLong` subclassing are
  effects carrying the handle or atom the call returns.
- DisposableObject.Dispose: `GC.SuppressFinalize` is not modelled. An exception thrown by a
  handler, by `DisposeManagedResources` or by `DisposeNativeResources` is a `Fault` parameter.

## Findings

| source | as written | input that shows it | evidently intended | confidence | as-written member | corrected member |
|---|---|---|---|---|---|---|
| src/Shared/HandyControl_Shared/Data/GlowWindow/HwndWrapper.cs:11 | `_isHandleCreationAllowed` has no initializer and nothing sets it to true, so `EnsureHandle` never creates a window and `Handle` is always 0 | a fresh wrapper asked for its `Handle` | creation allowed until the first `EnsureHandle` (initial value true), so the window is created once | not executed | HwndWrapper.AsWrittenNeverCreates | HwndWrapper.CorrectedCreatesOnce |
| src/Shared/HandyControl_Shared/Controls/Other/NotifyIcon.cs:433-435 | on `TaskbarCreated` the handler calls `UpdateIcon(true)` with `_added` still true, so it sends NIM_MODIFY to a restarted shell that holds no icon | an added icon when Explorer restarts and broadcasts `TaskbarCreated`: the shell rejects the modify and the icon stays missing | clear `_added` first, so the icon is added again with NIM_ADD | not executed | NotifyIcon.TaskbarRestartAsWrittenLosesIcon | NotifyIcon.Callback |
| src/Shared/HandyControl_Shared/Controls/Window/CustomChromeWindow.cs:844 | the mask's alpha byte is read once, before the pixel loop, so every pixel is premultiplied by the first pixel's alpha | white colour, two-pixel mask with alphas 255 then 0: the second pixel comes out (255, 255, 255, 255) instead of (0, 0, 0, 0) | each pixel premultiplied by its own alpha | not executed | GlowBitmap.AsWrittenSecondPixelWrong | GlowBitmap.Create |
