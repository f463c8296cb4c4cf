/**
  The custom chrome window's own decisions around its Win32 messages: how it clips its window
  region, which change a `WM_WINDOWPOSCHANGED` reports, how it hands the normal bounds saved on
  a system command to the next `WM_WINDOWPOSCHANGING`, how it trims the client area of a
  maximized window, which system-menu items it enables, how it splits the window into corner
  quadrants, and how it forwards non-client mouse messages. Native calls are parameters or
  recorded results; WPF's device-independent rectangles are reals.
*/
module ChromeWindow {
  import opened Int32
  import opened Wrappers
  import opened NativeMethods
  import opened GlowBitmap

  // `WM_SYSCOMMAND` commands.
  const ScSize: int := 61440
  const ScMove: int := 61456
  const ScMinimize: int := 61472
  const ScMaximize: int := 61488
  const ScClose: int := 61536
  const ScRestore: int := 61728

  // ---------------------------------------------------------------- mouse messages

  // Virtual keys of the mouse buttons, and the `MK_*` bits that report them.
  const VkLButton: int := 1
  const VkRButton: int := 2
  const VkMButton: int := 4
  const VkXButton1: int := 5
  const VkXButton2: int := 6
  const MkLButton: bv32 := 1
  const MkRButton: bv32 := 2
  const MkMButton: bv32 := 16
  const MkXButton1: bv32 := 32
  const MkXButton2: bv32 := 64

  /**
    `PressedMouseButtons`: the `MK_*` mask of the mouse buttons `isKeyPressed` reports down.
    Each bit is set exactly when its button is down, and no other bit is set.
  */
  function PressedMouseButtons(isKeyPressed: int -> bool): (mask: bv32)
    ensures (mask & MkLButton != 0) <==> isKeyPressed(VkLButton)
    ensures (mask & MkRButton != 0) <==> isKeyPressed(VkRButton)
    ensures (mask & MkMButton != 0) <==> isKeyPressed(VkMButton)
    ensures (mask & MkXButton1 != 0) <==> isKeyPressed(VkXButton1)
    ensures (mask & MkXButton2 != 0) <==> isKeyPressed(VkXButton2)
    ensures mask & !(MkLButton | MkRButton | MkMButton | MkXButton1 | MkXButton2) == 0
  {
    var m1: bv32 := if isKeyPressed(VkLButton) then 1 else 0;
    var m2: bv32 := if isKeyPressed(VkRButton) then m1 | 2 else m1;
    var m3: bv32 := if isKeyPressed(VkMButton) then m2 | 16 else m2;
    var m4: bv32 := if isKeyPressed(VkXButton1) then m3 | 32 else m3;
    if isKeyPressed(VkXButton2) then m4 | 64 else m4
  }

  // The non-client right-button messages the window forwards, and their client counterparts.
  const WmNcRButtonDown: int := 164
  const WmNcRButtonUp: int := 165
  const WmNcRButtonDblClk: int := 166
  const WmRButtonDown: int := 516
  const WmRButtonUp: int := 517
  const WmRButtonDblClk: int := 518

  /** A `SendMessage` call. */
  datatype Message = Message(msg: int, wParam: bv32, lParam: int32)

  /**
    `RaiseNonClientMouseMessageAsClient`: the non-client message becomes the matching client
    message (`msg + 513 - 161`), carrying the pressed buttons and the cursor in client
    coordinates (`screenToClient` is `ScreenToClient`).
  */
  function RaiseNonClientMouseMessageAsClient(
    msg: int, lParam: int32, screenToClient: Point -> Point, isKeyPressed: int -> bool): (r: Message)
    requires msg in {WmNcRButtonDown, WmNcRButtonUp, WmNcRButtonDblClk}
    ensures msg == WmNcRButtonDown ==> r.msg == WmRButtonDown
    ensures msg == WmNcRButtonUp ==> r.msg == WmRButtonUp
    ensures msg == WmNcRButtonDblClk ==> r.msg == WmRButtonDblClk
    ensures r.wParam == PressedMouseButtons(isKeyPressed)
  {
    var screen := Point(GetXLParam(lParam), GetYLParam(lParam));
    var client := screenToClient(screen);
    Message(msg + 513 - 161, PressedMouseButtons(isKeyPressed), MakeParam(client.x, client.y))
  }

  /**
    The receiver of the forwarded message reads back the client point exactly, whenever it
    fits the sixteen bits a coordinate travels in.
  */
  lemma ForwardedPointRoundTrip(msg: int, lParam: int32, screenToClient: Point -> Point, isKeyPressed: int -> bool)
    requires msg in {WmNcRButtonDown, WmNcRButtonUp, WmNcRButtonDblClk}
    requires var c := screenToClient(Point(GetXLParam(lParam), GetYLParam(lParam)));
      -0x8000 <= c.x < 0x8000 && -0x8000 <= c.y < 0x8000
    ensures var c := screenToClient(Point(GetXLParam(lParam), GetYLParam(lParam)));
      var r := RaiseNonClientMouseMessageAsClient(msg, lParam, screenToClient, isKeyPressed);
      GetXLParam(r.lParam) == c.x && GetYLParam(r.lParam) == c.y
  {
    var c := screenToClient(Point(GetXLParam(lParam), GetYLParam(lParam)));
    ParamRoundTrip(c.x as int16, c.y as int16);
  }

  // ---------------------------------------------------------------- non-client painting

  /**
    `B << 16 | G << 8 | R`: a colour as a Win32 `COLORREF`. The shifted channels occupy
    different bytes, so the `|` is their sum.
  */
  function ColorRef(c: Color): (r: int)
    ensures 0 <= r < 0x100_0000
  {
    c.b * 0x1_0000 + c.g * 0x100 + c.r
  }

  /** `GetRValue`, `GetGValue`, `GetBValue`: the bytes of a `COLORREF`. */
  function RedOf(ref: int): byte { ref % 0x100 }
  function GreenOf(ref: int): byte { ref / 0x100 % 0x100 }
  function BlueOf(ref: int): byte { ref / 0x1_0000 % 0x100 }

  /** The packing keeps each channel in its own byte: the channels read back unchanged. */
  lemma ColorRefRoundTrip(c: Color)
    ensures RedOf(ColorRef(c)) == c.r && GreenOf(ColorRef(c)) == c.g && BlueOf(ColorRef(c)) == c.b
  {
    var ref := ColorRef(c);
    assert ref == (c.b * 0x100 + c.g) * 0x100 + c.r;
    assert ref / 0x100 == c.b * 0x100 + c.g;
    assert ref / 0x1_0000 == c.b;
  }

  /**
    `GetClientRectRelativeToWindowRect`: the client rectangle moved by the offset of the client
    origin (`clientOrigin`, from `ClientToScreen`) from the window's top-left corner.
  */
  function ClientRectRelativeToWindow(windowRect: Rect, clientRect: Rect, clientOrigin: Point): (r: Rect)
    ensures r.Width() == clientRect.Width() && r.Height() == clientRect.Height()
  {
    clientRect.Offset(Wrap(clientOrigin.x - windowRect.left), Wrap(clientOrigin.y - windowRect.top))
  }

  /**
    For a client rectangle as `GetClientRect` reports it (at the origin) and coordinates that do
    not wrap, the result starts at the client origin's offset inside the window.
  */
  lemma ClientRectStartsAtOrigin(windowRect: Rect, clientRect: Rect, clientOrigin: Point)
    requires clientRect.left == 0 && clientRect.top == 0
    requires -0x4000_0000 <= windowRect.left < 0x4000_0000 && -0x4000_0000 <= windowRect.top < 0x4000_0000
    requires -0x4000_0000 <= clientOrigin.x < 0x4000_0000 && -0x4000_0000 <= clientOrigin.y < 0x4000_0000
    ensures var r := ClientRectRelativeToWindow(windowRect, clientRect, clientOrigin);
      r.left == clientOrigin.x - windowRect.left && r.top == clientOrigin.y - windowRect.top
  {
  }

  /**
    The strip `WmNcPaint` fills: the one-pixel row just below the client area (`Top := Bottom`,
    then `Bottom := Top + 1`).
  */
  function NonClientStrip(clientRelative: Rect): (r: Rect)
    ensures r.left == clientRelative.left && r.right == clientRelative.right
    ensures r.top == clientRelative.bottom
    ensures r.Height() == 1
  {
    var top := clientRelative.bottom;
    WrapAddLeft(top + 1, -(top as int));
    clientRelative.(top := top, bottom := Wrap(top + 1))
  }

  /** The outcome of `WmNcCalcSize`: whether the strip is shown, and the client rectangle. */
  datatype NcCalcSize = NcCalcSize(stripVisible: bool, rect: Rect)

  /**
    `WmNcCalcSize`. A window that is not maximized keeps the proposed rectangle. A maximized one
    takes the default client rectangle (`defaultRect`, from `DefWindowProc`) with its top at the
    proposed top plus the window's vertical border; on a monitor without a taskbar-reserved
    area (work area as large as the monitor) it also gives up its bottom row to the strip.
  */
  function WmNcCalcSize(showCmd: int, proposed: Rect, defaultRect: Rect, monitor: MonitorInfo, info: WindowInfo): (r: NcCalcSize)
    ensures showCmd != SwShowMaximized ==> r == NcCalcSize(false, proposed)
    ensures showCmd == SwShowMaximized ==>
      && (r.stripVisible <==> monitor.rcMonitor.Height() == monitor.rcWork.Height() && monitor.rcMonitor.Width() == monitor.rcWork.Width())
      && r.rect.left == defaultRect.left && r.rect.right == defaultRect.right
      && (r.rect.top - proposed.top - info.cyWindowBorders) % TwoTo32 == 0
      && (r.rect.bottom - defaultRect.bottom + (if r.stripVisible then 1 else 0)) % TwoTo32 == 0
  {
    if showCmd != SwShowMaximized then NcCalcSize(false, proposed)
    else
      var full := monitor.rcMonitor.Height() == monitor.rcWork.Height() && monitor.rcMonitor.Width() == monitor.rcWork.Width();
      var bottom := if full then Wrap(defaultRect.bottom - 1) else defaultRect.bottom;
      var top := Wrap(proposed.top + UintToInt(info.cyWindowBorders));
      AddUintCongruent(proposed.top, info.cyWindowBorders);
      NcCalcSize(full, defaultRect.(top := top, bottom := bottom))
  }

  /** Adding an unsigned value read as `int` agrees with adding the unsigned value, modulo 2^32. */
  lemma AddUintCongruent(a: int32, u: uint32)
    ensures (Wrap(a + UintToInt(u)) - a - u) % TwoTo32 == 0
  {
    var top := Wrap(a + UintToInt(u));
    var k1 := (top - (a + UintToInt(u))) / TwoTo32;
    var k2 := (UintToInt(u) - u) / TwoTo32;
    assert top - a - u == (k1 + k2) * TwoTo32;
  }

  /** `UpdateMaximizedClipRegion`'s rectangle: the client rectangle, one row taller when the strip shows. */
  function MaximizedClipRect(clientRelative: Rect, stripVisible: bool): (r: Rect)
    ensures r.left == clientRelative.left && r.top == clientRelative.top && r.right == clientRelative.right
    ensures (r.bottom - clientRelative.bottom - (if stripVisible then 1 else 0)) % TwoTo32 == 0
  {
    if stripVisible then clientRelative.(bottom := Wrap(clientRelative.bottom + 1)) else clientRelative
  }

  /**
    The row the maximized client area gives up is the row the strip paints and the row the clip
    region gives back: clipping the trimmed client rectangle restores the default bottom edge,
    and the strip lies exactly between the two.
  */
  lemma NcStripRoundTrip(showCmd: int, proposed: Rect, defaultRect: Rect, monitor: MonitorInfo, info: WindowInfo)
    requires showCmd == SwShowMaximized
    ensures var nc := WmNcCalcSize(showCmd, proposed, defaultRect, monitor, info);
      && MaximizedClipRect(nc.rect, nc.stripVisible).bottom == defaultRect.bottom
      && (nc.stripVisible ==>
            NonClientStrip(nc.rect).top == nc.rect.bottom && NonClientStrip(nc.rect).bottom == defaultRect.bottom)
  {
    var nc := WmNcCalcSize(showCmd, proposed, defaultRect, monitor, info);
    if nc.stripVisible {
      WrapAddLeft(defaultRect.bottom - 1, 1);
      assert nc.rect.bottom == Wrap(defaultRect.bottom - 1);
      assert Wrap(defaultRect.bottom as int) == defaultRect.bottom;
    }
  }

  // ---------------------------------------------------------------- clip region

  /** `ClipRegionChangeType`. */
  datatype ClipRegionChangeType = FromSize | FromPosition | FromPropertyChange | FromUndockSingleTab

  /** The window region a clip update installs. */
  datatype ClipRegion =
    | MaximizedClip
    | NoClip
    | RoundRectClip(width: int32, height: int32, cornerRadius: int32)

  /** The window's clip state: the last `showCmd` seen, the corner radius and the installed region. */
  datatype ClipState = ClipState(lastWindowPlacement: int, cornerRadius: int32, region: Option<ClipRegion>)

  /**
    `UpdateClipRegionCore`: `None` when it returns false without touching the region, or the
    region it installs. A maximized window always gets the maximized clip; a move (or undock)
    that keeps the placement changes nothing; otherwise a negative corner radius removes the
    clip and any other installs a rounded rectangle of the window's size.
  */
  function UpdateClipRegionCore(s: ClipState, showCmd: int, changeType: ClipRegionChangeType, bounds: Int32Rect)
    : (r: Option<ClipRegion>)
    ensures showCmd == SwShowMaximized ==> r == Some(MaximizedClip)
    ensures r.None? <==>
      showCmd != SwShowMaximized && (changeType.FromPosition? || changeType.FromUndockSingleTab?) && s.lastWindowPlacement == showCmd
    ensures r == Some(NoClip) <==> r.Some? && showCmd != SwShowMaximized && s.cornerRadius < 0
    ensures r.Some? && r.value.RoundRectClip? ==>
      r.value == RoundRectClip(bounds.width, bounds.height, s.cornerRadius) && s.cornerRadius >= 0
  {
    if showCmd == SwShowMaximized then Some(MaximizedClip)
    else if !changeType.FromSize? && !changeType.FromPropertyChange? && s.lastWindowPlacement == showCmd then None
    else if s.cornerRadius < 0 then Some(NoClip)
    else Some(RoundRectClip(bounds.width, bounds.height, s.cornerRadius))
  }

  /** `UpdateClipRegion`: the core decision, then the placement is remembered. */
  function UpdateClipRegion(s: ClipState, showCmd: int, changeType: ClipRegionChangeType, bounds: Rect): (r: ClipState)
    ensures r.lastWindowPlacement == showCmd && r.cornerRadius == s.cornerRadius
    ensures var core := UpdateClipRegionCore(s, showCmd, changeType, bounds.ToInt32Rect());
      r.region == if core.Some? then core else s.region
  {
    var core := UpdateClipRegionCore(s, showCmd, changeType, bounds.ToInt32Rect());
    ClipState(showCmd, s.cornerRadius, if core.Some? then core else s.region)
  }

  /**
    Once a non-maximized placement has been recorded, a move that keeps it is a no-op, while a
    resize always reinstalls the region.
  */
  lemma RepeatedMoveIsNoOp(s: ClipState, showCmd: int, changeType: ClipRegionChangeType, b1: Rect, b2: Rect)
    requires showCmd != SwShowMaximized
    ensures var s1 := UpdateClipRegion(s, showCmd, changeType, b1);
      && UpdateClipRegion(s1, showCmd, FromPosition, b2) == s1
      && UpdateClipRegion(s1, showCmd, FromSize, b2).region.Some?
  {
  }

  /**
    The change a `WM_WINDOWPOSCHANGED` reports: a size change unless `SWP_NOSIZE`, else a move
    unless `SWP_NOMOVE`, else none.
  */
  function PositionChangeType(flags: bv32): (r: Option<ClipRegionChangeType>)
    ensures r == Some(FromSize) <==> flags & SwpNoSize == 0
    ensures r == Some(FromPosition) <==> flags & SwpNoSize != 0 && flags & SwpNoMove == 0
    ensures r.None? <==> flags & SwpNoSize != 0 && flags & SwpNoMove != 0
  {
    if flags & 1 != 1 then Some(FromSize)
    else if flags & 2 != 2 then Some(FromPosition)
    else None
  }

  /** What `WmWindowPosChanged` decides: the new clip state and whether the glow update may be delayed. */
  datatype PosChanged = PosChanged(clip: ClipState, delayGlow: bool)

  /**
    `WmWindowPosChanged`: updates the clip region for a size change or a move, with the
    window's new bounds; the glow may wait for the minimize animation unless the window is being
    shown.
  */
  function WmWindowPosChanged(s: ClipState, pos: WindowPos, showCmd: int): (r: PosChanged)
    ensures PositionChangeType(pos.flags).None? ==> r.clip == s
    ensures PositionChangeType(pos.flags).Some? ==>
      r.clip == UpdateClipRegion(s, showCmd, PositionChangeType(pos.flags).value, FromPositionAndSize(pos.x, pos.y, pos.cx, pos.cy))
    ensures r.delayGlow <==> pos.flags & SwpShowWindow == 0
  {
    var bounds := FromPositionAndSize(pos.x, pos.y, pos.cx, pos.cy);
    var changeType := PositionChangeType(pos.flags);
    var clip := if changeType.Some? then UpdateClipRegion(s, showCmd, changeType.value, bounds) else s;
    PosChanged(clip, pos.flags & 64 == 0)
  }

  /**
    The bounds built from a `WINDOWPOS` have exactly its size, whatever wrapping the corner
    arithmetic does, so a rounded clip is always as large as the window.
  */
  lemma WindowPosBoundsExtent(pos: WindowPos)
    ensures var b := FromPositionAndSize(pos.x, pos.y, pos.cx, pos.cy).ToInt32Rect();
      b.width == pos.cx && b.height == pos.cy
  {
    var b := FromPositionAndSize(pos.x, pos.y, pos.cx, pos.cy).ToInt32Rect();
    assert b.width == pos.cx by { WrapAddLeft(pos.x + pos.cx, -(pos.x as int)); }
    assert b.height == pos.cy by { WrapAddLeft(pos.y + pos.cy, -(pos.y as int)); }
  }

  // ---------------------------------------------------------------- restore hand-off

  /** A WPF `Rect` in device-independent units; `Empty` is `Rect.Empty`. */
  datatype LogicalRect = Empty | Bounds(x: real, y: real, width: real, height: real)

  /** `Width > 0 && Height > 0` (`Rect.Empty` has negative infinite size). */
  predicate HasArea(r: LogicalRect) {
    r.Bounds? && r.width > 0.0 && r.height > 0.0
  }

  /** `WindowState`. */
  datatype WindowState = Normal | Minimized | Maximized

  /** `logicalSizeForRestore` and `useLogicalSizeForRestore`. */
  datatype RestoreState = RestoreState(logicalSizeForRestore: LogicalRect, useLogicalSizeForRestore: bool)

  const InitialRestore: RestoreState := RestoreState(Empty, false)

  /**
    The hand-off is never armed with `Rect.Empty`. (It is armed only with bounds of positive
    size, but a later sizing command may overwrite them with the window's current bounds,
    whatever their size, before they are used.)
  */
  predicate RestoreInvariant(s: RestoreState) {
    s.useLogicalSizeForRestore ==> s.logicalSizeForRestore.Bounds?
  }

  /** What `WmSysCommand` does: the new state, whether it redraws the frame, and bounds it applies. */
  datatype SysCommand = SysCommand(state: RestoreState, redraw: bool, applied: Option<LogicalRect>)

  /**
    `WmSysCommand`. A move redraws the frame. Sizing, moving, minimizing or maximizing a normal
    window that is not snapped saves its bounds (`current`); moving a maximized window saves
    them if nothing is saved. A restore of a window that is not minimized, with saved bounds of
    positive size, applies them and arms the hand-off to the next `WM_WINDOWPOSCHANGING`.
  */
  function WmSysCommand(s: RestoreState, wParam: int32, windowState: WindowState, aeroSnapped: bool, current: LogicalRect)
    : (r: SysCommand)
    requires current.Bounds? && current.width >= 0.0 && current.height >= 0.0
    ensures r.redraw <==> GetScWParam(wParam) == ScMove
    ensures RestoreInvariant(s) ==> RestoreInvariant(r.state)
    ensures GetScWParam(wParam) in {ScSize, ScMove, ScMinimize, ScMaximize} && windowState == Normal && !aeroSnapped ==>
      r.state.logicalSizeForRestore == current
    ensures GetScWParam(wParam) == ScRestore ==> r.state.logicalSizeForRestore == s.logicalSizeForRestore
    ensures r.applied.Some? <==>
      GetScWParam(wParam) == ScRestore && windowState != Minimized && HasArea(s.logicalSizeForRestore)
    ensures r.applied.Some? ==> r.applied.value == r.state.logicalSizeForRestore && r.state.useLogicalSizeForRestore
    ensures r.applied.None? ==> r.state.useLogicalSizeForRestore == s.useLogicalSizeForRestore
  {
    var sc := GetScWParam(wParam);
    var saved := if sc in {ScMaximize, ScMinimize, ScMove, ScSize} && windowState == Normal && !aeroSnapped
      then current else s.logicalSizeForRestore;
    var saved' := if sc == ScMove && windowState == Maximized && saved == Empty then current else saved;
    assert sc == ScRestore ==> saved' == s.logicalSizeForRestore;
    if sc != ScRestore || windowState == Minimized || !HasArea(saved') then
      SysCommand(RestoreState(saved', s.useLogicalSizeForRestore), sc == ScMove, None)
    else
      SysCommand(RestoreState(saved', true), sc == ScMove, Some(saved'))
  }

  /**
    `WmWindowPosChanging`: a change that moves and sizes the window to a positive size is
    positioned from `deviceRect` (its own rectangle in logical units), unless the hand-off is
    armed: then from the saved bounds, and the hand-off is consumed. `None` leaves the change
    alone.
  */
  function WmWindowPosChanging(s: RestoreState, pos: WindowPos, deviceRect: LogicalRect): (r: (RestoreState, Option<LogicalRect>))
    ensures pos.flags & SwpNoMove != 0 || pos.flags & SwpNoSize != 0 || pos.cx <= 0 || pos.cy <= 0 ==> r == (s, None)
    ensures r.1.Some? && s.useLogicalSizeForRestore ==>
      r == (RestoreState(Empty, false), Some(s.logicalSizeForRestore))
    ensures r.1.Some? && !s.useLogicalSizeForRestore ==> r == (s, Some(deviceRect))
    ensures RestoreInvariant(s) ==> RestoreInvariant(r.0)
    ensures RestoreInvariant(s) && s.useLogicalSizeForRestore && r.1.Some? ==> r.1.value.Bounds?
  {
    if pos.flags & 2 != 0 || pos.flags & 1 != 0 || pos.cx <= 0 || pos.cy <= 0 then (s, None)
    else if s.useLogicalSizeForRestore then (RestoreState(Empty, false), Some(s.logicalSizeForRestore))
    else (s, Some(deviceRect))
  }

  /** A change that both moves and sizes the window to a positive size. */
  predicate Repositions(pos: WindowPos) {
    pos.flags & SwpNoMove == 0 && pos.flags & SwpNoSize == 0 && pos.cx > 0 && pos.cy > 0
  }

  /**
    The hand-off happens once: restoring a maximized window with saved bounds makes the next
    repositioning use exactly those bounds, and the one after it use its own rectangle again.
  */
  lemma RestoreHandOffOnce(
    s: RestoreState, wParam: int32, current: LogicalRect, p1: WindowPos, d1: LogicalRect, p2: WindowPos, d2: LogicalRect)
    requires RestoreInvariant(s) && HasArea(s.logicalSizeForRestore)
    requires GetScWParam(wParam) == ScRestore
    requires current.Bounds? && current.width >= 0.0 && current.height >= 0.0
    requires Repositions(p1) && Repositions(p2)
    ensures var cmd := WmSysCommand(s, wParam, Maximized, false, current);
      var (s1, used1) := WmWindowPosChanging(cmd.state, p1, d1);
      var (s2, used2) := WmWindowPosChanging(s1, p2, d2);
      && cmd.applied == Some(s.logicalSizeForRestore)
      && used1 == Some(s.logicalSizeForRestore)
      && used2 == Some(d2)
      && s2 == InitialRestore
  {
  }

  // ---------------------------------------------------------------- system menu

  const MfEnabled: int := 0
  const MfGrayed: int := 1

  /** An `EnableMenuItem` call. */
  datatype MenuCall = EnableMenuItem(item: int, flags: int)

  /**
    The `EnableMenuItem` calls `ShowWindowMenu` makes for a placement: for a normal window
    restore is grayed and move, size and maximize enabled; for a maximized one the reverse;
    minimize follows `canMinimize` and close is always enabled. Other placements are left alone.
  */
  function SystemMenuStates(showCmd: int, canMinimize: bool): (calls: seq<MenuCall>)
    ensures showCmd != SwShowNormal && showCmd != SwShowMaximized ==> calls == []
  {
    var minimize := if canMinimize then 0 else 1;
    if showCmd == SwShowNormal then
      [EnableMenuItem(ScRestore, 1), EnableMenuItem(ScMove, 0), EnableMenuItem(ScSize, 0),
       EnableMenuItem(ScMaximize, 0), EnableMenuItem(ScMinimize, minimize), EnableMenuItem(ScClose, 0)]
    else if showCmd == SwShowMaximized then
      [EnableMenuItem(ScRestore, 0), EnableMenuItem(ScMove, 1), EnableMenuItem(ScSize, 1),
       EnableMenuItem(ScMaximize, 1), EnableMenuItem(ScMinimize, minimize), EnableMenuItem(ScClose, 0)]
    else []
  }

  /** The flags the calls give `item`, if any: the last call for it wins. */
  function FlagsFor(calls: seq<MenuCall>, item: int): Option<int>
  {
    if |calls| == 0 then None
    else
      var rest := FlagsFor(calls[..|calls| - 1], item);
      if calls[|calls| - 1].item == item then Some(calls[|calls| - 1].flags) else rest
  }

  /** With no item set twice, each item gets the flags of its one call. */
  lemma {:induction false} FlagsForDistinct(calls: seq<MenuCall>, i: int)
    requires forall j, k :: 0 <= j < k < |calls| ==> calls[j].item != calls[k].item
    requires 0 <= i < |calls|
    ensures FlagsFor(calls, calls[i].item) == Some(calls[i].flags)
  {
    if i < |calls| - 1 {
      var prefix := calls[..|calls| - 1];
      assert prefix[i] == calls[i];
      FlagsForDistinct(prefix, i);
    }
  }

  /** The items of the system menu. */
  const MenuItems: set<int> := {ScRestore, ScMove, ScSize, ScMaximize, ScMinimize, ScClose}

  /**
    In a normal or maximized window every item is set, each exactly once, and an item is grayed
    exactly when the command cannot apply: restore unless maximized, move, size and maximize
    when maximized, minimize when it is not allowed, close never.
  */
  lemma SystemMenuTable(showCmd: int, canMinimize: bool)
    requires showCmd == SwShowNormal || showCmd == SwShowMaximized
    ensures var calls := SystemMenuStates(showCmd, canMinimize);
      var maximized := showCmd == SwShowMaximized;
      && |calls| == |MenuItems|
      && (forall i, j :: 0 <= i < j < |calls| ==> calls[i].item != calls[j].item)
      && FlagsFor(calls, ScRestore) == Some(if maximized then MfEnabled else MfGrayed)
      && FlagsFor(calls, ScMove) == Some(if maximized then MfGrayed else MfEnabled)
      && FlagsFor(calls, ScSize) == Some(if maximized then MfGrayed else MfEnabled)
      && FlagsFor(calls, ScMaximize) == Some(if maximized then MfGrayed else MfEnabled)
      && FlagsFor(calls, ScMinimize) == Some(if canMinimize then MfEnabled else MfGrayed)
      && FlagsFor(calls, ScClose) == Some(MfEnabled)
  {
    var calls := SystemMenuStates(showCmd, canMinimize);
    assert forall j, k :: 0 <= j < k < |calls| ==> calls[j].item != calls[k].item;
    FlagsForDistinct(calls, 0);
    FlagsForDistinct(calls, 1);
    FlagsForDistinct(calls, 2);
    FlagsForDistinct(calls, 3);
    FlagsForDistinct(calls, 4);
    FlagsForDistinct(calls, 5);
  }

  /** `TPM_RIGHTBUTTON | TPM_NONOTIFY | TPM_RETURNCMD`, combined with the menu drop alignment. */
  const TpmRightButton: bv32 := 2
  const TpmNoNotify: bv32 := 128
  const TpmReturnCmd: bv32 := 256
  const WmSysCommandMessage: int := 274

  /** What `ShowWindowMenu` does: the menu item states, the popup flags, and the command it posts. */
  datatype WindowMenu = WindowMenu(calls: seq<MenuCall>, trackFlags: bv32, posted: Option<(int, int)>)

  /**
    `ShowWindowMenu`: sets the menu items, tracks the popup (`dropAlignment` is the
    `SM_MENUDROPALIGNMENT` metric, `chosen` the command `TrackPopupMenuEx` returns) and posts the
    chosen command back to the window as a `WM_SYSCOMMAND`, or nothing when dismissed.
  */
  function ShowWindowMenu(showCmd: int, canMinimize: bool, dropAlignment: bv32, chosen: int): (r: WindowMenu)
    ensures r.calls == SystemMenuStates(showCmd, canMinimize)
    ensures r.trackFlags & (TpmRightButton | TpmNoNotify | TpmReturnCmd) == TpmRightButton | TpmNoNotify | TpmReturnCmd
    ensures r.trackFlags & dropAlignment == dropAlignment
    ensures r.posted.None? <==> chosen == 0
    ensures r.posted.Some? ==> r.posted.value == (WmSysCommandMessage, chosen)
  {
    var flags := dropAlignment | 256 | 128 | 2;
    WindowMenu(SystemMenuStates(showCmd, canMinimize), flags, if chosen == 0 then None else Some((274, chosen)))
  }

  /** The element-relative overload shows the menu only for a point inside the element, edges included. */
  function ShowsMenuAt(x: real, y: real, width: real, height: real): (shows: bool)
    ensures shows <==> 0.0 <= x <= width && 0.0 <= y <= height
  {
    !(x < 0.0 || x > width || y < 0.0 || y > height)
  }

  // ---------------------------------------------------------------- corner regions

  /** A `CreateRectRgn` region: the pixels `left <= x < right`, `top <= y < bottom`. */
  datatype RectRgn = RectRgn(left: int32, top: int32, right: int32, bottom: int32)

  predicate InRgn(r: RectRgn, x: int, y: int) {
    r.left <= x < r.right && r.top <= y < r.bottom
  }

  /**
    The four quadrants `ComputeCornerRadiusRectRegion` clips each corner's rounded rectangle
    to, in the order top-left, top-right, bottom-left, bottom-right. They meet at the centre
    point `(x + width / 2, y + height / 2)` and overlap by two pixels around it.
  */
  function Quadrants(rect: Int32Rect): (q: seq<RectRgn>)
    ensures |q| == 4
  {
    var px := Wrap(rect.x + Quot(rect.width, 2));
    var py := Wrap(rect.y + Quot(rect.height, 2));
    var right := Wrap(rect.x + rect.width);
    var bottom := Wrap(rect.y + rect.height);
    [ RectRgn(rect.x, rect.y, Wrap(px + 1), Wrap(py + 1)),
      RectRgn(Wrap(px - 1), rect.y, right, Wrap(py + 1)),
      RectRgn(rect.x, Wrap(py - 1), Wrap(px + 1), bottom),
      RectRgn(Wrap(px - 1), Wrap(py - 1), right, bottom) ]
  }

  /** Coordinates far enough from the `int` limits that no corner arithmetic wraps. */
  predicate NoWrap(rect: Int32Rect) {
    && -0x4000_0000 <= rect.x < 0x4000_0000 && -0x4000_0000 <= rect.y < 0x4000_0000
    && 0 <= rect.width < 0x4000_0000 && 0 <= rect.height < 0x4000_0000
  }

  /**
    The quadrants cover the rectangle: every pixel of it lies in one of them, and for a
    rectangle at least two pixels each way none of them reaches outside it.
  */
  lemma QuadrantsCover(rect: Int32Rect, x: int, y: int)
    requires NoWrap(rect)
    ensures rect.x <= x < rect.x + rect.width && rect.y <= y < rect.y + rect.height ==>
      exists k :: 0 <= k < 4 && InRgn(Quadrants(rect)[k], x, y)
    ensures 2 <= rect.width && 2 <= rect.height ==>
      forall k :: 0 <= k < 4 ==> InRgn(Quadrants(rect)[k], x, y) ==>
        rect.x <= x < rect.x + rect.width && rect.y <= y < rect.y + rect.height
  {
    QuotBounds(rect.width, 2);
    QuotBounds(rect.height, 2);
    var q := Quadrants(rect);
    var px := rect.x + Quot(rect.width, 2);
    var py := rect.y + Quot(rect.height, 2);
    if rect.x <= x < rect.x + rect.width && rect.y <= y < rect.y + rect.height {
      var k := (if x <= px then 0 else 1) + (if y <= py then 0 else 2);
      assert InRgn(q[k], x, y);
    }
  }

  /**
    On a rectangle at least four pixels each way, each corner pixel lies in its own quadrant
    only, so each corner is shaped by its own radius alone.
  */
  lemma CornersInOwnQuadrant(rect: Int32Rect)
    requires NoWrap(rect) && 4 <= rect.width && 4 <= rect.height
    ensures var q := Quadrants(rect);
      var (l, t, r, b) := (rect.x as int, rect.y as int, rect.x + rect.width - 1, rect.y + rect.height - 1);
      forall k :: 0 <= k < 4 ==>
        && (InRgn(q[k], l, t) <==> k == 0)
        && (InRgn(q[k], r, t) <==> k == 1)
        && (InRgn(q[k], l, b) <==> k == 2)
        && (InRgn(q[k], r, b) <==> k == 3)
  {
    QuotBounds(rect.width, 2);
    QuotBounds(rect.height, 2);
  }

  /** A `CreateRoundRectRgn` region; the ellipse size is the corner radius scaled by the DPI. */
  datatype RoundRectRgn = RoundRectRgn(left: int32, top: int32, right: int32, bottom: int32, cornerRadius: int)

  /** `ComputeRoundRectRegion`: a rounded rectangle one pixel larger than `width` by `height`. */
  function ComputeRoundRectRegion(left: int32, top: int32, width: int32, height: int32, cornerRadius: int): (r: RoundRectRgn)
    ensures r.left == left && r.top == top && r.cornerRadius == cornerRadius
    ensures (r.right - left - width - 1) % TwoTo32 == 0 && (r.bottom - top - height - 1) % TwoTo32 == 0
  {
    RoundRectRgn(left, top, Wrap(left + width + 1), Wrap(top + height + 1), cornerRadius)
  }

  /** Per-corner radii, already truncated to whole pixels. */
  datatype CornerRadii = CornerRadii(topLeft: int, topRight: int, bottomLeft: int, bottomRight: int)

  /** A corner-radius region: one rounded rectangle, or four, each clipped to its quadrant. */
  datatype CornerRegion =
    | Uniform(shape: RoundRectRgn)
    | PerCorner(parts: seq<(RoundRectRgn, RectRgn)>)

  /**
    `ComputeCornerRadiusRectRegion`: equal radii give one rounded rectangle; otherwise each
    corner's rounded rectangle is intersected with its quadrant and the four are combined.
  */
  function ComputeCornerRadiusRectRegion(rect: Int32Rect, radii: CornerRadii): (r: CornerRegion)
    ensures r.Uniform? <==>
      radii.topLeft == radii.topRight && radii.topLeft == radii.bottomLeft && radii.bottomLeft == radii.bottomRight
    ensures r.Uniform? ==> r.shape == ComputeRoundRectRegion(rect.x, rect.y, rect.width, rect.height, radii.topLeft)
    ensures r.PerCorner? ==> |r.parts| == 4 && forall k :: 0 <= k < 4 ==> r.parts[k].1 == Quadrants(rect)[k]
    ensures r.PerCorner? ==>
      && r.parts[0].0.cornerRadius == radii.topLeft && r.parts[1].0.cornerRadius == radii.topRight
      && r.parts[2].0.cornerRadius == radii.bottomLeft && r.parts[3].0.cornerRadius == radii.bottomRight
  {
    if radii.topLeft == radii.topRight && radii.topLeft == radii.bottomLeft && radii.bottomLeft == radii.bottomRight then
      Uniform(ComputeRoundRectRegion(rect.x, rect.y, rect.width, rect.height, radii.topLeft))
    else
      var q := Quadrants(rect);
      var shape := (radius: int) => ComputeRoundRectRegion(rect.x, rect.y, rect.width, rect.height, radius);
      PerCorner([(shape(radii.topLeft), q[0]), (shape(radii.topRight), q[1]),
                 (shape(radii.bottomLeft), q[2]), (shape(radii.bottomRight), q[3])])
  }
}
