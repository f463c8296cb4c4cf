/**
  The tray-icon state machine. The control remembers whether the shell currently shows its
  icon (`_added`) and picks NIM_ADD, NIM_MODIFY or NIM_DELETE from that; it blinks by
  alternating a transparent and a normal update; it turns the tray callback's mouse messages
  into Click and MouseDoubleClick events, suppressing the Click that follows a double click;
  and it removes its icon once when disposed. The handler for a restarted shell is modelled
  both as written and corrected; the rest of the model uses the corrected one. Shell calls are
  recorded as effects; the icon handle, the design-mode flag and the other framework state are
  fields or parameters.
*/
module NotifyIcon {
  import opened Int32
  import opened NativeMethods

  // `Shell_NotifyIcon` messages.
  const NimAdd: int := 0
  const NimModify: int := 1
  const NimDelete: int := 2

  // Mouse messages the tray callback receives in its lParam.
  const WmMouseMove: int := 0x0200
  const WmLButtonDown: int := 0x0201
  const WmLButtonUp: int := 0x0202
  const WmLButtonDblClk: int := 0x0203
  const WmRButtonUp: int := 0x0205

  /** The callback message the icon registers with the shell: `WM_USER + 1024`. */
  const WmTrayMouseMessage: int := 0x0400 + 1024

  /** A `Shell_NotifyIcon` call: the message and the icon handle it carries (zero: transparent). */
  datatype ShellCall = ShellNotifyIcon(message: int, hIcon: int)

  datatype MouseButton = Left | Middle | Right

  /** What the control does besides calling the shell. */
  datatype Event =
    | Click(button: MouseButton)
    | DoubleClick(button: MouseButton)
    | ShowContextMenu
    | StartPositionTimer

  /** `_dispatcherTimerBlink`: null, or a timer that is running or stopped. */
  datatype BlinkTimer = NoTimer | Stopped | Running

  /** The fields of a tray icon the logic reads and writes. */
  datatype Tray = Tray(
    added: bool,
    isTransparent: bool,
    doubleClick: bool,
    isDisposed: bool,
    visible: bool,
    isBlink: bool,
    iconCurrentHandle: int,
    blinkTimer: BlinkTimer,
    designMode: bool)

  /** A state after one operation, with the shell calls and the events it produced, in order. */
  datatype Reaction = Reaction(state: Tray, calls: seq<ShellCall>, events: seq<Event>)

  // ---------------------------------------------------------------- UpdateIcon

  /**
    `UpdateIcon(showIconInTray, isTransparent)`. In design mode nothing happens. Otherwise the
    transparency is recorded, and the icon is added if shown and not yet added, modified if
    shown and added, deleted if hidden and added; a hidden icon that is not added needs nothing.
  */
  function UpdateIcon(t: Tray, show: bool, transparent: bool): (r: Reaction)
    ensures r.events == [] && |r.calls| <= 1
    ensures t.designMode ==> r == Reaction(t, [], [])
    ensures !t.designMode ==> r.state == t.(isTransparent := transparent, added := show)
    ensures r.calls == [] <==> t.designMode || (!show && !t.added)
    ensures r.calls != [] ==> r.calls[0].hIcon == (if transparent then 0 else t.iconCurrentHandle)
    ensures r.calls != [] ==>
      && (r.calls[0].message == NimAdd <==> show && !t.added)
      && (r.calls[0].message == NimModify <==> show && t.added)
      && (r.calls[0].message == NimDelete <==> !show && t.added)
  {
    if t.designMode then Reaction(t, [], [])
    else
      var t' := t.(isTransparent := transparent);
      var hIcon := if transparent then 0 else t.iconCurrentHandle;
      if show then
        if !t'.added then Reaction(t'.(added := true), [ShellNotifyIcon(NimAdd, hIcon)], [])
        else Reaction(t', [ShellNotifyIcon(NimModify, hIcon)], [])
      else if t'.added then Reaction(t'.(added := false), [ShellNotifyIcon(NimDelete, hIcon)], [])
      else Reaction(t', [], [])
  }

  /** The shell's view: whether it shows the icon after the calls, starting from `present`. */
  function ShellShows(present: bool, calls: seq<ShellCall>): bool
    decreases |calls|
  {
    if |calls| == 0 then present
    else
      var m := calls[0].message;
      ShellShows(if m == NimAdd then true else if m == NimDelete then false else present, calls[1..])
  }

  /** The shell accepts each call: ADD only for an absent icon, MODIFY and DELETE only for a present one. */
  predicate AcceptedBy(present: bool, calls: seq<ShellCall>)
    decreases |calls|
  {
    |calls| == 0 ||
    (var m := calls[0].message;
     && (m == NimAdd ==> !present)
     && (m == NimModify || m == NimDelete ==> present)
     && AcceptedBy(if m == NimAdd then true else if m == NimDelete then false else present, calls[1..]))
  }

  /**
    `_added` mirrors the shell: if it says whether the shell shows the icon before an update, it
    still does afterwards, and the update sends only calls the shell accepts.
  */
  lemma UpdateIconTracksShell(t: Tray, show: bool, transparent: bool)
    ensures var r := UpdateIcon(t, show, transparent);
      AcceptedBy(t.added, r.calls) && ShellShows(t.added, r.calls) == r.state.added
  {
  }

  // ---------------------------------------------------------------- blinking

  /** `DispatcherTimerBlinkTick`: while visible with an icon, re-sends the icon with the transparency flipped. */
  function BlinkTick(t: Tray): (r: Reaction)
    ensures !t.visible || t.iconCurrentHandle == 0 ==> r == Reaction(t, [], [])
    ensures t.visible && t.iconCurrentHandle != 0 && !t.designMode ==>
      && r.state.isTransparent == !t.isTransparent
      && r.state.added
      && r.calls == [ShellNotifyIcon(if t.added then NimModify else NimAdd, if t.isTransparent then t.iconCurrentHandle else 0)]
  {
    if !t.visible || t.iconCurrentHandle == 0 then Reaction(t, [], [])
    else UpdateIcon(t, true, !t.isTransparent)
  }

  /** Two blink ticks of a shown icon bring the transparency back and leave the icon in the tray. */
  lemma BlinkTwiceRestores(t: Tray)
    requires t.visible && t.iconCurrentHandle != 0 && t.added
    ensures var second := BlinkTick(BlinkTick(t).state);
      && second.state.isTransparent == t.isTransparent
      && second.state.added
      && (!t.designMode ==> second.calls[0].message == NimModify)
  {
  }

  /**
    `OnIsBlinkChanged`: ignored while hidden; turning blinking on creates the timer if needed and
    starts it; turning it off stops and drops the timer and shows the icon normally.
  */
  function SetIsBlink(t: Tray, isBlink: bool): (r: Reaction)
    ensures !t.visible ==> r == Reaction(t.(isBlink := isBlink), [], [])
    ensures t.visible && isBlink ==> r == Reaction(t.(isBlink := true, blinkTimer := Running), [], [])
    ensures t.visible && !isBlink ==>
      r.state.blinkTimer == NoTimer && (!t.designMode ==> !r.state.isTransparent && r.state.added)
  {
    var t' := t.(isBlink := isBlink);
    if !t'.visible then Reaction(t', [], [])
    else if isBlink then Reaction(t'.(blinkTimer := Running), [], [])
    else UpdateIcon(t'.(blinkTimer := NoTimer), true, false)
  }

  /**
    `OnVisibilityChanged`: becoming visible loads the icon when there is none (`loaded` is the
    handle `OnIconChanged` obtains) and shows it; becoming hidden removes a loaded icon.
  */
  function SetVisibility(t: Tray, visible: bool, loaded: int): (r: Reaction)
    ensures r.state.visible == visible
    ensures visible && !t.designMode ==> r.state.added && !r.state.isTransparent
    ensures visible && t.iconCurrentHandle == 0 ==> r.state.iconCurrentHandle == loaded
    ensures !visible && t.iconCurrentHandle != 0 && !t.designMode ==> !r.state.added
    ensures !visible && t.iconCurrentHandle == 0 ==> r == Reaction(t.(visible := false), [], [])
  {
    var t' := t.(visible := visible);
    if visible then
      var withIcon := if t'.iconCurrentHandle == 0 then t'.(iconCurrentHandle := loaded) else t';
      UpdateIcon(withIcon, true, false)
    else if t'.iconCurrentHandle != 0 then UpdateIcon(t', false, false)
    else Reaction(t', [], [])
  }

  // ---------------------------------------------------------------- mouse

  /** `WmMouseDown`: only a double click (two clicks) raises MouseDoubleClick and sets the flag. */
  function WmMouseDown(t: Tray, button: MouseButton, clicks: int): (r: Reaction)
    ensures r.calls == []
    ensures clicks == 2 ==> r.state == t.(doubleClick := true) && r.events == [DoubleClick(button)]
    ensures clicks != 2 ==> r == Reaction(t, [], [])
  {
    if clicks == 2 then Reaction(t.(doubleClick := true), [], [DoubleClick(button)])
    else Reaction(t, [], [])
  }

  /**
    `WmMouseUp`: a left button-up raises Click unless it ends a double click; every button-up
    clears the double-click flag.
  */
  function WmMouseUp(t: Tray, button: MouseButton): (r: Reaction)
    ensures r.calls == [] && r.state == t.(doubleClick := false)
    ensures r.events == [Click(button)] <==> button == Left && !t.doubleClick
    ensures r.events == [] <==> button != Left || t.doubleClick
  {
    var events := if !t.doubleClick && button == Left then [Click(button)] else [];
    Reaction(t.(doubleClick := false), [], events)
  }

  /**
    The `switch` on a tray mouse message's lParam: double-click, left and right button-up (the
    latter after showing the context menu), and a mouse move that starts the position timer
    unless it already runs; any other lParam is ignored.
  */
  function Dispatch(t: Tray, lParam: int, positionTimerEnabled: bool): (r: Reaction)
    ensures r.calls == []
    ensures forall i :: 0 <= i < |r.events| && r.events[i].Click? ==> r.events[i].button == Left
    ensures lParam == WmRButtonUp ==> r.events == [ShowContextMenu] && !r.state.doubleClick
    ensures lParam == WmMouseMove ==> r.state == t && (StartPositionTimer in r.events <==> !positionTimerEnabled)
    ensures lParam !in {WmLButtonDblClk, WmLButtonUp, WmRButtonUp, WmMouseMove} ==> r == Reaction(t, [], [])
  {
    if lParam == WmLButtonDblClk then WmMouseDown(t, Left, 2)
    else if lParam == WmLButtonUp then WmMouseUp(t, Left)
    else if lParam == WmRButtonUp then
      var up := WmMouseUp(t, Right);
      Reaction(up.state, [], [ShowContextMenu] + up.events)
    else if lParam == WmMouseMove then
      Reaction(t, [], if positionTimerEnabled then [] else [StartPositionTimer])
    else Reaction(t, [], [])
  }

  /**
    The tray window's `Callback` as the control writes it. Nothing happens before the control
    is loaded. The `TaskbarCreated` message, which a restarted shell broadcasts, calls
    `UpdateIcon(true)`; any other message is dispatched on its lParam.
  */
  function CallbackAsWritten(t: Tray, isLoaded: bool, msg: int, lParam: int, wmTaskbarCreated: int, positionTimerEnabled: bool)
    : (r: Reaction)
    ensures !isLoaded ==> r == Reaction(t, [], [])
    ensures isLoaded && msg == wmTaskbarCreated ==> r == UpdateIcon(t, true, false)
    ensures isLoaded && msg != wmTaskbarCreated ==> r == Dispatch(t, lParam, positionTimerEnabled)
  {
    if !isLoaded then Reaction(t, [], [])
    else if msg == wmTaskbarCreated then UpdateIcon(t, true, false)
    else Dispatch(t, lParam, positionTimerEnabled)
  }

  /**
    A restarted shell holds no icon, but `_added` still says the icon is there, so the
    `TaskbarCreated` handler sends NIM_MODIFY: the shell rejects it, the icon stays missing, and
    the control goes on believing it is shown.
  */
  lemma TaskbarRestartAsWrittenLosesIcon(t: Tray, wmTaskbarCreated: int, lParam: int, positionTimerEnabled: bool)
    requires t.added && !t.designMode
    ensures var r := CallbackAsWritten(t, true, wmTaskbarCreated, lParam, wmTaskbarCreated, positionTimerEnabled);
      && r.calls == [ShellNotifyIcon(NimModify, t.iconCurrentHandle)]
      && !AcceptedBy(false, r.calls)
      && !ShellShows(false, r.calls)
      && r.state.added
  {
  }

  /**
    `Callback`, with the `TaskbarCreated` handler corrected: the new shell holds no icon, so
    `added` is cleared before the icon is shown again, which adds it with NIM_ADD. Mouse
    messages are handled as written.
  */
  function Callback(t: Tray, isLoaded: bool, msg: int, lParam: int, wmTaskbarCreated: int, positionTimerEnabled: bool): (r: Reaction)
    ensures !isLoaded ==> r == Reaction(t, [], [])
    ensures isLoaded && msg == wmTaskbarCreated && !t.designMode ==>
      r.calls == [ShellNotifyIcon(NimAdd, t.iconCurrentHandle)] && r.state.added && !r.state.isTransparent
    ensures isLoaded && msg == wmTaskbarCreated && t.designMode ==> r.calls == [] && r.events == []
    ensures isLoaded && msg != wmTaskbarCreated ==> r == CallbackAsWritten(t, isLoaded, msg, lParam, wmTaskbarCreated, positionTimerEnabled)
  {
    if !isLoaded then Reaction(t, [], [])
    else if msg == wmTaskbarCreated then UpdateIcon(t.(added := false), true, false)
    else Dispatch(t, lParam, positionTimerEnabled)
  }

  /**
    After a shell restart the corrected handler sends only calls the new, empty shell accepts,
    and afterwards the shell shows the icon and `added` says so, whatever `added` was before.
  */
  lemma TaskbarRestartRestoresIcon(t: Tray, wmTaskbarCreated: int, lParam: int, positionTimerEnabled: bool)
    requires !t.designMode
    ensures var r := Callback(t, true, wmTaskbarCreated, lParam, wmTaskbarCreated, positionTimerEnabled);
      && AcceptedBy(false, r.calls)
      && ShellShows(false, r.calls)
      && r.state.added
  {
  }

  /** The events a loaded icon raises for a series of tray mouse messages. */
  function MouseEvents(t: Tray, lParams: seq<int>, wmTaskbarCreated: int): (r: Reaction)
    requires wmTaskbarCreated != WmTrayMouseMessage
    ensures r.calls == []
    decreases |lParams|
  {
    if |lParams| == 0 then Reaction(t, [], [])
    else
      var first := Callback(t, true, WmTrayMouseMessage, lParams[0], wmTaskbarCreated, true);
      var rest := MouseEvents(first.state, lParams[1..], wmTaskbarCreated);
      Reaction(rest.state, [], first.events + rest.events)
  }

  /** The number of Click events in a list. */
  function Clicks(events: seq<Event>): nat
    decreases |events|
  {
    if |events| == 0 then 0 else (if events[0].Click? then 1 else 0) + Clicks(events[1..])
  }

  /**
    Whatever the messages, there are never more Clicks than left button-ups, and every Click is
    a left one.
  */
  lemma {:induction false} ClicksBoundedByLeftUps(t: Tray, lParams: seq<int>, wmTaskbarCreated: int)
    requires wmTaskbarCreated != WmTrayMouseMessage
    ensures var r := MouseEvents(t, lParams, wmTaskbarCreated);
      && Clicks(r.events) <= multiset(lParams)[WmLButtonUp]
      && forall i :: 0 <= i < |r.events| && r.events[i].Click? ==> r.events[i].button == Left
    decreases |lParams|
  {
    if |lParams| > 0 {
      var first := Callback(t, true, WmTrayMouseMessage, lParams[0], wmTaskbarCreated, true);
      ClicksBoundedByLeftUps(first.state, lParams[1..], wmTaskbarCreated);
      var rest := MouseEvents(first.state, lParams[1..], wmTaskbarCreated);
      ClicksAppend(first.events, rest.events);
      assert lParams == [lParams[0]] + lParams[1..];
      FirstEventClicks(t, lParams[0], wmTaskbarCreated);
    }
  }

  lemma FirstEventClicks(t: Tray, lParam: int, wmTaskbarCreated: int)
    requires wmTaskbarCreated != WmTrayMouseMessage
    ensures Clicks(Callback(t, true, WmTrayMouseMessage, lParam, wmTaskbarCreated, true).events) <= (if lParam == WmLButtonUp then 1 else 0)
  {
    var e := Callback(t, true, WmTrayMouseMessage, lParam, wmTaskbarCreated, true).events;
    if |e| == 1 {
      assert e[1..] == [];
    }
  }

  lemma {:induction false} ClicksAppend(a: seq<Event>, b: seq<Event>)
    ensures Clicks(a + b) == Clicks(a) + Clicks(b)
    decreases |a|
  {
    if |a| > 0 {
      assert (a + b)[0] == a[0];
      assert (a + b)[1..] == a[1..] + b;
      ClicksAppend(a[1..], b);
    } else {
      assert a + b == b;
    }
  }

  /**
    A double click as the system reports it — button down, up, double-click, up — raises one
    Click for the first release and one MouseDoubleClick, and no Click for the second release.
  */
  lemma DoubleClickSuppressesSecondClick(t: Tray, wmTaskbarCreated: int)
    requires !t.doubleClick
    requires wmTaskbarCreated != WmTrayMouseMessage
    ensures MouseEvents(t, [WmLButtonDown, WmLButtonUp, WmLButtonDblClk, WmLButtonUp], wmTaskbarCreated).events
      == [Click(Left), DoubleClick(Left)]
  {
    var s := [WmLButtonDown, WmLButtonUp, WmLButtonDblClk, WmLButtonUp];
    var r0 := Callback(t, true, WmTrayMouseMessage, WmLButtonDown, wmTaskbarCreated, true);
    assert r0 == Reaction(t, [], []);
    var r1 := Callback(r0.state, true, WmTrayMouseMessage, WmLButtonUp, wmTaskbarCreated, true);
    assert r1.events == [Click(Left)] && !r1.state.doubleClick;
    var r2 := Callback(r1.state, true, WmTrayMouseMessage, WmLButtonDblClk, wmTaskbarCreated, true);
    assert r2.events == [DoubleClick(Left)] && r2.state.doubleClick;
    var r3 := Callback(r2.state, true, WmTrayMouseMessage, WmLButtonUp, wmTaskbarCreated, true);
    assert r3.events == [];
    assert s[1..] == [WmLButtonUp, WmLButtonDblClk, WmLButtonUp];
    assert s[1..][1..] == [WmLButtonDblClk, WmLButtonUp];
    assert s[1..][1..][1..] == [WmLButtonUp];
    assert MouseEvents(r3.state, s[1..][1..][1..][1..], wmTaskbarCreated).events == [];
    assert MouseEvents(r2.state, s[1..][1..][1..], wmTaskbarCreated).events == [];
    assert MouseEvents(r1.state, s[1..][1..], wmTaskbarCreated).events == [DoubleClick(Left)];
    assert MouseEvents(r0.state, s[1..], wmTaskbarCreated).events == [Click(Left), DoubleClick(Left)];
  }

  // ---------------------------------------------------------------- dispose

  /**
    `Dispose(bool)`: once only. An explicit dispose stops a running blink timer and removes the
    icon from the tray; the finalizer only marks the control disposed.
  */
  function Dispose(t: Tray, disposing: bool): (r: Reaction)
    ensures r.state.isDisposed && r.events == []
    ensures t.isDisposed ==> r == Reaction(t, [], [])
    ensures !t.isDisposed && disposing && !t.designMode ==>
      !r.state.added && (r.calls == if t.added then [ShellNotifyIcon(NimDelete, t.iconCurrentHandle)] else [])
    ensures !t.isDisposed && !disposing ==> r == Reaction(t.(isDisposed := true), [], [])
    ensures !t.isDisposed && disposing && t.blinkTimer != NoTimer && t.isBlink ==> r.state.blinkTimer == Stopped
  {
    if t.isDisposed then Reaction(t, [], [])
    else if disposing then
      var stopped := if t.blinkTimer != NoTimer && t.isBlink then t.(blinkTimer := Stopped) else t;
      var hidden := UpdateIcon(stopped, false, false);
      Reaction(hidden.state.(isDisposed := true), hidden.calls, [])
    else Reaction(t.(isDisposed := true), [], [])
  }

  /** A second dispose, of either kind, does nothing. */
  lemma DisposeIdempotent(t: Tray, disposing1: bool, disposing2: bool)
    ensures var first := Dispose(t, disposing1);
      Dispose(first.state, disposing2) == Reaction(first.state, [], [])
  {
  }

  // ---------------------------------------------------------------- cursor test

  /**
    The containment test of `CheckMouseIsEnter`: the cursor is over the icon exactly when the
    icon's rectangle was found and the cursor lies in it, all four edges included; a point one
    pixel outside any edge is not over it.
  */
  function CursorOverIcon(found: bool, icon: Rect, cursor: Point): (r: bool)
    ensures !found ==> !r
    ensures found && icon.left <= cursor.x <= icon.right && icon.top <= cursor.y <= icon.bottom ==> r
    ensures cursor.x < icon.left || cursor.x > icon.right || cursor.y < icon.top || cursor.y > icon.bottom ==> !r
  {
    found && icon.left <= cursor.x <= icon.right && icon.top <= cursor.y <= icon.bottom
  }
}
