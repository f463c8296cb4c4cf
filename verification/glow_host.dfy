/**
  The chrome window's side of the glow border: the four glow windows it owns, the counter of
  open change scopes that defers their commits, and the operations that push its colours,
  activity, visibility and bounds to them. A change scope is a disposable object; opening one
  increments the counter, disposing it decrements the counter once, and the glow windows commit
  when the last scope closes. The window's own state that the glow code reads (its activity,
  its colours, whether the glow should show, its bounds) arrives as parameters.
*/
module GlowHost {
  import opened Int32
  import opened NativeMethods
  import opened GlowBitmap
  import opened GlowLayout
  import opened GlowWindow
  import DisposableObject

  /**
    The chrome window's glow state. `glows` holds the glow windows created so far, by side;
    `timerRunning` is whether the delayed-visibility timer is running.
  */
  datatype Host = Host(
    deferCount: int,
    isGlowVisible: bool,
    timerRunning: bool,
    isActive: bool,
    activeGlowColor: Color,
    inactiveGlowColor: Color,
    glows: map<Dock, Glow>)

  /** A glow window's `IsDeferringChanges`: some change scope is open. */
  predicate Deferring(h: Host) {
    h.deferCount > 0
  }

  /** Assigns a property on every loaded glow window, committing each unless deferring. */
  function AssignAll(glows: map<Dock, Glow>, a: Assignment, deferring: bool, env: RenderEnv): (r: map<Dock, Glow>)
    ensures r.Keys == glows.Keys
    ensures forall d :: d in r ==> Holds(r[d], a) && SameProperties(r[d], Assign(glows[d], a))
    ensures forall d :: d in r && Holds(glows[d], a) ==> r[d] == glows[d]
  {
    map d | d in glows :: UpdateProperty(glows[d], a, deferring, env).state
  }

  /** `EndDeferGlowChanges`: every loaded glow window commits its pending changes. */
  function CommitAll(glows: map<Dock, Glow>, env: RenderEnv): (r: map<Dock, Glow>)
    ensures r.Keys == glows.Keys
    ensures forall d :: d in r ==> SameProperties(r[d], glows[d]) && r[d].invalidatedValues == NoFields
  {
    map d | d in glows :: CommitChanges(glows[d], env).state
  }

  /** `DeferGlowChanges`: a new change scope, counted as open. */
  function OpenScope(h: Host): (r: (Host, DisposableObject.Disposable))
    ensures r.0.deferCount == h.deferCount + 1 && Deferring(r.0) == (h.deferCount >= 0)
    ensures r.0.glows == h.glows && !r.1.isDisposed
  {
    (h.(deferCount := h.deferCount + 1), DisposableObject.Initial)
  }

  /**
    Disposing a change scope: the first disposal decrements the counter and, when it reaches
    zero, commits every glow window; disposing the same scope again does nothing.
  */
  function CloseScope(h: Host, scope: DisposableObject.Disposable, env: RenderEnv): (r: (Host, DisposableObject.Disposable))
    requires scope.handlers == []
    ensures r.1.isDisposed
    ensures scope.isDisposed ==> r.0 == h
    ensures !scope.isDisposed ==> r.0.deferCount == h.deferCount - 1
    ensures !scope.isDisposed && h.deferCount != 1 ==> r.0.glows == h.glows
    ensures !scope.isDisposed && h.deferCount == 1 ==> r.0.glows == CommitAll(h.glows, env)
    ensures r.0.isGlowVisible == h.isGlowVisible && r.0.timerRunning == h.timerRunning
    ensures r.0.glows.Keys == h.glows.Keys
    ensures forall d :: d in r.0.glows ==> SameProperties(r.0.glows[d], h.glows[d])
    ensures !scope.isDisposed && h.deferCount == 1 ==> forall d :: d in r.0.glows ==> r.0.glows[d].invalidatedValues == NoFields
  {
    var outcome := DisposableObject.Dispose(scope, DisposableObject.NoFault);
    if !outcome.managedCalled then (h, outcome.state)
    else
      var h' := h.(deferCount := h.deferCount - 1);
      if h'.deferCount != 0 then (h', outcome.state)
      else (h'.(glows := CommitAll(h'.glows, env)), outcome.state)
  }

  /**
    Nested scopes restore the counter: closing the inner one commits nothing, and closing the
    outer one leaves the counter where it started, committing exactly when it started at zero.
  */
  lemma NestedScopes(h: Host, env: RenderEnv)
    requires h.deferCount >= 0
    ensures var outer := OpenScope(h);
      var inner := OpenScope(outer.0);
      var h3 := CloseScope(inner.0, inner.1, env).0;
      var h4 := CloseScope(h3, outer.1, env).0;
      && h3 == outer.0
      && h4.deferCount == h.deferCount
      && (h.deferCount == 0 ==> h4.glows == CommitAll(h.glows, env))
      && (h.deferCount > 0 ==> h4 == h)
  {
  }

  /** A scope disposed twice decrements the counter once. */
  lemma CloseScopeTwice(h: Host, env: RenderEnv)
    ensures var started := OpenScope(h);
      var closed := CloseScope(started.0, started.1, env);
      CloseScope(closed.0, closed.1, env).0 == closed.0 && closed.0.deferCount == h.deferCount
  {
  }

  /**
    `UpdateGlowColors`: within one scope, every glow window takes the window's active and
    inactive glow colours.
  */
  function UpdateGlowColors(h: Host, env: RenderEnv): (r: Host)
    ensures r.glows.Keys == h.glows.Keys && r.deferCount == h.deferCount
    ensures forall d :: d in r.glows ==>
      r.glows[d].activeGlowColor == h.activeGlowColor && r.glows[d].inactiveGlowColor == h.inactiveGlowColor
    ensures h.deferCount == 0 ==> forall d :: d in r.glows ==> r.glows[d].invalidatedValues == NoFields
  {
    var opening := OpenScope(h);
    var started := opening.0;
    var both := AssignColors(started.glows, h.activeGlowColor, h.inactiveGlowColor, Deferring(started), env);
    CloseScope(started.(glows := both), opening.1, env).0
  }

  /** Assigns both glow colours on every loaded glow window, the active one first. */
  function AssignColors(glows: map<Dock, Glow>, active: Color, inactive: Color, deferring: bool, env: RenderEnv)
    : (r: map<Dock, Glow>)
    ensures r.Keys == glows.Keys
    ensures forall d :: d in r ==> r[d].activeGlowColor == active && r[d].inactiveGlowColor == inactive
  {
    var withActive := AssignAll(glows, SetActiveGlowColor(active), deferring, env);
    ActiveAssigned(glows, active, deferring, env);
    InactiveKeepsActive(withActive, inactive, deferring, env);
    AssignAll(withActive, SetInactiveGlowColor(inactive), deferring, env)
  }

  /** Assigning the active colour sets it on every loaded glow window. */
  lemma ActiveAssigned(glows: map<Dock, Glow>, active: Color, deferring: bool, env: RenderEnv)
    ensures var r := AssignAll(glows, SetActiveGlowColor(active), deferring, env);
      forall d :: d in r ==> r[d].activeGlowColor == active
  {
    var r := AssignAll(glows, SetActiveGlowColor(active), deferring, env);
    forall d | d in r
      ensures r[d].activeGlowColor == active
    {
      assert Holds(r[d], SetActiveGlowColor(active));
    }
  }

  /**
    Assigning the inactive colour leaves each glow window's active colour alone, and sets its
    inactive one.
  */
  lemma InactiveKeepsActive(glows: map<Dock, Glow>, inactive: Color, deferring: bool, env: RenderEnv)
    ensures var r := AssignAll(glows, SetInactiveGlowColor(inactive), deferring, env);
      forall d :: d in r ==> r[d].activeGlowColor == glows[d].activeGlowColor && r[d].inactiveGlowColor == inactive
  {
    var r := AssignAll(glows, SetInactiveGlowColor(inactive), deferring, env);
    forall d | d in r
      ensures r[d].activeGlowColor == glows[d].activeGlowColor && r[d].inactiveGlowColor == inactive
    {
      assert Holds(r[d], SetInactiveGlowColor(inactive));
      assert SameProperties(r[d], Assign(glows[d], SetInactiveGlowColor(inactive)));
    }
  }

  /** `UpdateGlowActiveState`: within one scope, every glow window takes the window's activity. */
  function UpdateGlowActiveState(h: Host, env: RenderEnv): (r: Host)
    ensures r.glows.Keys == h.glows.Keys && r.deferCount == h.deferCount
    ensures forall d :: d in r.glows ==> r.glows[d].isActive == h.isActive
    ensures h.deferCount == 0 ==> forall d :: d in r.glows ==> r.glows[d].invalidatedValues == NoFields
  {
    var opening := OpenScope(h);
    var started := opening.0;
    var updated := AssignAll(started.glows, SetIsActive(h.isActive), Deferring(started), env);
    ActivityAssigned(started.glows, h.isActive, Deferring(started), env);
    CloseScope(started.(glows := updated), opening.1, env).0
  }

  /** Assigning the activity sets it on every loaded glow window. */
  lemma ActivityAssigned(glows: map<Dock, Glow>, active: bool, deferring: bool, env: RenderEnv)
    ensures var r := AssignAll(glows, SetIsActive(active), deferring, env);
      forall d :: d in r ==> r[d].isActive == active
  {
    var r := AssignAll(glows, SetIsActive(active), deferring, env);
    forall d | d in r
      ensures r[d].isActive == active
    {
      assert Holds(r[d], SetIsActive(active));
    }
  }

  /**
    The `IsGlowVisible` setter: a change of value creates the missing glow windows (each set
    up with the window's colours and activity) and shows or hides all four.
  */
  function SetIsGlowVisible(h: Host, visible: bool, env: RenderEnv): (r: Host)
    ensures r.isGlowVisible == visible && r.deferCount == h.deferCount
    ensures h.isGlowVisible == visible ==> r == h
    ensures h.isGlowVisible != visible ==>
      && (forall d: Dock :: d in r.glows && r.glows[d].isVisible == visible)
      && (forall d :: d in h.glows ==> SameProperties(r.glows[d], Assign(h.glows[d], SetIsVisible(visible))))
  {
    if h.isGlowVisible == visible then h
    else
      var deferring := Deferring(h);
      var created := map d: Dock | true ::
        if d in h.glows then h.glows[d] else NewGlowFor(h, d, deferring, env);
      h.(isGlowVisible := visible, glows := AssignAll(created, SetIsVisible(visible), deferring, env))
  }

  /**
    `GetOrCreateGlowWindow` for a missing side: a new glow window with the window's active and
    inactive colours and activity, set through the property setters.
  */
  function NewGlowFor(h: Host, d: Dock, deferring: bool, env: RenderEnv): (g: Glow)
    ensures g.orientation == d && !g.isVisible
    ensures g.activeGlowColor == h.activeGlowColor && g.inactiveGlowColor == h.inactiveGlowColor
    ensures g.isActive == h.isActive
  {
    var s1 := UpdateProperty(NewGlow(d), SetActiveGlowColor(h.activeGlowColor), deferring, env);
    var s2 := UpdateProperty(s1.state, SetInactiveGlowColor(h.inactiveGlowColor), deferring, env);
    UpdateProperty(s2.state, SetIsActive(h.isActive), deferring, env).state
  }

  /**
    `UpdateGlowVisibility`: nothing when the glow already shows as it should; a glow about to
    appear while the minimize animation plays is delayed by (re)starting the timer; otherwise the
    timer stops and the glow takes the desired visibility.
  */
  function UpdateGlowVisibility(h: Host, shouldShow: bool, minimizeAnimation: bool, delay: bool, env: RenderEnv): (r: Host)
    ensures r.deferCount == h.deferCount
    ensures shouldShow == h.isGlowVisible ==> r == h
    ensures shouldShow != h.isGlowVisible && minimizeAnimation && shouldShow && delay ==> r == h.(timerRunning := true)
    ensures shouldShow != h.isGlowVisible && !(minimizeAnimation && shouldShow && delay) ==>
      r.isGlowVisible == shouldShow && !r.timerRunning
  {
    if shouldShow == h.isGlowVisible then h
    else if minimizeAnimation && shouldShow && delay then h.(timerRunning := true)
    else SetIsGlowVisible(h.(timerRunning := false), shouldShow, env)
  }

  /** Every visible glow window is repositioned around `rect`. */
  function PositionAll(glows: map<Dock, Glow>, rect: Rect, deferring: bool, env: RenderEnv): (r: map<Dock, Glow>)
    ensures r.Keys == glows.Keys
    ensures forall d :: d in r && glows[d].isVisible ==>
      (r[d].left, r[d].top, r[d].width, r[d].height) == StripBounds(glows[d].orientation, rect)
    ensures forall d :: d in r && !glows[d].isVisible ==> r[d] == glows[d]
    ensures forall d :: d in r ==> r[d].isVisible == glows[d].isVisible && r[d].orientation == glows[d].orientation
  {
    map d | d in glows :: UpdateWindowPos(glows[d], rect, deferring, env).state
  }

  /**
    `UpdateGlowWindowPositions`: within one scope, settles the glow's visibility, then moves
    every visible glow window around the window's rectangle `rect`.
  */
  function UpdateGlowWindowPositions(h: Host, delay: bool, shouldShow: bool, minimizeAnimation: bool, rect: Rect, env: RenderEnv)
    : (r: Host)
    requires h.deferCount >= 0
    ensures r.deferCount == h.deferCount
    ensures forall d :: d in r.glows && r.glows[d].isVisible ==>
      (r.glows[d].left, r.glows[d].top, r.glows[d].width, r.glows[d].height) == StripBounds(r.glows[d].orientation, rect)
    ensures h.deferCount == 0 ==> forall d :: d in r.glows ==> r.glows[d].invalidatedValues == NoFields
  {
    var opening := OpenScope(h);
    var shown := UpdateGlowVisibility(opening.0, shouldShow, minimizeAnimation, delay, env);
    PlaceAndClose(shown, opening.1, rect, env)
  }

  /** The second half of `UpdateGlowWindowPositions`: moves the visible glow windows, then closes the scope. */
  function PlaceAndClose(h: Host, scope: DisposableObject.Disposable, rect: Rect, env: RenderEnv): (r: Host)
    requires scope.handlers == [] && !scope.isDisposed
    ensures r.deferCount == h.deferCount - 1
    ensures forall d :: d in r.glows && r.glows[d].isVisible ==>
      (r.glows[d].left, r.glows[d].top, r.glows[d].width, r.glows[d].height) == StripBounds(r.glows[d].orientation, rect)
    ensures h.deferCount == 1 ==> forall d :: d in r.glows ==> r.glows[d].invalidatedValues == NoFields
  {
    var moved := h.(glows := PositionAll(h.glows, rect, true, env));
    VisibleStripsPlaced(h.glows, rect, env);
    CloseScope(moved, scope, env).0
  }

  /** After `PositionAll`, every visible glow window sits on its strip of `rect`. */
  lemma VisibleStripsPlaced(glows: map<Dock, Glow>, rect: Rect, env: RenderEnv)
    ensures var r := PositionAll(glows, rect, true, env);
      forall d :: d in r && r[d].isVisible ==>
        (r[d].left, r[d].top, r[d].width, r[d].height) == StripBounds(r[d].orientation, rect)
  {
    var r := PositionAll(glows, rect, true, env);
    forall d | d in r && r[d].isVisible
      ensures (r[d].left, r[d].top, r[d].width, r[d].height) == StripBounds(r[d].orientation, rect)
    {
      assert glows[d].isVisible && r[d].orientation == glows[d].orientation;
    }
  }

  /**
    `OnDelayedVisibilityTimerTick`: stops the timer and settles visibility and positions
    without further delay, so a delayed glow does appear.
  */
  function DelayedVisibilityTick(h: Host, shouldShow: bool, minimizeAnimation: bool, rect: Rect, env: RenderEnv): (r: Host)
    requires h.deferCount >= 0
    ensures r.deferCount == h.deferCount && !r.timerRunning
    ensures r.isGlowVisible == shouldShow
  {
    UpdateGlowWindowPositions(h.(timerRunning := false), false, shouldShow, minimizeAnimation, rect, env)
  }

  /**
    With no scope open, a colour update leaves every glow window showing the new colours with
    nothing pending, and every cached bitmap made with the current colour.
  */
  lemma ColorsCommittedAtTopLevel(h: Host, env: RenderEnv)
    requires h.deferCount == 0
    requires forall d :: d in h.glows ==> CacheCoherent(h.glows[d])
    ensures var r := UpdateGlowColors(h, env);
      forall d :: d in r.glows ==> CachesCurrent(r.glows[d]) && r.glows[d].invalidatedValues == NoFields
  {
    var s := h.(deferCount := 1);
    var withActive := AssignAll(s.glows, SetActiveGlowColor(s.activeGlowColor), true, env);
    var both := AssignAll(withActive, SetInactiveGlowColor(s.inactiveGlowColor), true, env);
    forall d | d in both
      ensures CacheCoherent(both[d])
    {
      UpdatePropertyKeepsCoherence(h.glows[d], SetActiveGlowColor(s.activeGlowColor), true, env);
      UpdatePropertyKeepsCoherence(withActive[d], SetInactiveGlowColor(s.inactiveGlowColor), true, env);
    }
    forall d | d in both
      ensures CachesCurrent(CommitChanges(both[d], env).state)
    {
      CommitMakesCachesCurrent(both[d], env);
    }
  }
}
