/**
  One glow window: the layered window along one side of the chrome window that paints the
  glow border. Its properties (position, size, visibility, activity, the two glow colours) are
  set through one guarded setter that records which aspects became stale in a set of
  invalidation flags; committing the changes clears the bitmap caches whose colour changed,
  moves or resizes the window with `SetWindowPos` when its placement changed, and repaints it
  (at once, or at the next frame when only its appearance changed). Native calls are recorded
  as effects; the drawing context and the alpha-mask sizes are a parameter.
*/
module GlowWindow {
  import opened Int32
  import opened NativeMethods
  import opened GlowBitmap
  import opened GlowLayout

  // ---------------------------------------------------------------- FieldInvalidationTypes

  const NoFields: bv8 := 0
  const LocationField: bv8 := 1
  const SizeField: bv8 := 2
  const ActiveColorField: bv8 := 4
  const InactiveColorField: bv8 := 8
  const RenderField: bv8 := 16
  const VisibilityField: bv8 := 32

  /** Every flag the enum declares. */
  const AllFields: bv8 := 63

  /** The grip length at each end of a strip that resizes diagonally. */
  const CornerGripThickness: int := 18

  // `WM_NCHITTEST` results.
  const HtLeft: int := 10
  const HtRight: int := 11
  const HtTop: int := 12
  const HtTopLeft: int := 13
  const HtTopRight: int := 14
  const HtBottom: int := 15
  const HtBottomLeft: int := 16
  const HtBottomRight: int := 17

  // `SetWindowPos` flags besides the ones in `NativeMethods`.
  const SwpNoZOrder: bv32 := 4
  const SwpNoActivate: bv32 := 16
  const SwpHideWindow: bv32 := 128
  const SwpNoOwnerZOrder: bv32 := 512

  /** `Colors.Transparent`, the initial glow colour: #00FFFFFF. */
  const Transparent: Color := Color(0, 255, 255, 255)

  /**
    A glow window's fields. Each bitmap cache maps a part to the colour its cached bitmap was
    made with; a part without a bitmap is absent.
  */
  datatype Glow = Glow(
    orientation: Dock,
    left: int32, top: int32, width: int32, height: int32,
    isVisible: bool, isActive: bool,
    activeGlowColor: Color, inactiveGlowColor: Color,
    invalidatedValues: bv8,
    activeCache: map<GlowBitmapPart, Color>,
    inactiveCache: map<GlowBitmapPart, Color>,
    pendingDelayRender: bool)

  /** A new glow window: everything zero, false, transparent or empty. */
  function NewGlow(orientation: Dock): (g: Glow)
    ensures g.invalidatedValues == NoFields && g.activeCache == map[] && g.inactiveCache == map[]
  {
    Glow(orientation, 0, 0, 0, 0, false, false, Transparent, Transparent, NoFields, map[], map[], false)
  }

  /** A native call, or a frame-callback subscription, made by a glow window. */
  datatype Effect =
    | ClearActiveCache
    | ClearInactiveCache
    | SetWindowPos(x: int32, y: int32, cx: int32, cy: int32, flags: bv32)
    | SubscribeRendering
    | UnsubscribeRendering
    | CreateBitmap(part: GlowBitmapPart, color: Color)
    | UpdateLayeredWindow(x: int32, y: int32, cx: int32, cy: int32, blends: seq<Blend>, colors: seq<Color>)

  /**
    What painting depends on outside the glow window: whether the GDI drawing context could be
    set up, and the size of each part's alpha mask.
  */
  datatype RenderEnv = RenderEnv(contextReady: bool, maskSize: GlowBitmapPart -> Size)

  datatype Step = Step(state: Glow, effects: seq<Effect>)

  /** `InvalidatedValuesHasFlag`: some flag of `flags` is set. */
  predicate HasFlag(g: Glow, flags: bv8) {
    (g.invalidatedValues & flags) != 0
  }

  /** The fields a commit never touches: everything but the flags, the caches and the render subscription. */
  predicate SameProperties(a: Glow, b: Glow) {
    && a.orientation == b.orientation
    && a.left == b.left && a.top == b.top && a.width == b.width && a.height == b.height
    && a.isVisible == b.isVisible && a.isActive == b.isActive
    && a.activeGlowColor == b.activeGlowColor && a.inactiveGlowColor == b.inactiveGlowColor
  }

  // ---------------------------------------------------------------- hit testing

  /**
    `WmNcHitTest`: the sizing code a strip reports for a point (packed in `lParam`), given the
    strip's window rectangle. A point within the corner grip of a strip's end resizes
    diagonally; the top grip wins over the bottom one on a short strip.
  */
  function WmNcHitTest(orientation: Dock, lParam: int32, rect: Rect): (code: int)
    ensures orientation == Dock.Left ==> code in {HtTopLeft, HtLeft, HtBottomLeft}
    ensures orientation == Dock.Top ==> code in {HtTopLeft, HtTop, HtTopRight}
    ensures orientation == Dock.Right ==> code in {HtTopRight, HtRight, HtBottomRight}
    ensures orientation == Dock.Bottom ==> code in {HtBottomLeft, HtBottom, HtBottomRight}
  {
    var x := GetXLParam(lParam);
    var y := GetYLParam(lParam);
    match orientation
    case Left =>
      if y - CornerGripThickness < rect.top then HtTopLeft
      else if y + CornerGripThickness > rect.bottom then HtBottomLeft else HtLeft
    case Top =>
      if x - CornerGripThickness < rect.left then HtTopLeft
      else if x + CornerGripThickness > rect.right then HtTopRight else HtTop
    case Right =>
      if y - CornerGripThickness < rect.top then HtTopRight
      else if y + CornerGripThickness > rect.bottom then HtBottomRight else HtRight
    case Bottom =>
      if x - CornerGripThickness < rect.left then HtBottomLeft
      else if x + CornerGripThickness > rect.right then HtBottomRight else HtBottom
  }

  /** The code a strip reports near its start (top or left end). */
  function StartCode(orientation: Dock): int {
    match orientation
    case Left => HtTopLeft
    case Top => HtTopLeft
    case Right => HtTopRight
    case Bottom => HtBottomLeft
  }

  /** The code a strip reports along its middle. */
  function EdgeCode(orientation: Dock): int {
    match orientation
    case Left => HtLeft
    case Top => HtTop
    case Right => HtRight
    case Bottom => HtBottom
  }

  /** The code a strip reports near its end (bottom or right end). */
  function EndCode(orientation: Dock): int {
    match orientation
    case Left => HtBottomLeft
    case Top => HtTopRight
    case Right => HtBottomRight
    case Bottom => HtBottomRight
  }

  /**
    Along a strip (y for a side strip, x otherwise) the start code is reported exactly within
    the grip of its start, the end code exactly within the grip of its end but not the start's,
    and the edge code exactly in between. On a strip longer than both grips all three occur.
  */
  lemma HitTestGrips(orientation: Dock, x: int16, y: int16, rect: Rect)
    ensures var code := WmNcHitTest(orientation, MakeParam(x, y), rect);
      var side := orientation.Left? || orientation.Right?;
      var pos := if side then y as int else x as int;
      var lo := if side then rect.top as int else rect.left as int;
      var hi := if side then rect.bottom as int else rect.right as int;
      && (code == StartCode(orientation) <==> pos < lo + CornerGripThickness)
      && (code == EdgeCode(orientation) <==> lo + CornerGripThickness <= pos <= hi - CornerGripThickness)
      && (code == EndCode(orientation) <==> lo + CornerGripThickness <= pos && hi - CornerGripThickness < pos)
  {
    ParamRoundTrip(x, y);
  }

  // ---------------------------------------------------------------- commit

  /** `InvalidateCachedBitmaps`: a cache is emptied exactly when its colour flag is set. */
  function InvalidateCachedBitmaps(g: Glow): (r: Step)
    ensures r.state == g.(activeCache := if HasFlag(g, ActiveColorField) then map[] else g.activeCache,
                          inactiveCache := if HasFlag(g, InactiveColorField) then map[] else g.inactiveCache)
    ensures (ClearActiveCache in r.effects <==> HasFlag(g, ActiveColorField))
    ensures (ClearInactiveCache in r.effects <==> HasFlag(g, InactiveColorField))
    ensures forall e :: e in r.effects ==> e == ClearActiveCache || e == ClearInactiveCache
  {
    var a := if HasFlag(g, ActiveColorField) then Step(g.(activeCache := map[]), [ClearActiveCache]) else Step(g, []);
    if HasFlag(a.state, InactiveColorField) then Step(a.state.(inactiveCache := map[]), a.effects + [ClearInactiveCache])
    else a
  }

  /**
    The `SetWindowPos` flags of `UpdateWindowPosCore`: 532 (no z-order change, no activation,
    no owner z-order change), plus show (64) or hide (131) when visibility changed, plus no-move
    (2) when the location did not change and no-size (1) when the size did not.
  */
  function WindowPosFlags(invalidated: bv8, isVisible: bool): (flags: bv32)
    ensures (flags & (SwpNoZOrder | SwpNoActivate | SwpNoOwnerZOrder)) == SwpNoZOrder | SwpNoActivate | SwpNoOwnerZOrder
    ensures (flags & SwpShowWindow != 0) <==> (invalidated & VisibilityField != 0) && isVisible
    ensures (flags & SwpHideWindow != 0) <==> (invalidated & VisibilityField != 0) && !isVisible
    ensures (flags & SwpNoMove != 0) <==>
      (invalidated & LocationField == 0) || ((invalidated & VisibilityField != 0) && !isVisible)
    ensures (flags & SwpNoSize != 0) <==>
      (invalidated & SizeField == 0) || ((invalidated & VisibilityField != 0) && !isVisible)
    ensures flags & !(SwpNoZOrder | SwpNoActivate | SwpNoOwnerZOrder | SwpShowWindow | SwpHideWindow | SwpNoMove | SwpNoSize) == 0
  {
    var base: bv32 := 532;
    var shown: bv32 := if invalidated & VisibilityField != 0 then (if isVisible then base | 64 else base | 131) else base;
    var moved: bv32 := if invalidated & LocationField == 0 then shown | 2 else shown;
    if invalidated & SizeField == 0 then moved | 1 else moved
  }

  /**
    `UpdateWindowPosCore`: one `SetWindowPos` with the current bounds when the location, the
    size or the visibility changed, and nothing otherwise.
  */
  function UpdateWindowPosCore(g: Glow): (r: Step)
    ensures r.state == g
    ensures !HasFlag(g, LocationField | SizeField | VisibilityField) ==> r.effects == []
    ensures HasFlag(g, LocationField | SizeField | VisibilityField) ==>
      r.effects == [SetWindowPos(g.left, g.top, g.width, g.height, WindowPosFlags(g.invalidatedValues, g.isVisible))]
  {
    if !HasFlag(g, LocationField | SizeField | VisibilityField) then Step(g, [])
    else Step(g, [SetWindowPos(g.left, g.top, g.width, g.height, WindowPosFlags(g.invalidatedValues, g.isVisible))])
  }

  /** `IsPositionValid`: neither the location, the size nor the visibility is stale. */
  predicate IsPositionValid(g: Glow) {
    !HasFlag(g, LocationField | SizeField | VisibilityField)
  }

  /** `BeginDelayedRender`: subscribes to the next frame once. */
  function BeginDelayedRender(g: Glow): (r: Step)
    ensures r.state == g.(pendingDelayRender := true)
    ensures r.effects == if g.pendingDelayRender then [] else [SubscribeRendering]
  {
    if g.pendingDelayRender then Step(g, []) else Step(g.(pendingDelayRender := true), [SubscribeRendering])
  }

  /** `CancelDelayedRender`: unsubscribes a pending frame callback. */
  function CancelDelayedRender(g: Glow): (r: Step)
    ensures r.state == g.(pendingDelayRender := false)
    ensures r.effects == if g.pendingDelayRender then [UnsubscribeRendering] else []
  {
    if !g.pendingDelayRender then Step(g, []) else Step(g.(pendingDelayRender := false), [UnsubscribeRendering])
  }

  /**
    `GetOrCreateBitmap` for each part in turn: a part missing from the cache gets a new bitmap of
    `color`; a cached one is reused whatever its colour.
  */
  function GetOrCreateBitmaps(cache: map<GlowBitmapPart, Color>, parts: seq<GlowBitmapPart>, color: Color)
    : (r: (map<GlowBitmapPart, Color>, seq<Effect>))
    ensures forall p :: p in r.0 <==> p in cache || p in parts
    ensures forall p :: p in cache ==> r.0[p] == cache[p]
    ensures forall p :: p in parts && p !in cache ==> r.0[p] == color
    ensures forall e :: e in r.1 ==> e.CreateBitmap? && e.color == color && e.part in parts && e.part !in cache
    decreases |parts|
  {
    if |parts| == 0 then (cache, [])
    else
      var p := parts[0];
      if p in cache then GetOrCreateBitmaps(cache, parts[1..], color)
      else
        var rest := GetOrCreateBitmaps(cache[p := color], parts[1..], color);
        (rest.0, [CreateBitmap(p, color)] + rest.1)
  }

  /** The colour each blend paints with: the colour of the cached bitmap of its part. */
  function BlendColors(cache: map<GlowBitmapPart, Color>, blends: seq<Blend>): (r: seq<Color>)
    requires forall i :: 0 <= i < |blends| ==> blends[i].part in cache
    ensures |r| == |blends|
    ensures forall i :: 0 <= i < |r| ==> r[i] == cache[blends[i].part]
  {
    seq(|blends|, i requires 0 <= i < |blends| => cache[blends[i].part])
  }

  /** The bitmap cache of the window's current activity state. */
  function CurrentCache(g: Glow): map<GlowBitmapPart, Color> {
    if g.isActive then g.activeCache else g.inactiveCache
  }

  /**
    The effects end with one `UpdateLayeredWindow` at the window's position and size, blending
    the strip layout of its orientation, each blend painted with the colour `cache` holds for
    its part.
  */
  predicate Paints(effects: seq<Effect>, g: Glow, env: RenderEnv, cache: map<GlowBitmapPart, Color>) {
    && |effects| > 0
    && var last := effects[|effects| - 1];
    && last.UpdateLayeredWindow?
    && last.x == g.left && last.y == g.top && last.cx == g.width && last.cy == g.height
    && last.blends == Draw(g.orientation, env.maskSize, g.width, g.height)
    && |last.colors| == |last.blends|
    && forall i :: 0 <= i < |last.blends| ==> last.blends[i].part in cache && last.colors[i] == cache[last.blends[i].part]
  }

  /**
    `RenderLayeredWindow`: with a drawing context, fills the cache of the current activity state
    with the strip's parts, blends them and pushes the result to the layered window at the
    window's position and size.
  */
  function RenderLayeredWindow(g: Glow, env: RenderEnv): (r: Step)
    ensures SameProperties(r.state, g) && r.state.invalidatedValues == g.invalidatedValues
    ensures r.state.pendingDelayRender == g.pendingDelayRender
    ensures !env.contextReady ==> r == Step(g, [])
    ensures env.contextReady ==> Paints(r.effects, g, env, CurrentCache(r.state))
    ensures forall e :: e in r.effects ==> e.CreateBitmap? || e.UpdateLayeredWindow?
    ensures g.isActive ==> r.state.inactiveCache == g.inactiveCache
    ensures !g.isActive ==> r.state.activeCache == g.activeCache
    ensures forall p :: p in g.activeCache ==> p in r.state.activeCache && r.state.activeCache[p] == g.activeCache[p]
    ensures forall p :: p in g.inactiveCache ==> p in r.state.inactiveCache && r.state.inactiveCache[p] == g.inactiveCache[p]
    ensures forall p :: p in r.state.activeCache && p !in g.activeCache ==> r.state.activeCache[p] == g.activeGlowColor
    ensures forall p :: p in r.state.inactiveCache && p !in g.inactiveCache ==> r.state.inactiveCache[p] == g.inactiveGlowColor
  {
    if !env.contextReady then Step(g, [])
    else
      var parts := PartsOf(g.orientation);
      var blends := Draw(g.orientation, env.maskSize, g.width, g.height);
      if g.isActive then
        var filled := GetOrCreateBitmaps(g.activeCache, parts, g.activeGlowColor);
        var colors := BlendColors(filled.0, blends);
        Step(g.(activeCache := filled.0), filled.1 + [UpdateLayeredWindow(g.left, g.top, g.width, g.height, blends, colors)])
      else
        var filled := GetOrCreateBitmaps(g.inactiveCache, parts, g.inactiveGlowColor);
        var colors := BlendColors(filled.0, blends);
        Step(g.(inactiveCache := filled.0), filled.1 + [UpdateLayeredWindow(g.left, g.top, g.width, g.height, blends, colors)])
  }

  /**
    `UpdateLayeredWindowCore`: a visible window whose appearance is stale is repainted; at the
    next frame if its placement is current, otherwise at once (cancelling a pending frame).
  */
  function UpdateLayeredWindowCore(g: Glow, env: RenderEnv): (r: Step)
    ensures SameProperties(r.state, g) && r.state.invalidatedValues == g.invalidatedValues
    ensures !g.isVisible || !HasFlag(g, RenderField) ==> r == Step(g, [])
    ensures g.isVisible && HasFlag(g, RenderField) && IsPositionValid(g) ==> r == BeginDelayedRender(g)
    ensures g.isVisible && HasFlag(g, RenderField) && !IsPositionValid(g) ==> !r.state.pendingDelayRender
    ensures g.isVisible && HasFlag(g, RenderField) && !IsPositionValid(g) && !env.contextReady ==> r == CancelDelayedRender(g)
    ensures g.isVisible && HasFlag(g, RenderField) && !IsPositionValid(g) && env.contextReady ==>
      Paints(r.effects, g, env, CurrentCache(r.state))
    ensures forall e :: e in r.effects ==> !e.SetWindowPos?
  {
    if !g.isVisible || !HasFlag(g, RenderField) then Step(g, [])
    else if IsPositionValid(g) then BeginDelayedRender(g)
    else
      var c := CancelDelayedRender(g);
      var d := RenderLayeredWindow(c.state, env);
      Step(d.state, c.effects + d.effects)
  }

  /**
    `CommitChanges`: invalidate caches, update the window position, repaint, then clear every
    invalidation flag.
  */
  function CommitChanges(g: Glow, env: RenderEnv): (r: Step)
    ensures SameProperties(r.state, g)
    ensures r.state.invalidatedValues == NoFields
    ensures HasFlag(g, ActiveColorField) ==> ClearActiveCache in r.effects
    ensures HasFlag(g, InactiveColorField) ==> ClearInactiveCache in r.effects
    ensures !HasFlag(g, ActiveColorField) ==> forall p :: p in g.activeCache ==> p in r.state.activeCache && r.state.activeCache[p] == g.activeCache[p]
    ensures !HasFlag(g, InactiveColorField) ==> forall p :: p in g.inactiveCache ==> p in r.state.inactiveCache && r.state.inactiveCache[p] == g.inactiveCache[p]
    ensures HasFlag(g, LocationField | SizeField | VisibilityField) <==> exists e :: e in r.effects && e.SetWindowPos?
    ensures g.isVisible && HasFlag(g, RenderField) && IsPositionValid(g) ==> r.state.pendingDelayRender
    ensures g.isVisible && HasFlag(g, RenderField) && !IsPositionValid(g) && env.contextReady ==>
      Paints(r.effects, g, env, CurrentCache(r.state))
  {
    var a := InvalidateCachedBitmaps(g);
    var b := PositionAndRepaint(a.state, env);
    PaintsSameBounds(b.effects, a.state, g, env, CurrentCache(b.state));
    PaintsAfter(a.effects, b.effects, g, env, CurrentCache(b.state));
    Step(b.state.(invalidatedValues := NoFields), a.effects + b.effects)
  }

  /** Whether effects paint a window depends only on its properties. */
  lemma PaintsSameBounds(effects: seq<Effect>, g: Glow, h: Glow, env: RenderEnv, cache: map<GlowBitmapPart, Color>)
    requires SameProperties(g, h)
    ensures Paints(effects, g, env, cache) == Paints(effects, h, env, cache)
  {
  }

  /** Effects that precede a repaint do not change what it paints. */
  lemma PaintsAfter(before: seq<Effect>, effects: seq<Effect>, g: Glow, env: RenderEnv, cache: map<GlowBitmapPart, Color>)
    ensures Paints(effects, g, env, cache) ==> Paints(before + effects, g, env, cache)
  {
    if |effects| > 0 {
      assert (before + effects)[|before + effects| - 1] == effects[|effects| - 1];
    }
  }

  /**
    The second half of `CommitChanges`: `UpdateWindowPosCore` then `UpdateLayeredWindowCore`.
    It moves the window exactly when a position flag is set and keeps every cached bitmap.
  */
  function PositionAndRepaint(g: Glow, env: RenderEnv): (r: Step)
    ensures SameProperties(r.state, g) && r.state.invalidatedValues == g.invalidatedValues
    ensures forall p :: p in g.activeCache ==> p in r.state.activeCache && r.state.activeCache[p] == g.activeCache[p]
    ensures forall p :: p in g.inactiveCache ==> p in r.state.inactiveCache && r.state.inactiveCache[p] == g.inactiveCache[p]
    ensures HasFlag(g, LocationField | SizeField | VisibilityField) <==> exists e :: e in r.effects && e.SetWindowPos?
    ensures CachesCurrent(g) ==> CachesCurrent(r.state)
    ensures g.isVisible && HasFlag(g, RenderField) && IsPositionValid(g) ==> r.state.pendingDelayRender
    ensures g.isVisible && HasFlag(g, RenderField) && !IsPositionValid(g) && env.contextReady ==>
      Paints(r.effects, g, env, CurrentCache(r.state))
  {
    var b := UpdateWindowPosCore(g);
    var c := UpdateLayeredWindowCore(b.state, env);
    assert HasFlag(g, LocationField | SizeField | VisibilityField) ==> (b.effects + c.effects)[0] == b.effects[0];
    Step(c.state, b.effects + c.effects)
  }

  /**
    `CommitDelayedRender`, the frame callback: unsubscribes, then repaints if still visible.
  */
  function CommitDelayedRender(g: Glow, env: RenderEnv): (r: Step)
    ensures SameProperties(r.state, g) && r.state.invalidatedValues == g.invalidatedValues
    ensures !r.state.pendingDelayRender
    ensures !g.isVisible || !env.contextReady ==> r == CancelDelayedRender(g)
    ensures g.isVisible && env.contextReady ==> Paints(r.effects, g, env, CurrentCache(r.state))
  {
    var c := CancelDelayedRender(g);
    if !c.state.isVisible then c
    else
      var d := RenderLayeredWindow(c.state, env);
      Step(d.state, c.effects + d.effects)
  }

  // ---------------------------------------------------------------- cache coherence

  /** Every cached bitmap has the current colour, unless a colour change is still uncommitted. */
  predicate CacheCoherent(g: Glow) {
    && (forall p :: p in g.activeCache ==> g.activeCache[p] == g.activeGlowColor || HasFlag(g, ActiveColorField))
    && (forall p :: p in g.inactiveCache ==> g.inactiveCache[p] == g.inactiveGlowColor || HasFlag(g, InactiveColorField))
  }

  /** Every cached bitmap has the current colour. */
  predicate CachesCurrent(g: Glow) {
    && (forall p :: p in g.activeCache ==> g.activeCache[p] == g.activeGlowColor)
    && (forall p :: p in g.inactiveCache ==> g.inactiveCache[p] == g.inactiveGlowColor)
  }

  /** After a commit, every cached bitmap has the current colour. */
  lemma CommitMakesCachesCurrent(g: Glow, env: RenderEnv)
    requires CacheCoherent(g)
    ensures CachesCurrent(CommitChanges(g, env).state)
  {
    var a := InvalidateCachedBitmaps(g);
    assert CachesCurrent(a.state);
  }

  /** A repaint keeps the caches coherent. */
  lemma RenderKeepsCoherence(g: Glow, env: RenderEnv)
    requires CacheCoherent(g)
    ensures CacheCoherent(RenderLayeredWindow(g, env).state)
  {
  }

  /**
    Once the caches are current and no change is pending, a repaint paints every part with the
    colour of the window's current activity state.
  */
  lemma RenderPaintsCurrentColor(g: Glow, env: RenderEnv)
    requires CachesCurrent(g)
    requires env.contextReady
    ensures var effects := RenderLayeredWindow(g, env).effects;
      var last := effects[|effects| - 1];
      forall i :: 0 <= i < |last.colors| ==> last.colors[i] == (if g.isActive then g.activeGlowColor else g.inactiveGlowColor)
  {
  }

  // ---------------------------------------------------------------- properties

  /** An assignment to one of the glow window's properties. */
  datatype Assignment =
    | SetIsVisible(visible: bool)
    | SetLeft(left: int32)
    | SetTop(top: int32)
    | SetWidth(width: int32)
    | SetHeight(height: int32)
    | SetIsActive(active: bool)
    | SetActiveGlowColor(color: Color)
    | SetInactiveGlowColor(color: Color)

  /** The flags each property setter passes to `UpdateProperty`. */
  function FlagsOf(a: Assignment): (flags: bv8)
    ensures flags != NoFields && (flags & !AllFields) == 0
  {
    match a
    case SetIsVisible(_) => RenderField | VisibilityField
    case SetLeft(_) => LocationField
    case SetTop(_) => LocationField
    case SetWidth(_) => SizeField | RenderField
    case SetHeight(_) => SizeField | RenderField
    case SetIsActive(_) => RenderField
    case SetActiveGlowColor(_) => ActiveColorField | RenderField
    case SetInactiveGlowColor(_) => InactiveColorField | RenderField
  }

  /** The property already has the assigned value. */
  predicate Holds(g: Glow, a: Assignment) {
    match a
    case SetIsVisible(v) => g.isVisible == v
    case SetLeft(v) => g.left == v
    case SetTop(v) => g.top == v
    case SetWidth(v) => g.width == v
    case SetHeight(v) => g.height == v
    case SetIsActive(v) => g.isActive == v
    case SetActiveGlowColor(c) => g.activeGlowColor == c
    case SetInactiveGlowColor(c) => g.inactiveGlowColor == c
  }

  /** The window with the property assigned and nothing else changed. */
  function Assign(g: Glow, a: Assignment): (r: Glow)
    ensures Holds(r, a)
    ensures r.invalidatedValues == g.invalidatedValues && r.orientation == g.orientation
    ensures r.activeCache == g.activeCache && r.inactiveCache == g.inactiveCache
    ensures r.pendingDelayRender == g.pendingDelayRender
    ensures (a.SetIsVisible? || r.isVisible == g.isVisible) && (a.SetIsActive? || r.isActive == g.isActive)
    ensures (a.SetLeft? || r.left == g.left) && (a.SetTop? || r.top == g.top)
    ensures (a.SetWidth? || r.width == g.width) && (a.SetHeight? || r.height == g.height)
    ensures (a.SetActiveGlowColor? || r.activeGlowColor == g.activeGlowColor)
    ensures (a.SetInactiveGlowColor? || r.inactiveGlowColor == g.inactiveGlowColor)
  {
    match a
    case SetIsVisible(v) => g.(isVisible := v)
    case SetLeft(v) => g.(left := v)
    case SetTop(v) => g.(top := v)
    case SetWidth(v) => g.(width := v)
    case SetHeight(v) => g.(height := v)
    case SetIsActive(v) => g.(isActive := v)
    case SetActiveGlowColor(c) => g.(activeGlowColor := c)
    case SetInactiveGlowColor(c) => g.(inactiveGlowColor := c)
  }

  /**
    `UpdateProperty`: assigning a property its current value does nothing; otherwise the field is
    set, the setter's flags are added, and the change is committed at once unless deferred.
  */
  function UpdateProperty(g: Glow, a: Assignment, deferring: bool, env: RenderEnv): (r: Step)
    ensures Holds(r.state, a)
    ensures Holds(g, a) ==> r == Step(g, [])
    ensures !Holds(g, a) && deferring ==>
      r == Step(Assign(g, a).(invalidatedValues := g.invalidatedValues | FlagsOf(a)), [])
    ensures !Holds(g, a) && !deferring ==>
      r == CommitChanges(Assign(g, a).(invalidatedValues := g.invalidatedValues | FlagsOf(a)), env)
    ensures !Holds(g, a) && !deferring ==> r.state.invalidatedValues == NoFields
    ensures !Holds(g, a) && !deferring && (a.SetLeft? || a.SetTop? || a.SetWidth? || a.SetHeight? || a.SetIsVisible?) ==>
      exists e :: e in r.effects && e.SetWindowPos?
    ensures SameProperties(r.state, Assign(g, a))
  {
    if Holds(g, a) then Step(g, [])
    else
      var g' := Assign(g, a).(invalidatedValues := g.invalidatedValues | FlagsOf(a));
      if deferring then Step(g', []) else CommitChanges(g', env)
  }

  /** Assigning the same value twice is the same as assigning it once. */
  lemma UpdatePropertyIdempotent(g: Glow, a: Assignment, deferring: bool, env: RenderEnv)
    ensures var first := UpdateProperty(g, a, deferring, env);
      UpdateProperty(first.state, a, deferring, env) == Step(first.state, [])
  {
  }

  /** A deferred assignment only adds flags: none already pending is lost. */
  lemma DeferredFlagsAccumulate(g: Glow, a: Assignment, b: Assignment, env: RenderEnv)
    requires !Holds(g, a)
    ensures var s := UpdateProperty(UpdateProperty(g, a, true, env).state, b, true, env).state;
      (s.invalidatedValues & (g.invalidatedValues | FlagsOf(a))) == g.invalidatedValues | FlagsOf(a)
  {
  }

  /** Assigning a property and adding its flags keeps the caches coherent. */
  lemma AssignKeepsCoherence(g: Glow, a: Assignment)
    requires CacheCoherent(g)
    ensures CacheCoherent(Assign(g, a).(invalidatedValues := g.invalidatedValues | FlagsOf(a)))
  {
    var g' := Assign(g, a).(invalidatedValues := g.invalidatedValues | FlagsOf(a));
    assert HasFlag(g, ActiveColorField) ==> HasFlag(g', ActiveColorField);
    assert HasFlag(g, InactiveColorField) ==> HasFlag(g', InactiveColorField);
    match a
    case SetActiveGlowColor(_) =>
      assert HasFlag(g', ActiveColorField);
    case SetInactiveGlowColor(_) =>
      assert HasFlag(g', InactiveColorField);
    case _ =>
      assert g'.activeGlowColor == g.activeGlowColor && g'.inactiveGlowColor == g.inactiveGlowColor;
  }

  /** Property changes keep the caches coherent, deferred or not. */
  lemma UpdatePropertyKeepsCoherence(g: Glow, a: Assignment, deferring: bool, env: RenderEnv)
    requires CacheCoherent(g)
    ensures CacheCoherent(UpdateProperty(g, a, deferring, env).state)
  {
    var r := UpdateProperty(g, a, deferring, env);
    if Holds(g, a) {
      assert r.state == g;
    } else {
      var g' := Assign(g, a).(invalidatedValues := g.invalidatedValues | FlagsOf(a));
      AssignKeepsCoherence(g, a);
      if deferring {
        assert r.state == g';
      } else {
        assert r == CommitChanges(g', env);
        CommitKeepsCoherence(g', env);
      }
    }
  }

  /** A commit keeps the caches coherent (it makes them current). */
  lemma CommitKeepsCoherence(g: Glow, env: RenderEnv)
    requires CacheCoherent(g)
    ensures CacheCoherent(CommitChanges(g, env).state)
  {
    var r := CommitChanges(g, env).state;
    CommitMakesCachesCurrent(g, env);
    assert CachesCurrent(r);
  }

  // ---------------------------------------------------------------- position

  /**
    Where a strip belongs around the target window `rect`: the side strips are `GlowDepth` wide
    and 18 taller than the target, the top and bottom ones `GlowDepth` high and 18 wider, the
    left and top ones start `GlowDepth` left of and above the target, the right one at its right
    edge and the bottom one at its bottom edge.
  */
  function StripBounds(orientation: Dock, rect: Rect): (b: (int32, int32, int32, int32))
    ensures orientation.Left? || orientation.Right? ==>
      b.2 == GlowDepth && b.1 == Wrap(rect.top - GlowDepth) && Wrap(b.1 + b.3) == Wrap(rect.bottom + GlowDepth)
    ensures orientation.Top? || orientation.Bottom? ==>
      b.3 == GlowDepth && b.0 == Wrap(rect.left - GlowDepth) && Wrap(b.0 + b.2) == Wrap(rect.right + GlowDepth)
    ensures orientation.Left? ==> Wrap(b.0 + b.2) == rect.left
    ensures orientation.Right? ==> b.0 == rect.right
    ensures orientation.Top? ==> Wrap(b.1 + b.3) == rect.top
    ensures orientation.Bottom? ==> b.1 == rect.bottom
  {
    match orientation
    case Left => SideStrip(rect, Wrap(rect.left - GlowDepth))
    case Right => SideStrip(rect, rect.right)
    case Top => CrossStrip(rect, Wrap(rect.top - GlowDepth))
    case Bottom => CrossStrip(rect, rect.bottom)
  }

  /** The bounds of a left or right strip starting at `left`. */
  function SideStrip(rect: Rect, left: int32): (b: (int32, int32, int32, int32))
    ensures b.0 == left && b.2 == GlowDepth && b.1 == Wrap(rect.top - GlowDepth)
    ensures Wrap(b.1 + b.3) == Wrap(rect.bottom + GlowDepth)
    ensures left == Wrap(rect.left - GlowDepth) ==> Wrap(b.0 + b.2) == rect.left
  {
    SpanWraps(rect.top, rect.bottom);
    WrapAddLeft(rect.left - GlowDepth, GlowDepth);
    (left, Wrap(rect.top - GlowDepth), GlowDepth, Wrap(rect.Height() + CornerGripThickness))
  }

  /** The bounds of a top or bottom strip starting at `top`. */
  function CrossStrip(rect: Rect, top: int32): (b: (int32, int32, int32, int32))
    ensures b.1 == top && b.3 == GlowDepth && b.0 == Wrap(rect.left - GlowDepth)
    ensures Wrap(b.0 + b.2) == Wrap(rect.right + GlowDepth)
    ensures top == Wrap(rect.top - GlowDepth) ==> Wrap(b.1 + b.3) == rect.top
  {
    SpanWraps(rect.left, rect.right);
    WrapAddLeft(rect.top - GlowDepth, GlowDepth);
    (Wrap(rect.left - GlowDepth), top, Wrap(rect.Width() + CornerGripThickness), GlowDepth)
  }

  /**
    A strip that starts `GlowDepth` before `x` and is the extent `y - x` plus two glow depths long
    ends `GlowDepth` after `y`, in wrapping 32-bit arithmetic.
  */
  lemma SpanWraps(x: int, y: int)
    ensures Wrap(Wrap(x - GlowDepth) + Wrap(Wrap(y - x) + CornerGripThickness)) == Wrap(y + GlowDepth)
  {
    var b := Wrap(Wrap(y - x) + CornerGripThickness);
    WrapAddLeft(x - GlowDepth, b);
    WrapAddLeft(Wrap(y - x) + CornerGripThickness, x - GlowDepth);
    WrapAddLeft(y - x, CornerGripThickness + x - GlowDepth);
  }

  /**
    `UpdateWindowPos`: a hidden strip is left alone; a visible one gets the bounds of its side of
    `rect` through the four setters in turn (each may commit on its own when not deferred).
  */
  function UpdateWindowPos(g: Glow, rect: Rect, deferring: bool, env: RenderEnv): (r: Step)
    ensures !g.isVisible ==> r == Step(g, [])
    ensures g.isVisible ==> (r.state.left, r.state.top, r.state.width, r.state.height) == StripBounds(g.orientation, rect)
    ensures r.state.orientation == g.orientation
    ensures r.state.isVisible == g.isVisible && r.state.isActive == g.isActive
    ensures r.state.activeGlowColor == g.activeGlowColor && r.state.inactiveGlowColor == g.inactiveGlowColor
  {
    if !g.isVisible then Step(g, [])
    else
      var b := StripBounds(g.orientation, rect);
      var s1 := UpdateProperty(g, SetLeft(b.0), deferring, env);
      var s2 := UpdateProperty(s1.state, SetTop(b.1), deferring, env);
      var s3 := UpdateProperty(s2.state, SetWidth(b.2), deferring, env);
      var s4 := UpdateProperty(s3.state, SetHeight(b.3), deferring, env);
      Step(s4.state, s1.effects + s2.effects + s3.effects + s4.effects)
  }

  /**
    For a target whose coordinates stay well inside `int` range, the four strips frame it: each
    touches its edge of the target from outside, the side strips run from `GlowDepth` above the
    target to `GlowDepth` below it, and the top and bottom strips from `GlowDepth` left of it to
    `GlowDepth` right of it.
  */
  lemma StripsFrameTarget(rect: Rect)
    requires -0x3000_0000 <= rect.left <= rect.right < 0x3000_0000
    requires -0x3000_0000 <= rect.top <= rect.bottom < 0x3000_0000
    ensures var (l, t, w, h) := StripBounds(Dock.Left, rect);
      l + w == rect.left && t == rect.top - GlowDepth && t + h == rect.bottom + GlowDepth
    ensures var (l, t, w, h) := StripBounds(Dock.Right, rect);
      l == rect.right && l + w == rect.right + GlowDepth && t == rect.top - GlowDepth && t + h == rect.bottom + GlowDepth
    ensures var (l, t, w, h) := StripBounds(Dock.Top, rect);
      t + h == rect.top && l == rect.left - GlowDepth && l + w == rect.right + GlowDepth
    ensures var (l, t, w, h) := StripBounds(Dock.Bottom, rect);
      t == rect.bottom && t + h == rect.bottom + GlowDepth && l == rect.left - GlowDepth && l + w == rect.right + GlowDepth
  {
    assert rect.Width() == rect.right - rect.left;
    assert rect.Height() == rect.bottom - rect.top;
  }
}
