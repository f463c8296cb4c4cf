/**
  The native-window wrapper under each glow window: a window handle created on first use,
  a window class registered on first use, and their teardown when the native resources are
  released. Handles and class atoms are opaque numbers with zero meaning "none"; the native
  calls are recorded as effects, and what `CreateWindowCore` and `RegisterClass` return is a
  parameter.
*/
module HwndWrapper {
  import opened Int32
  import opened Wrappers
  import DisposableObject

  /** A native call the wrapper makes. */
  datatype Effect =
    | RegisterClass(atom: int16)
    | UnregisterClass(atom: int16)
    | CreateWindow(handle: int)
    | Subclass(handle: int)
    | DestroyWindow(handle: int)

  /**
    The wrapper's fields; `isWindowSubclassed` is the value of the overridable
    `IsWindowSubclassed` property (the glow window answers true).
  */
  datatype Wrapper = Wrapper(
    base: DisposableObject.Disposable,
    handle: int,
    isHandleCreationAllowed: bool,
    wndClassAtom: int16,
    isWindowSubclassed: bool)

  /** The state after one operation, with the native calls it made in order. */
  datatype Step = Step(state: Wrapper, effects: seq<Effect>)

  /**
    The state a new wrapper starts in as the class is written: `_isHandleCreationAllowed` has no
    initializer, so it starts false.
  */
  function AsWrittenInitial(isWindowSubclassed: bool): (w: Wrapper)
    ensures !w.isHandleCreationAllowed && w.handle == 0 && w.wndClassAtom == 0
  {
    Wrapper(DisposableObject.Initial, 0, false, 0, isWindowSubclassed)
  }

  /** The state a new wrapper evidently should start in: creation allowed until the first use. */
  function CorrectedInitial(isWindowSubclassed: bool): (w: Wrapper)
    ensures w.isHandleCreationAllowed && w.handle == 0 && w.wndClassAtom == 0
  {
    Wrapper(DisposableObject.Initial, 0, true, 0, isWindowSubclassed)
  }

  /**
    `EnsureHandle`: with no handle yet and creation still allowed, the allow flag is cleared and
    the window created (`created` is what `CreateWindowCore` returns), then subclassed if the
    wrapper asks for it; in every other case nothing happens.
  */
  function EnsureHandle(w: Wrapper, created: int): (r: Step)
    ensures w.handle != 0 ==> r == Step(w, [])
    ensures w.handle == 0 && !w.isHandleCreationAllowed ==> r == Step(w, [])
    ensures w.handle == 0 && w.isHandleCreationAllowed ==>
      && r.state == w.(isHandleCreationAllowed := false, handle := created)
      && |r.effects| >= 1 && r.effects[0] == CreateWindow(created)
      && (Subclass(created) in r.effects <==> w.isWindowSubclassed)
    ensures !r.state.isHandleCreationAllowed || r.state == w
    ensures forall e :: e in r.effects ==> e.CreateWindow? || e.Subclass?
  {
    if w.handle != 0 then Step(w, [])
    else if w.isHandleCreationAllowed then
      var w' := w.(isHandleCreationAllowed := false, handle := created);
      if !w'.isWindowSubclassed then Step(w', [CreateWindow(created)])
      else Step(w', [CreateWindow(created), Subclass(created)])
    else Step(w, [])
  }

  /** The `Handle` getter: ensures the handle, then returns it. */
  function Handle(w: Wrapper, created: int): (r: (Step, int))
    ensures r.1 == r.0.state.handle
    ensures w.handle != 0 ==> r == (Step(w, []), w.handle)
  {
    var s := EnsureHandle(w, created);
    (s, s.state.handle)
  }

  /**
    The window is created at most once: after one `EnsureHandle`, a second one makes no native
    call, whatever `CreateWindowCore` would return, even if the first creation failed.
  */
  lemma CreateAtMostOnce(w: Wrapper, created1: int, created2: int)
    ensures var first := EnsureHandle(w, created1);
      EnsureHandle(first.state, created2) == Step(first.state, [])
  {
  }

  /**
    The `WindowClassAtom` getter: registers a class (its atom is `registered`) only while the
    cached atom is zero, and returns the cached atom.
  */
  function WindowClassAtom(w: Wrapper, registered: int16): (r: (Step, int16))
    ensures r.1 == r.0.state.wndClassAtom
    ensures w.wndClassAtom != 0 ==> r == (Step(w, []), w.wndClassAtom)
    ensures w.wndClassAtom == 0 ==> r.0 == Step(w.(wndClassAtom := registered), [RegisterClass(registered)])
  {
    if w.wndClassAtom == 0 then
      var w' := w.(wndClassAtom := registered);
      (Step(w', [RegisterClass(registered)]), w'.wndClassAtom)
    else (Step(w, []), w.wndClassAtom)
  }

  /** `DestroyWindowClassCore`: unregisters a registered class and forgets its atom. */
  function DestroyWindowClassCore(w: Wrapper): (r: Step)
    ensures r.state == w.(wndClassAtom := 0)
    ensures w.wndClassAtom == 0 <==> r.effects == []
    ensures w.wndClassAtom != 0 ==> r.effects == [UnregisterClass(w.wndClassAtom)]
  {
    if w.wndClassAtom == 0 then Step(w, [])
    else Step(w.(wndClassAtom := 0), [UnregisterClass(w.wndClassAtom)])
  }

  /** `DestroyWindowCore`: destroys an existing window and forgets its handle. */
  function DestroyWindowCore(w: Wrapper): (r: Step)
    ensures r.state == w.(handle := 0)
    ensures w.handle == 0 <==> r.effects == []
    ensures w.handle != 0 ==> r.effects == [DestroyWindow(w.handle)]
  {
    if w.handle == 0 then Step(w, [])
    else Step(w.(handle := 0), [DestroyWindow(w.handle)])
  }

  /**
    `DisposeNativeResources`: forbids creation, destroys the window, then unregisters the class.
    Afterwards no handle, no atom, and creation is no longer possible.
  */
  function DisposeNativeResources(w: Wrapper): (r: Step)
    ensures r.state.handle == 0 && r.state.wndClassAtom == 0 && !r.state.isHandleCreationAllowed
    ensures r.state.base == w.base && r.state.isWindowSubclassed == w.isWindowSubclassed
    ensures |r.effects| == (if w.handle != 0 then 1 else 0) + (if w.wndClassAtom != 0 then 1 else 0)
    ensures w.handle != 0 ==> r.effects[0] == DestroyWindow(w.handle)
  {
    var a := DestroyWindowCore(w.(isHandleCreationAllowed := false));
    var b := DestroyWindowClassCore(a.state);
    Step(b.state, a.effects + b.effects)
  }

  /**
    `Dispose(bool)` of the wrapper: the base protocol, with the native hook releasing the window
    and the class. The wrapper's hooks do not throw; only a `Disposing` handler can, at the
    position `handlerFault` names.
  */
  function Dispose(w: Wrapper, disposing: bool, handlerFault: Option<nat>): (r: Step)
    ensures r.state.base.isDisposed
    ensures w.base.isDisposed ==> r == Step(w, [])
    ensures !w.base.isDisposed && handlerFault.None? ==>
      r.state.handle == 0 && r.state.wndClassAtom == 0 && !r.state.isHandleCreationAllowed
  {
    var fault := if handlerFault.Some? then DisposableObject.HandlerThrows(handlerFault.value) else DisposableObject.NoFault;
    var outcome := DisposableObject.DisposeCore(w.base, disposing, fault);
    var w' := w.(base := outcome.state);
    if outcome.nativeCalled then DisposeNativeResources(w') else Step(w', [])
  }

  /** After the native resources are released, asking for the handle creates nothing and yields zero. */
  lemma NoHandleAfterRelease(w: Wrapper, created: int)
    ensures var released := DisposeNativeResources(w).state;
      Handle(released, created) == (Step(released, []), 0)
  {
  }

  /**
    As written, a wrapper never gets a window: from the initial state, asking for the handle
    makes no native call and yields zero, even when `CreateWindowCore` would succeed.
  */
  lemma AsWrittenNeverCreates(isWindowSubclassed: bool, created: int)
    requires created != 0
    ensures var w := AsWrittenInitial(isWindowSubclassed);
      Handle(w, created) == (Step(w, []), 0)
  {
  }

  /**
    With creation allowed initially, the first request creates the window, the subclassed glow
    window also subclasses it, and a second request returns the same handle with no native call.
  */
  lemma CorrectedCreatesOnce(created: int, other: int)
    requires created != 0
    ensures var first := Handle(CorrectedInitial(true), created);
      && first.1 == created
      && first.0.effects == [CreateWindow(created), Subclass(created)]
      && Handle(first.0.state, other) == (Step(first.0.state, []), created)
  {
  }
}
