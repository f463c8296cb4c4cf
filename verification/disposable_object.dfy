/**
  The dispose-once protocol of the glow-window objects. An object keeps a list of `Disposing`
  handlers and a disposed flag. Disposing raises the handlers, clears the list, releases the
  managed resources (only for an explicit `Dispose`, not from the finalizer) and then the native
  ones; the disposed flag is set in a `finally` block, so it is set even when one of those
  steps throws. The release hooks belong to the derived classes, so here they are reported as
  whether they were called; which step throws, if any, is a parameter.
*/
module DisposableObject {
  import opened Wrappers

  /** A subscribed `Disposing` handler. Delegates are compared by identity, modelled as a number. */
  type Handler = int

  /** The state of a `DisposableObject`: `IsDisposed` and the invocation list of `_disposing`. */
  datatype Disposable = Disposable(isDisposed: bool, handlers: seq<Handler>)

  /** A freshly constructed object: not disposed, no handlers. */
  const Initial: Disposable := Disposable(false, [])

  /** `ObjectDisposedException`. */
  datatype Disposed = ObjectDisposedException

  /** `ThrowIfDisposed`: fails exactly when the object is disposed. */
  function ThrowIfDisposed(d: Disposable): (r: Result<(), Disposed>)
    ensures r.Err? <==> d.isDisposed
  {
    if d.isDisposed then Err(ObjectDisposedException) else Ok(())
  }

  /** The position of the last occurrence of `h` in `s`, or -1 when there is none. */
  function LastIndex(s: seq<Handler>, h: Handler): (i: int)
    ensures h !in s <==> i == -1
    ensures h in s ==> 0 <= i < |s| && s[i] == h && h !in s[i + 1..]
  {
    if |s| == 0 then -1
    else if s[|s| - 1] == h then |s| - 1
    else
      var i := LastIndex(s[..|s| - 1], h);
      assert h in s ==> h in s[..|s| - 1] by {
        if h in s {
          var k :| 0 <= k < |s| && s[k] == h;
          assert s[..|s| - 1][k] == h;
        }
      }
      assert h in s ==> s[i + 1..] == s[..|s| - 1][i + 1..] + [s[|s| - 1]];
      i
  }

  /**
    Delegate removal (`-=`): the last occurrence of the handler leaves the invocation list,
    everything before and after it staying in order; a handler that is not subscribed leaves the
    list unchanged.
  */
  function RemoveLast(s: seq<Handler>, h: Handler): (r: seq<Handler>)
    ensures h !in s ==> r == s
    ensures h in s ==> var i := LastIndex(s, h); r == s[..i] + s[i + 1..]
    ensures h in s ==> |r| == |s| - 1 && multiset(r) == multiset(s) - multiset{h}
    ensures forall x :: x in r ==> x in s
  {
    if |s| == 0 then s
    else
      LastSplit(s);
      if s[|s| - 1] == h then s[..|s| - 1]
      else
        RemoveLastStep(s, h);
        RemoveLast(s[..|s| - 1], h) + [s[|s| - 1]]
  }

  lemma LastSplit(s: seq<Handler>)
    requires |s| > 0
    ensures s == s[..|s| - 1] + [s[|s| - 1]] && s[|s|..] == []
    ensures multiset(s) == multiset(s[..|s| - 1]) + multiset{s[|s| - 1]}
  {
  }

  /** One step of `RemoveLast` past a final element that is not `h`: the split point stays put. */
  lemma RemoveLastStep(s: seq<Handler>, h: Handler)
    requires |s| > 0 && s[|s| - 1] != h
    ensures h in s ==> var p := s[..|s| - 1]; var i := LastIndex(s, h);
      h in p && i == LastIndex(p, h) && s[..i] == p[..i] && s[i + 1..] == p[i + 1..] + [s[|s| - 1]]
  {
    if h in s {
      var p := s[..|s| - 1];
      var k :| 0 <= k < |s| && s[k] == h;
      assert p[k] == h;
    }
  }

  /** The `Disposing` add accessor: refused once disposed, otherwise the handler is appended. */
  function AddDisposing(d: Disposable, h: Handler): (r: Result<Disposable, Disposed>)
    ensures r.Err? <==> d.isDisposed
    ensures r.Ok? ==> !r.value.isDisposed && r.value.handlers == d.handlers + [h]
  {
    match ThrowIfDisposed(d)
    case Err(e) => Err(e)
    case Ok(_) => Ok(d.(handlers := d.handlers + [h]))
  }

  /** The `Disposing` remove accessor: refused once disposed, otherwise the last occurrence goes. */
  function RemoveDisposing(d: Disposable, h: Handler): (r: Result<Disposable, Disposed>)
    ensures r.Err? <==> d.isDisposed
    ensures r.Ok? ==> !r.value.isDisposed && r.value.handlers == RemoveLast(d.handlers, h)
    ensures r.Ok? ==> multiset(r.value.handlers) == multiset(d.handlers) - multiset{h}
  {
    match ThrowIfDisposed(d)
    case Err(e) => Err(e)
    case Ok(_) => Ok(d.(handlers := RemoveLast(d.handlers, h)))
  }

  /** Removing a handler right after adding it restores the object. */
  lemma {:induction false} AddThenRemove(d: Disposable, h: Handler)
    requires !d.isDisposed
    ensures AddDisposing(d, h).Ok?
    ensures RemoveDisposing(AddDisposing(d, h).value, h) == Ok(d)
  {
    var s := d.handlers + [h];
    assert s[..|s| - 1] == d.handlers;
  }

  /** Which step of a disposal throws, if any. */
  datatype Fault =
    | NoFault
    | HandlerThrows(index: nat)  // the handler at this position of the invocation list
    | ManagedThrows              // `DisposeManagedResources`
    | NativeThrows               // `DisposeNativeResources`

  /**
    What one call of `Dispose(bool)` did: the handlers raised, in order; whether the managed and
    the native release hooks were called (managed first); whether an exception escaped.
  */
  datatype Disposal = Disposal(state: Disposable, raised: seq<Handler>, managedCalled: bool, nativeCalled: bool, threw: bool)

  /** True when no handler of the list throws, so the statements after raising the event run. */
  predicate HandlersComplete(d: Disposable, fault: Fault) {
    !(fault.HandlerThrows? && fault.index < |d.handlers|)
  }

  /** `Dispose(bool disposing)`. */
  function DisposeCore(d: Disposable, disposing: bool, fault: Fault): (r: Disposal)
    ensures r.state.isDisposed
    ensures d.isDisposed ==> r == Disposal(d, [], false, false, false)
    ensures !d.isDisposed ==> r.raised <= d.handlers
    ensures !d.isDisposed && HandlersComplete(d, fault) ==> r.raised == d.handlers && r.state.handlers == []
    ensures !d.isDisposed && !HandlersComplete(d, fault) ==>
      |r.raised| == fault.index + 1 && r.state.handlers == d.handlers
    ensures r.managedCalled <==> !d.isDisposed && HandlersComplete(d, fault) && disposing
    ensures r.nativeCalled <==> !d.isDisposed && HandlersComplete(d, fault) && !(disposing && fault == ManagedThrows)
    ensures r.threw <==>
      !d.isDisposed && (!HandlersComplete(d, fault) || (disposing && fault == ManagedThrows) || fault == NativeThrows)
  {
    if d.isDisposed then Disposal(d, [], false, false, false)
    else if !HandlersComplete(d, fault) then
      // the handler at `fault.index` ran and threw; `_disposing = null` was skipped
      Disposal(Disposable(true, d.handlers), d.handlers[..fault.index + 1], false, false, true)
    else
      var cleared := Disposable(true, []);
      if disposing && fault == ManagedThrows then Disposal(cleared, d.handlers, true, false, true)
      else Disposal(cleared, d.handlers, disposing, true, fault == NativeThrows)
  }

  /** The public `Dispose()`: `Dispose(true)`. */
  function Dispose(d: Disposable, fault: Fault): (r: Disposal)
    ensures r.state.isDisposed
    ensures r.managedCalled ==> r.nativeCalled || fault == ManagedThrows
    ensures !d.isDisposed && fault == NoFault ==> r.managedCalled && r.nativeCalled && r.raised == d.handlers
  {
    DisposeCore(d, true, fault)
  }

  /** The finalizer: `Dispose(false)`, which never releases managed resources. */
  function Finalize(d: Disposable, fault: Fault): (r: Disposal)
    ensures r.state.isDisposed && !r.managedCalled
  {
    DisposeCore(d, false, fault)
  }

  /**
    Whatever the first disposal did, even if it threw, a second one raises nothing, calls no
    hook, throws nothing and leaves the object as it was.
  */
  lemma DisposeTwice(d: Disposable, disposing1: bool, fault1: Fault, disposing2: bool, fault2: Fault)
    ensures var first := DisposeCore(d, disposing1, fault1);
      DisposeCore(first.state, disposing2, fault2) == Disposal(first.state, [], false, false, false)
  {
  }

  /**
    Over any two disposals, every handler subscribed before the first one is raised exactly once
    when no handler throws, and the object never accepts another subscription.
  */
  lemma HandlersRaisedOnce(d: Disposable, disposing1: bool, disposing2: bool, fault2: Fault, h: Handler)
    requires !d.isDisposed
    ensures var first := DisposeCore(d, disposing1, NoFault);
      var second := DisposeCore(first.state, disposing2, fault2);
      && first.raised + second.raised == d.handlers
      && AddDisposing(second.state, h).Err?
      && RemoveDisposing(second.state, h).Err?
  {
  }
}
