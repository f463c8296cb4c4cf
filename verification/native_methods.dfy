/**
  The pure parts of the Win32 interop layer: packing of window-message parameters, the
  system-command mask, the `RECT` structure with its members, the `IntersectRect` rule, and
  the plain structures (`WINDOWPOS`, `WINDOWPLACEMENT`, `WINDOWINFO`, `MONITORINFO`) that the
  window code reads. The P/Invoke entry points themselves are not modelled; callers take their
  results as parameters or record them as effects.
*/
module NativeMethods {
  import opened Int32

  // ---------------------------------------------------------------- message parameters

  /** The low word of a message parameter, sign-extended: `(short)(value & 0xFFFF)`. */
  function LoWord(value: int32): (r: int16)
    ensures (r - value) % TwoTo16 == 0
  {
    ToShortCongruent(value % TwoTo16, value);
    ToShort(value % TwoTo16)
  }

  /** The high word of a message parameter: `(short)(value >> 16)` with an arithmetic shift. */
  function HiWord(value: int32): (r: int16)
    ensures r * TwoTo16 <= value < r * TwoTo16 + TwoTo16
  {
    ToShort(value / TwoTo16)
  }

  /** The x coordinate packed in a mouse message's lParam. */
  function GetXLParam(lParam: int32): int16 {
    LoWord(lParam)
  }

  /** The y coordinate packed in a mouse message's lParam. */
  function GetYLParam(lParam: int32): int16 {
    HiWord(lParam)
  }

  /**
    `lowWord & 0xFFFF | highWord << 16` in 32-bit arithmetic. The shifted high word has sixteen
    zero low bits, so the bitwise or is the sum of the two parts.
  */
  function MakeParam(lowWord: int32, highWord: int32): (r: int32)
    ensures (r - lowWord) % TwoTo16 == 0
    ensures (r / TwoTo16 - highWord) % TwoTo16 == 0
  {
    var shifted := Wrap(highWord * TwoTo16);
    ShiftedLowBitsClear(highWord);
    shifted + lowWord % TwoTo16
  }

  lemma ShiftedLowBitsClear(highWord: int32)
    ensures Wrap(highWord * TwoTo16) % TwoTo16 == 0
    ensures (Wrap(highWord * TwoTo16) / TwoTo16 - highWord) % TwoTo16 == 0
  {
    var w := Wrap(highWord * TwoTo16);
    var k := (w - highWord * TwoTo16) / TwoTo32;
    assert w == highWord * TwoTo16 + k * TwoTo32;
    assert w == (highWord + k * TwoTo16) * TwoTo16;
    assert w / TwoTo16 == highWord + k * TwoTo16;
  }

  lemma ToShortCongruent(a: int, b: int)
    requires (a - b) % TwoTo16 == 0
    ensures ToShort(a) == ToShort(b)
  {
    var k := (a - b) / TwoTo16;
    assert a == b + k * TwoTo16;
    assert (a + 0x8000) == (b + 0x8000) + k * TwoTo16;
  }

  /** Packing two coordinates in short range and reading them back yields the coordinates. */
  lemma {:induction false} ParamRoundTrip(x: int16, y: int16)
    ensures GetXLParam(MakeParam(x, y)) == x
    ensures GetYLParam(MakeParam(x, y)) == y
  {
    var p := MakeParam(x, y);
    assert Wrap(y * TwoTo16) == y * TwoTo16;
    assert p == y * TwoTo16 + x % TwoTo16;
    ToShortCongruent(p % TwoTo16, x);
    assert p / TwoTo16 == y;
  }

  /** `GET_SC_WPARAM`: a WM_SYSCOMMAND wParam with the four low bits (used by the system) cleared. */
  function GetScWParam(wParam: int32): (r: int)
    ensures 0 <= r <= 0xFFF0
    ensures r % 16 == 0
    ensures r == wParam % TwoTo16 - wParam % 16
  {
    LowBitsOfLowWord(wParam);
    wParam % TwoTo16 / 16 * 16
  }

  lemma LowBitsOfLowWord(w: int)
    ensures w % TwoTo16 / 16 * 16 == w % TwoTo16 - w % 16
  {
    var lw := w % TwoTo16;
    var k := (w / TwoTo16) * 4096;
    assert w == lw + k * 16;
    ModSixteenShift(lw, k);
  }

  lemma ModSixteenShift(a: int, k: int)
    ensures (a + k * 16) % 16 == a % 16
  {
    var q := a / 16;
    assert a + k * 16 == (q + k) * 16 + a % 16;
  }

  /** Masking a system command twice is the same as masking it once. */
  lemma GetScWParamIdempotent(wParam: int32)
    ensures GetScWParam(GetScWParam(wParam)) == GetScWParam(wParam)
  {
  }

  // ---------------------------------------------------------------- RECT

  /** A WPF `Int32Rect`: position and size. */
  datatype Int32Rect = Int32Rect(x: int32, y: int32, width: int32, height: int32)

  /** A `POINT`. */
  datatype Point = Point(x: int32, y: int32)

  /** The Win32 `RECT`. Width and Height are computed in wrapping 32-bit arithmetic. */
  datatype Rect = Rect(left: int32, top: int32, right: int32, bottom: int32) {

    function Width(): int32 {
      Wrap(right - left)
    }

    function Height(): int32 {
      Wrap(bottom - top)
    }

    /** The `Width` setter: moves `Right` so that reading `Width` back gives `value`. */
    function WithWidth(value: int32): (r: Rect)
      ensures r.Width() == value
      ensures r.left == left && r.top == top && r.bottom == bottom
    {
      WrapAddLeft(left + value, -(left as int));
      this.(right := Wrap(left + value))
    }

    /** The `Height` setter: moves `Bottom` so that reading `Height` back gives `value`. */
    function WithHeight(value: int32): (r: Rect)
      ensures r.Height() == value
      ensures r.left == left && r.top == top && r.right == right
    {
      WrapAddLeft(top + value, -(top as int));
      this.(bottom := Wrap(top + value))
    }

    /** `Offset(dx, dy)`: a translation, so the size is unchanged. */
    function Offset(dx: int32, dy: int32): (r: Rect)
      ensures r.Width() == Width() && r.Height() == Height()
      ensures (r.left - left - dx) % TwoTo32 == 0 && (r.top - top - dy) % TwoTo32 == 0
    {
      OffsetFacts(this, dx, dy);
      Rect(Wrap(left + dx), Wrap(top + dy), Wrap(right + dx), Wrap(bottom + dy))
    }

    /** `ToInt32Rect`: the rectangle as position plus size. */
    function ToInt32Rect(): (r: Int32Rect)
      ensures r.x == left && r.y == top
      ensures Wrap(r.x + r.width) == right && Wrap(r.y + r.height) == bottom
    {
      WrapAddLeft(right - left, left);
      WrapAddLeft(bottom - top, top);
      Int32Rect(left, top, Width(), Height())
    }

    /** True when the rectangle encloses no pixel (the Win32 `IsRectEmpty` rule). */
    predicate IsEmpty() {
      right <= left || bottom <= top
    }
  }

  /** The facts `Rect.Offset` promises, each proved on its own. */
  lemma OffsetFacts(a: Rect, dx: int32, dy: int32)
    ensures var r := Rect(Wrap(a.left + dx), Wrap(a.top + dy), Wrap(a.right + dx), Wrap(a.bottom + dy));
      && r.Width() == a.Width() && r.Height() == a.Height()
      && (r.left - a.left - dx) % TwoTo32 == 0 && (r.top - a.top - dy) % TwoTo32 == 0
  {
    OffsetKeepsExtent(a.left, a.right, dx);
    OffsetKeepsExtent(a.top, a.bottom, dy);
  }

  lemma OffsetKeepsExtent(lo: int32, hi: int32, d: int32)
    ensures Wrap(Wrap(hi + d) - Wrap(lo + d)) == Wrap(hi - lo)
  {
    var a := Wrap(hi + d);
    var b := Wrap(lo + d);
    assert (a - (hi + d)) % TwoTo32 == 0;
    assert (b - (lo + d)) % TwoTo32 == 0;
    assert ((a - b) - (hi - lo)) % TwoTo32 == 0 by {
      var ka := (a - (hi + d)) / TwoTo32;
      var kb := (b - (lo + d)) / TwoTo32;
      assert (a - b) - (hi - lo) == (ka - kb) * TwoTo32;
    }
    WrapCongruent(a - b, hi - lo);
  }

  /**
    The RECT built from a position and size, as `WmWindowPosChanged` builds it from a WINDOWPOS:
    its top left is the position, and reading `Width` and `Height` back gives the size, whatever
    wraps on the way.
  */
  function FromPositionAndSize(x: int32, y: int32, cx: int32, cy: int32): (r: Rect)
    ensures r.left == x && r.top == y
    ensures r.Width() == cx && r.Height() == cy
  {
    var r := Rect(x, y, Wrap(x + cx), Wrap(y + cy));
    assert r.Width() == cx by { WrapAddLeft(x as int + cx, -(x as int)); }
    assert r.Height() == cy by { WrapAddLeft(y as int + cy, -(y as int)); }
    r
  }

  /** Converting a RECT to position plus size and back gives the RECT again. */
  lemma Int32RectRoundTrip(r: Rect)
    ensures var i := r.ToInt32Rect(); FromPositionAndSize(i.x, i.y, i.width, i.height) == r
  {
  }

  const EmptyRect: Rect := Rect(0, 0, 0, 0)

  function Max(a: int32, b: int32): int32 { if a < b then b else a }
  function Min(a: int32, b: int32): int32 { if a < b then a else b }

  /**
    `IntersectRect` as Win32 documents it: the overlap of the two rectangles, or the all-zero
    rectangle when they do not overlap.
  */
  function IntersectRect(a: Rect, b: Rect): (r: Rect)
    ensures r == EmptyRect || !r.IsEmpty()
    ensures r != EmptyRect ==>
      && r.left == Max(a.left, b.left) && r.top == Max(a.top, b.top)
      && r.right == Min(a.right, b.right) && r.bottom == Min(a.bottom, b.bottom)
    ensures r == EmptyRect <==>
      (Min(a.right, b.right) <= Max(a.left, b.left) || Min(a.bottom, b.bottom) <= Max(a.top, b.top))
  {
    var overlap := Rect(Max(a.left, b.left), Max(a.top, b.top), Min(a.right, b.right), Min(a.bottom, b.bottom));
    if overlap.IsEmpty() then EmptyRect else overlap
  }

  /** A point lies in a non-empty intersection exactly when it lies in both rectangles. */
  lemma IntersectRectContains(a: Rect, b: Rect, x: int, y: int)
    requires IntersectRect(a, b) != EmptyRect
    ensures var r := IntersectRect(a, b);
      (r.left <= x < r.right && r.top <= y < r.bottom) <==>
      (a.left <= x < a.right && a.top <= y < a.bottom && b.left <= x < b.right && b.top <= y < b.bottom)
  {
  }

  /** The order of the arguments does not matter. */
  lemma IntersectRectSymmetric(a: Rect, b: Rect)
    ensures IntersectRect(a, b) == IntersectRect(b, a)
  {
  }

  // ---------------------------------------------------------------- plain structures

  /** `WINDOWPOS`; window handles are opaque integers. */
  datatype WindowPos = WindowPos(hwnd: int, hwndInsertAfter: int, x: int32, y: int32, cx: int32, cy: int32, flags: bv32)

  /** `WINDOWPLACEMENT`. */
  datatype WindowPlacement = WindowPlacement(
    flags: int32, showCmd: int32, ptMinPosition: Point, ptMaxPosition: Point, rcNormalPosition: Rect)

  /** `WINDOWINFO`. */
  datatype WindowInfo = WindowInfo(
    rcWindow: Rect, rcClient: Rect, dwStyle: int32, dwExStyle: int32, dwWindowStatus: uint32,
    cxWindowBorders: uint32, cyWindowBorders: uint32, atomWindowType: int, wCreatorVersion: int)

  /** `MONITORINFO`. */
  datatype MonitorInfo = MonitorInfo(rcMonitor: Rect, rcWork: Rect, dwFlags: uint32)

  // `SetWindowPos` flags used by the window code.
  const SwpNoSize: bv32 := 1
  const SwpNoMove: bv32 := 2
  const SwpShowWindow: bv32 := 64

  // `showCmd` values of a window placement.
  const SwShowNormal: int := 1
  const SwShowMaximized: int := 3
}
