/**
  The integer helpers of the arithmetic helper class: the even split of an integer into an
  array, and the choice of the display a window rectangle belongs to (largest work-area
  overlap, else nearest centre).
*/
module ArithmeticHelper {
  import opened Int32
  import opened Wrappers
  import opened NativeMethods

  /** The exceptions these helpers can raise. */
  datatype Exception =
    | OverflowException      // `new int[count]` with a negative count
    | DivideByZeroException  // `num / 0`
    | ArgumentException      // a WPF `Rect` with a negative width or height
    | UnspecifiedCast        // a `double` outside `int` range cast to `int`

  // ---------------------------------------------------------------- DivideInt2Arr

  /** The sum of a sequence of integers. */
  function Sum(s: seq<int>): int {
    if |s| == 0 then 0 else Sum(s[..|s| - 1]) + s[|s| - 1]
  }

  /** `n` copies of `div`, of which the first `rest` are one larger. */
  function Split(div: int, rest: int, n: nat): (s: seq<int>)
    ensures |s| == n
  {
    seq(n, i requires 0 <= i < n => div + (if i < rest then 1 else 0))
  }

  /**
    Splits `num` into `count` integers. The quotient and remainder are C#'s truncating ones; a
    negative count fails when the array is allocated and a zero count when dividing.
  */
  method DivideInt2Arr(num: int32, count: int32) returns (r: Result<seq<int32>, Exception>)
    ensures count < 0 <==> r == Err(OverflowException)
    ensures count == 0 <==> r == Err(DivideByZeroException)
    ensures count > 0 ==> r.Ok? && r.value == Split(Quot(num, count), Rem(num, count), count)
  {
    if count < 0 {
      return Err(OverflowException);
    }
    var arr := new int32[count];
    if count == 0 {
      return Err(DivideByZeroException);
    }
    QuotBounds(num, count);
    RemBounds(num, count);
    var div: int32 := Quot(num, count);
    var rest: int32 := Rem(num, count);
    for i := 0 to count
      invariant forall j :: 0 <= j < i ==> arr[j] == div
    {
      arr[i] := div;
    }
    var i := 0;
    while i < rest
      invariant 0 <= i && (0 <= rest ==> i <= rest) && (rest < 0 ==> i == 0)
      invariant forall j :: 0 <= j < count ==> arr[j] == div + (if j < i then 1 else 0)
    {
      arr[i] := arr[i] + 1;
      i := i + 1;
    }
    var pieces := arr[..];
    assert |pieces| == |Split(div, rest, count as nat)|;
    assert forall j :: 0 <= j < count ==> pieces[j] == Split(div, rest, count as nat)[j];
    r := Ok(pieces);
  }

  lemma {:induction false} SplitSum(div: int, rest: int, n: nat)
    ensures Sum(Split(div, rest, n)) == n * div + (if rest <= 0 then 0 else if rest < n then rest else n)
  {
    if n > 0 {
      var s := Split(div, rest, n);
      assert s[..n - 1] == Split(div, rest, n - 1);
      SplitSum(div, rest, n - 1);
      assert n * div == (n - 1) * div + div;
    }
  }

  /**
    The pieces add up to `num` for a non-negative `num`; a negative `num` with a non-zero
    remainder loses that remainder, because the remainder loop does not run.
  */
  lemma DivideInt2ArrSum(num: int32, count: int32)
    requires count > 0
    ensures var rest := Rem(num, count);
      Sum(Split(Quot(num, count), rest, count)) == num - (if rest < 0 then rest else 0)
    ensures num >= 0 ==> Sum(Split(Quot(num, count), Rem(num, count), count)) == num
  {
    RemBounds(num, count);
    SplitSum(Quot(num, count), Rem(num, count), count);
  }

  /** The pieces never increase from left to right and differ by at most one. */
  lemma DivideInt2ArrBalanced(num: int32, count: int32)
    requires count > 0
    ensures var s := Split(Quot(num, count), Rem(num, count), count);
      forall i, j :: 0 <= i <= j < count ==> s[j] <= s[i] <= s[j] + 1
  {
  }

  // ---------------------------------------------------------------- display choice

  /**
    `GetRectCenter`: the rectangle's centre, half extents truncated toward zero. For a rectangle
    whose extent does not overflow, it is the midpoint rounded toward the top left.
  */
  function GetRectCenter(rect: Rect): (c: Point)
    ensures rect.left <= rect.right && rect.right - rect.left < 0x8000_0000 ==>
      rect.left <= c.x <= rect.right && 2 * c.x - rect.left - rect.right in {0, -1}
    ensures rect.top <= rect.bottom && rect.bottom - rect.top < 0x8000_0000 ==>
      rect.top <= c.y <= rect.bottom && 2 * c.y - rect.top - rect.bottom in {0, -1}
  {
    Point(Wrap(rect.left + Quot(rect.Width(), 2)), Wrap(rect.top + Quot(rect.Height(), 2)))
  }

  /**
    The overlap of a display's work area with the window, as the 32-bit product `Width * Height`:
    zero when they do not overlap, and the positive true area when both extents are positive and
    their product fits in 31 bits.
  */
  function OverlapArea(display: MonitorInfo, windowRect: Rect): (area: int32)
    ensures IntersectRect(display.rcWork, windowRect) == EmptyRect ==> area == 0
    ensures var o := IntersectRect(display.rcWork, windowRect);
      0 < o.Width() && 0 < o.Height() && o.Width() * o.Height() < 0x8000_0000 ==> 0 < area == o.Width() * o.Height()
  {
    var overlap := IntersectRect(display.rcWork, windowRect);
    var w, h := overlap.Width(), overlap.Height();
    assert EmptyRect.Width() == 0 && EmptyRect.Height() == 0;
    ProductArea(w, h);
    Wrap(w * h)
  }

  /** The 32-bit product of two extents: zero when one is zero, the true product when it fits. */
  lemma ProductArea(w: int32, h: int32)
    ensures w == 0 || h == 0 ==> Wrap(w * h) == 0
    ensures 0 < w && 0 < h && w * h < 0x8000_0000 ==> 0 < Wrap(w * h) == w * h
  {
    PositiveProduct(w, h);
  }

  lemma PositiveProduct(a: int, b: int)
    ensures 0 < a && 0 < b ==> 0 < a * b
  {
    if 0 < a && 0 < b {
      assert a * b >= b by { assert a * b == (a - 1) * b + b; assert (a - 1) * b >= 0; }
    }
  }

  /**
    The squared distance between two points, standing for `Distance(Point, Point)`: never
    negative, and zero exactly when the points coincide.
  */
  function SquaredDistance(a: Point, b: Point): (d: int)
    ensures d >= 0
    ensures d == 0 <==> a == b
  {
    SquaresSum(a.x - b.x, a.y - b.y);
    (a.x - b.x) * (a.x - b.x) + (a.y - b.y) * (a.y - b.y)
  }

  /** `Distance(RECT, RECT)`: the distance between the centres of a display and the window. */
  function CenterDistance(display: MonitorInfo, windowRect: Rect): int {
    SquaredDistance(GetRectCenter(display.rcMonitor), GetRectCenter(windowRect))
  }

  lemma SquaresSum(x: int, y: int)
    ensures x * x + y * y >= 0
    ensures x * x + y * y == 0 <==> x == 0 && y == 0
  {
    if x != 0 {
      assert x * x > 0 by { PositiveProduct(if x > 0 then x else -x, if x > 0 then x else -x); }
    }
    if y != 0 {
      assert y * y > 0 by { PositiveProduct(if y > 0 then y else -y, if y > 0 then y else -y); }
    }
  }

  /** The overlap area of every display, in list order. */
  function Overlaps(displays: seq<MonitorInfo>, windowRect: Rect): (a: seq<int>)
    ensures |a| == |displays|
    ensures forall j :: 0 <= j < |a| ==> a[j] == OverlapArea(displays[j], windowRect)
  {
    seq(|displays|, j requires 0 <= j < |displays| => OverlapArea(displays[j], windowRect) as int)
  }

  /** The centre distance of every display, in list order. */
  function Distances(displays: seq<MonitorInfo>, windowRect: Rect): (d: seq<int>)
    ensures |d| == |displays|
    ensures forall j :: 0 <= j < |d| ==> d[j] == CenterDistance(displays[j], windowRect)
  {
    seq(|displays|, j requires 0 <= j < |displays| => CenterDistance(displays[j], windowRect))
  }

  /** `i` is the first position of the largest value of `a`, and that value is positive. */
  ghost predicate IsFirstPositiveMax(a: seq<int>, i: int) {
    && 0 <= i < |a|
    && 0 < a[i]
    && (forall j :: 0 <= j < i ==> a[j] < a[i])
    && (forall j :: i < j < |a| ==> a[j] <= a[i])
  }

  /** `i` is the first position of the smallest value of `a`. */
  ghost predicate IsFirstMin(a: seq<int>, i: int) {
    && 0 <= i < |a|
    && (forall j :: 0 <= j < i ==> a[i] < a[j])
    && (forall j :: i < j < |a| ==> a[i] <= a[j])
  }

  ghost predicate NoOverlap(displays: seq<MonitorInfo>, windowRect: Rect) {
    forall j :: 0 <= j < |displays| ==> OverlapArea(displays[j], windowRect) <= 0
  }

  /** `i` is the first display whose positive overlap no other display exceeds. */
  ghost predicate IsLargestOverlap(displays: seq<MonitorInfo>, windowRect: Rect, i: int) {
    IsFirstPositiveMax(Overlaps(displays, windowRect), i)
  }

  /** `i` is the first display whose centre no other display's centre is nearer to the window's. */
  ghost predicate IsNearest(displays: seq<MonitorInfo>, windowRect: Rect, i: int) {
    IsFirstMin(Distances(displays, windowRect), i)
  }

  /**
    The first loop of `FindDisplayForWindowRect`: keeps the first index whose area is strictly
    larger than every earlier one, starting from a best area of zero.
  */
  method LargestOverlapIndex(areas: seq<int>) returns (index: int)
    ensures index == -1 <==> forall j :: 0 <= j < |areas| ==> areas[j] <= 0
    ensures index != -1 ==> IsFirstPositiveMax(areas, index)
  {
    index := -1;
    var largest := 0;
    for k := 0 to |areas|
      invariant index == -1 ==> largest == 0 && forall j :: 0 <= j < k ==> areas[j] <= 0
      invariant index != -1 ==> 0 <= index < k && largest == areas[index] > 0
      invariant index != -1 ==> forall j :: 0 <= j < index ==> areas[j] < largest
      invariant forall j :: index < j < k ==> areas[j] <= largest
    {
      if areas[k] > largest {
        index := k;
        largest := areas[k];
      }
    }
  }

  /**
    The second loop of `FindDisplayForWindowRect`: keeps the first index whose distance is
    strictly smaller than every earlier one.
  */
  method NearestIndex(distances: seq<int>) returns (index: int)
    ensures index == -1 <==> |distances| == 0
    ensures index != -1 ==> IsFirstMin(distances, index)
  {
    index := -1;
    // `None` stands for the initial `double.MaxValue`, which every distance is below.
    var nearest: Option<int> := None;
    for k := 0 to |distances|
      invariant nearest.None? <==> k == 0
      invariant nearest.None? <==> index == -1
      invariant nearest.Some? ==> 0 <= index < k && nearest.value == distances[index]
      invariant nearest.Some? ==> forall j :: 0 <= j < index ==> nearest.value < distances[j]
      invariant nearest.Some? ==> forall j :: index < j < k ==> nearest.value <= distances[j]
    {
      if nearest.None? || distances[k] < nearest.value {
        index := k;
        nearest := Some(distances[k]);
      }
    }
  }

  /**
    `FindDisplayForWindowRect`: the display sharing the largest area with the window, the
    earlier one on a tie; when no display overlaps it, the display nearest to it.
  */
  method FindDisplayForWindowRect(displays: seq<MonitorInfo>, windowRect: Rect) returns (index: int)
    ensures index == -1 <==> |displays| == 0
    ensures !NoOverlap(displays, windowRect) ==> IsLargestOverlap(displays, windowRect, index)
    ensures NoOverlap(displays, windowRect) && |displays| > 0 ==> IsNearest(displays, windowRect, index)
  {
    var areas := Overlaps(displays, windowRect);
    index := LargestOverlapIndex(areas);
    if index == -1 {
      index := NearestIndex(Distances(displays, windowRect));
    }
  }

  /**
    The window RECT after its round trip through a WPF `Rect` (left, top, width, height): the
    constructor rejects a negative width or height, and a right or bottom edge outside `int`
    range has no specified conversion back.
  */
  function ThroughWpfRect(windowRect: Rect): Result<Rect, Exception> {
    if windowRect.Width() < 0 || windowRect.Height() < 0 then Err(ArgumentException)
    else if windowRect.right - windowRect.left != windowRect.Width()
         || windowRect.bottom - windowRect.top != windowRect.Height() then Err(UnspecifiedCast)
    else Ok(windowRect)
  }

  /**
    `FindMaximumSingleMonitorRectangle`: the part of the window on its display and that
    display's work area, both all-zero when there is no display.
  */
  method FindMaximumSingleMonitorRectangle(displays: seq<MonitorInfo>, windowRect: Rect)
    returns (r: Result<(Rect, Rect), Exception>)
    ensures ThroughWpfRect(windowRect).Err? ==> r == Err(ThroughWpfRect(windowRect).error)
    ensures ThroughWpfRect(windowRect).Ok? && |displays| == 0 ==> r == Ok((EmptyRect, EmptyRect))
    ensures ThroughWpfRect(windowRect).Ok? && |displays| > 0 ==>
      && r.Ok?
      && exists i ::
           && 0 <= i < |displays|
           && r.value == (IntersectRect(displays[i].rcWork, windowRect), displays[i].rcWork)
           && (IsLargestOverlap(displays, windowRect, i) || (NoOverlap(displays, windowRect) && IsNearest(displays, windowRect, i)))
  {
    var converted := ThroughWpfRect(windowRect);
    if converted.Err? {
      return Err(converted.error);
    }
    var index := FindDisplayForWindowRect(displays, converted.value);
    if index == -1 {
      return Ok((EmptyRect, EmptyRect));
    }
    var display := displays[index];
    r := Ok((IntersectRect(display.rcWork, windowRect), display.rcWork));
  }

  /** When some display overlaps the window, the chosen part of the window is not empty. */
  lemma OverlapMeansNonEmptySubRect(displays: seq<MonitorInfo>, windowRect: Rect, i: int)
    requires IsLargestOverlap(displays, windowRect, i)
    ensures !IntersectRect(displays[i].rcWork, windowRect).IsEmpty()
  {
    assert Overlaps(displays, windowRect)[i] > 0;
  }
}
