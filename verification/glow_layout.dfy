/**
  How a glow strip is painted from its bitmaps. A side strip (left or right) stacks five parts
  top to bottom: a corner, an end piece, a stretched middle, an end piece and a corner. A top
  or bottom strip lays out three parts left to right between the two corners it leaves to the
  side strips: an end piece, a stretched middle and an end piece. The middle is drawn only when
  the room left for it is positive. Coordinates are C# `int` arithmetic.
*/
module GlowLayout {
  import opened Int32
  import opened GlowBitmap

  /** The thickness of a glow strip. */
  const GlowDepth: int := 9

  /** `Dock`: which side of the target window a glow strip sits on. */
  datatype Dock = Left | Top | Right | Bottom

  /** The pixel size of a part's alpha mask (the bitmap made from it has the same size). */
  datatype Size = Size(width: int32, height: int32)

  /** One `AlphaBlend` call: a part copied to the destination rectangle of the strip's bitmap. */
  datatype Blend = Blend(part: GlowBitmapPart, x: int32, y: int32, width: int32, height: int32)

  /** The parts a strip asks the cache for, in the order it asks. */
  function PartsOf(orientation: Dock): (parts: seq<GlowBitmapPart>)
    ensures |parts| == (if orientation.Left? || orientation.Right? then 5 else 3)
  {
    match orientation
    case Left => [CornerTopLeft, LeftTop, GlowBitmapPart.Left, LeftBottom, CornerBottomLeft]
    case Right => [CornerTopRight, RightTop, GlowBitmapPart.Right, RightBottom, CornerBottomRight]
    case Top => [TopLeft, GlowBitmapPart.Top, TopRight]
    case Bottom => [BottomLeft, GlowBitmapPart.Bottom, BottomRight]
  }

  /** Each strip uses its own parts: no part is shared by two strips. */
  lemma PartsDisjoint(a: Dock, b: Dock, p: GlowBitmapPart)
    requires a != b
    ensures !(p in PartsOf(a) && p in PartsOf(b))
  {
  }

  /**
    `DrawLeft` / `DrawRight`: the five parts `p` of a side strip of height `height`, where
    `size` gives each part's mask size.
  */
  function DrawVertical(p: seq<GlowBitmapPart>, size: GlowBitmapPart -> Size, height: int32): (r: seq<Blend>)
    requires |p| == 5
    ensures |r| == 4 || |r| == 5
    ensures r[0].part == p[0] && r[1].part == p[1] && r[|r| - 2].part == p[3] && r[|r| - 1].part == p[4]
    ensures |r| == 5 <==> 0 < Wrap(Wrap(Wrap(height - size(p[4]).height) - size(p[3]).height) - Wrap(size(p[0]).height + size(p[1]).height))
    ensures |r| == 5 ==> r[2].part == p[2]
    ensures forall i :: 0 <= i < |r| ==> r[i].x == 0
    ensures forall i :: 0 <= i < |r| ==> r[i].part in p
  {
    var s1, s2, s3, s4, s5 := size(p[0]), size(p[1]), size(p[2]), size(p[3]), size(p[4]);
    var y1 := Wrap(s1.height + s2.height);
    var y2 := Wrap(height - s5.height);
    var y3 := Wrap(y2 - s4.height);
    var hDest := Wrap(y3 - y1);
    var middle := if hDest > 0 then [Blend(p[2], 0, y1, s3.width, hDest)] else [];
    [Blend(p[0], 0, 0, s1.width, s1.height), Blend(p[1], 0, s1.height, s2.width, s2.height)]
      + middle
      + [Blend(p[3], 0, y3, s4.width, s4.height), Blend(p[4], 0, y2, s5.width, s5.height)]
  }

  /**
    `DrawTop` / `DrawBottom`: the three parts `p` of a strip of width `width`, placed between
    `GlowDepth` and `width - GlowDepth`.
  */
  function DrawHorizontal(p: seq<GlowBitmapPart>, size: GlowBitmapPart -> Size, width: int32): (r: seq<Blend>)
    requires |p| == 3
    ensures |r| == 2 || |r| == 3
    ensures r[0].part == p[0] && r[|r| - 1].part == p[2]
    ensures |r| == 3 <==> 0 < Wrap(Wrap(Wrap(width - GlowDepth) - size(p[2]).width) - Wrap(GlowDepth + size(p[0]).width))
    ensures |r| == 3 ==> r[1].part == p[1]
    ensures forall i :: 0 <= i < |r| ==> r[i].y == 0
    ensures forall i :: 0 <= i < |r| ==> r[i].part in p
  {
    var s1, s2, s3 := size(p[0]), size(p[1]), size(p[2]);
    var x1: int32 := GlowDepth;
    var x2 := Wrap(x1 + s1.width);
    var x3 := Wrap(Wrap(width - GlowDepth) - s3.width);
    var wDest := Wrap(x3 - x2);
    var middle := if wDest > 0 then [Blend(p[1], x2, 0, wDest, s2.height)] else [];
    [Blend(p[0], x1, 0, s1.width, s1.height)] + middle + [Blend(p[2], x3, 0, s3.width, s3.height)]
  }

  /** The blends `RenderLayeredWindow` makes for a strip of the given size. */
  function Draw(orientation: Dock, size: GlowBitmapPart -> Size, width: int32, height: int32): (r: seq<Blend>)
    ensures forall i :: 0 <= i < |r| ==> r[i].part in PartsOf(orientation)
  {
    var p := PartsOf(orientation);
    if orientation.Left? || orientation.Right? then DrawVertical(p, size, height)
    else DrawHorizontal(p, size, width)
  }

  /** Mask sizes small enough that no coordinate arithmetic of a strip wraps. */
  predicate SmallSize(s: Size) {
    0 <= s.width < 0x1_0000 && 0 <= s.height < 0x1_0000
  }

  /**
    The pieces follow one another without gaps along `lo`..`hi`: the first starts at `lo`, each
    starts no later than the previous one ends, and the last ends at `hi`.
  */
  predicate Chained(starts: seq<int>, ends: seq<int>, lo: int, hi: int)
    requires |starts| == |ends| > 0
  {
    && starts[0] == lo
    && (forall i :: 0 < i < |starts| ==> starts[i] <= ends[i - 1])
    && ends[|ends| - 1] == hi
  }

  /** As `Chained`, with each piece starting exactly where the previous one ends. */
  predicate Tiled(starts: seq<int>, ends: seq<int>, lo: int, hi: int)
    requires |starts| == |ends| > 0
  {
    Chained(starts, ends, lo, hi) && forall i :: 0 < i < |starts| ==> starts[i] == ends[i - 1]
  }

  function YStarts(r: seq<Blend>): seq<int> { seq(|r|, i requires 0 <= i < |r| => r[i].y as int) }
  function YEnds(r: seq<Blend>): seq<int> { seq(|r|, i requires 0 <= i < |r| => r[i].y + r[i].height) }
  function XStarts(r: seq<Blend>): seq<int> { seq(|r|, i requires 0 <= i < |r| => r[i].x as int) }
  function XEnds(r: seq<Blend>): seq<int> { seq(|r|, i requires 0 <= i < |r| => r[i].x + r[i].width) }

  /**
    A side strip covers its whole height: the pieces run from 0 to `height` without gaps, and
    when the middle is drawn they tile it exactly, the middle filling the room between the ends.
  */
  lemma DrawVerticalCovers(p: seq<GlowBitmapPart>, size: GlowBitmapPart -> Size, height: int32)
    requires |p| == 5
    requires forall i :: 0 <= i < 5 ==> SmallSize(size(p[i]))
    requires 0 <= height < 0x100_0000
    ensures var r := DrawVertical(p, size, height);
      && Chained(YStarts(r), YEnds(r), 0, height)
      && (|r| == 5 ==> Tiled(YStarts(r), YEnds(r), 0, height))
  {
    var r := DrawVertical(p, size, height);
    assert forall i :: 0 <= i < 5 ==> SmallSize(size(p[i]));
    var s1, s2, s4, s5 := size(p[0]), size(p[1]), size(p[3]), size(p[4]);
    assert SmallSize(s1) && SmallSize(s2) && SmallSize(s4) && SmallSize(s5);
  }

  /**
    A top or bottom strip covers the span between the side strips, from `GlowDepth` to
    `width - GlowDepth`, without gaps, tiling it exactly when the middle is drawn.
  */
  lemma DrawHorizontalCovers(p: seq<GlowBitmapPart>, size: GlowBitmapPart -> Size, width: int32)
    requires |p| == 3
    requires forall i :: 0 <= i < 3 ==> SmallSize(size(p[i]))
    requires 0 <= width < 0x100_0000
    ensures var r := DrawHorizontal(p, size, width);
      && Chained(XStarts(r), XEnds(r), GlowDepth, width - GlowDepth)
      && (|r| == 3 ==> Tiled(XStarts(r), XEnds(r), GlowDepth, width - GlowDepth))
  {
    var s1, s3 := size(p[0]), size(p[2]);
    assert SmallSize(s1) && SmallSize(s3);
  }
}
