/** The bucket tool of the drawing canvas: a stack-driven scanline flood fill
    over two RGBA byte buffers of the same size. The composite buffer (every
    earlier layer with the current canvas on top) is read to find the region;
    both it and the target buffer (the current layer alone) are written, so a
    recoloured pixel is never visited twice. */
module FloodFill {
  import Arith

  newtype byte = x: int | 0 <= x < 256

  datatype Rgba = Rgba(r: byte, g: byte, b: byte, a: byte)

  /** The pixel whose red byte is at offset `pos`. */
  function PixelAt(s: seq<byte>, pos: int): Rgba
    requires 0 <= pos && pos + 3 < |s|
  {
    Rgba(s[pos], s[pos + 1], s[pos + 2], s[pos + 3])
  }

  /** `s` with the four bytes starting at `pos` replaced by `c`. */
  function SetPixel(s: seq<byte>, pos: int, c: Rgba): (t: seq<byte>)
    requires 0 <= pos && pos + 3 < |s|
    ensures |t| == |s| && PixelAt(t, pos) == c
    ensures forall i :: 0 <= i < |s| && !(pos <= i < pos + 4) ==> t[i] == s[i]
  {
    s[pos := c.r][pos + 1 := c.g][pos + 2 := c.b][pos + 3 := c.a]
  }

  /** Byte offset of pixel (x, y) in a buffer `width` pixels wide. */
  function Offset(x: int, y: int, width: int): int
  {
    4 * (y * width + x)
  }

  /** Indices of the pixels among the first `n` whose colour is `c`. */
  ghost function MatchSet(s: seq<byte>, n: nat, c: Rgba): set<nat>
    requires 4 * n <= |s|
  {
    set p: nat | p < n && PixelAt(s, 4 * p) == c
  }

  /** What the fill may do to pixel `p`: leave it as it was in both buffers, or,
      if its composite colour was the start colour, give it the fill colour in
      both buffers. */
  ghost predicate Recoloured(comp0: seq<byte>, tgt0: seq<byte>, comp: seq<byte>, tgt: seq<byte>,
                             p: nat, start: Rgba, fill: Rgba)
    requires 4 * p + 3 < |comp0| && |comp0| == |tgt0| == |comp| == |tgt|
  {
    || (PixelAt(comp, 4 * p) == PixelAt(comp0, 4 * p) && PixelAt(tgt, 4 * p) == PixelAt(tgt0, 4 * p))
    || (PixelAt(comp0, 4 * p) == start && PixelAt(comp, 4 * p) == fill && PixelAt(tgt, 4 * p) == fill)
  }

  ghost predicate AllRecoloured(comp0: seq<byte>, tgt0: seq<byte>, comp: seq<byte>, tgt: seq<byte>,
                                n: nat, start: Rgba, fill: Rgba)
    requires 4 * n == |comp0| == |tgt0| == |comp| == |tgt|
  {
    forall p: nat :: p < n ==> Recoloured(comp0, tgt0, comp, tgt, p, start, fill)
  }

  ghost predicate InBounds(pt: (int, int), width: int, height: int)
  {
    0 <= pt.0 < width && 0 <= pt.1 < height
  }

  /** A pixel inside the picture has its four bytes inside the buffer. */
  lemma OffsetInRange(x: int, y: int, width: int, height: int)
    requires 0 <= x < width && 0 <= y < height
    ensures 0 <= y * width + x < width * height
    ensures 0 <= Offset(x, y, width) && Offset(x, y, width) + 3 < 4 * (width * height)
  {
    assert y * width >= 0;
    Arith.MulMono(y + 1, height, width);
    assert (y + 1) * width == y * width + width;
  }

  /** Moving one row up or down moves the offset by a whole row of bytes. */
  lemma OffsetRow(x: int, y: int, width: int)
    ensures Offset(x, y - 1, width) == Offset(x, y, width) - 4 * width
    ensures Offset(x, y + 1, width) == Offset(x, y, width) + 4 * width
  {
    assert (y - 1) * width == y * width - width;
    assert (y + 1) * width == y * width + width;
  }

  /** A pixel on a later row comes later in the buffer. */
  lemma LaterRow(x: int, y: int, x': int, y': int, width: int)
    requires 0 <= x < width && 0 <= x' < width && y' < y && 0 <= y'
    ensures y' * width + x' < y * width + x
  {
    Arith.MulMono(y' + 1, y, width);
    assert (y' + 1) * width == y' * width + width;
  }

  /** Painting a start-coloured pixel with a different colour removes exactly
      that pixel from the set of start-coloured pixels. */
  lemma {:induction false} MatchSetShrinks(s: seq<byte>, n: nat, q: nat, start: Rgba, fill: Rgba)
    requires 4 * n == |s| && q < n && fill != start && PixelAt(s, 4 * q) == start
    ensures MatchSet(SetPixel(s, 4 * q, fill), n, start) == MatchSet(s, n, start) - {q}
    ensures MatchSet(SetPixel(s, 4 * q, fill), n, start) < MatchSet(s, n, start)
  {
    var t := SetPixel(s, 4 * q, fill);
    forall p: nat | p < n && p != q
      ensures PixelAt(t, 4 * p) == PixelAt(s, 4 * p)
    {
      assert t[4 * p] == s[4 * p] && t[4 * p + 1] == s[4 * p + 1];
      assert t[4 * p + 2] == s[4 * p + 2] && t[4 * p + 3] == s[4 * p + 3];
    }
    assert q in MatchSet(s, n, start) && q !in MatchSet(t, n, start);
  }

  /** Painting pixel `q` keeps the colour of every other pixel. */
  lemma SetPixelElsewhere(s: seq<byte>, n: nat, q: nat, p: nat, c: Rgba)
    requires 4 * n == |s| && q < n && p < n && p != q
    ensures PixelAt(SetPixel(s, 4 * q, c), 4 * p) == PixelAt(s, 4 * p)
  {
    var t := SetPixel(s, 4 * q, c);
    assert t[4 * p] == s[4 * p] && t[4 * p + 1] == s[4 * p + 1];
    assert t[4 * p + 2] == s[4 * p + 2] && t[4 * p + 3] == s[4 * p + 3];
  }

  /** Painting a pixel whose composite colour is the start colour keeps every
      pixel within what the fill may do. */
  lemma {:induction false} PaintKeepsRecoloured(comp0: seq<byte>, tgt0: seq<byte>, comp: seq<byte>, tgt: seq<byte>,
                                                n: nat, q: nat, start: Rgba, fill: Rgba)
    requires 4 * n == |comp0| == |tgt0| == |comp| == |tgt| && q < n
    requires AllRecoloured(comp0, tgt0, comp, tgt, n, start, fill)
    requires PixelAt(comp, 4 * q) == start
    ensures AllRecoloured(comp0, tgt0, SetPixel(comp, 4 * q, fill), SetPixel(tgt, 4 * q, fill), n, start, fill)
  {
    var comp', tgt' := SetPixel(comp, 4 * q, fill), SetPixel(tgt, 4 * q, fill);
    forall p: nat | p < n
      ensures Recoloured(comp0, tgt0, comp', tgt', p, start, fill)
    {
      assert Recoloured(comp0, tgt0, comp, tgt, p, start, fill);
      if p != q {
        SetPixelElsewhere(comp, n, q, p, fill);
        SetPixelElsewhere(tgt, n, q, p, fill);
      }
    }
  }

  /** True when the four bytes at `pos` hold colour `c`. */
  predicate MatchesAt(a: array<byte>, pos: int, c: Rgba)
    reads a
    requires 0 <= pos && pos + 3 < a.Length
    ensures MatchesAt(a, pos, c) <==> PixelAt(a[..], pos) == c
  {
    a[pos] == c.r && a[pos + 1] == c.g && a[pos + 2] == c.b && a[pos + 3] == c.a
  }

  lemma MatchesAtHasColor(a: array<byte>, x: int, y: int, width: int, height: int, c: Rgba)
    requires 0 <= x < width && 0 <= y < height && a.Length == 4 * (width * height)
    ensures 0 <= Offset(x, y, width) && Offset(x, y, width) + 3 < a.Length
    ensures MatchesAt(a, Offset(x, y, width), c) <==> HasColor(a[..], x, y, width, height, c)
  {
    OffsetInRange(x, y, width, height);
  }

  /** Writes colour `fill` at `pos` into both buffers. */
  method ColorPixel(comp: array<byte>, target: array<byte>, pos: int, fill: Rgba)
    requires comp != target
    requires 0 <= pos && pos + 3 < comp.Length && comp.Length == target.Length
    modifies comp, target
    ensures comp[..] == SetPixel(old(comp[..]), pos, fill)
    ensures target[..] == SetPixel(old(target[..]), pos, fill)
  {
    comp[pos], comp[pos + 1], comp[pos + 2], comp[pos + 3] := fill.r, fill.g, fill.b, fill.a;
    target[pos], target[pos + 1], target[pos + 2], target[pos + 3] := fill.r, fill.g, fill.b, fill.a;
  }

  /** Pixel (x, y) lies inside the picture and has colour `c` in `s`. */
  ghost predicate HasColor(s: seq<byte>, x: int, y: int, width: int, height: int, c: Rgba)
  {
    && 0 <= x < width && 0 <= y < height && |s| == 4 * (width * height)
    && (OffsetInRange(x, y, width, height); PixelAt(s, Offset(x, y, width)) == c)
  }

  /** Painting some other pixel keeps the colour of (x, y). */
  lemma PaintElsewhereKeepsColor(s: seq<byte>, x: int, y: int, width: int, height: int,
                                 q: nat, c: Rgba, d: Rgba)
    requires HasColor(s, x, y, width, height, d)
    requires q < width * height && q != y * width + x
    ensures HasColor(SetPixel(s, 4 * q, c), x, y, width, height, d)
  {
    OffsetInRange(x, y, width, height);
    SetPixelElsewhere(s, width * height, q, y * width + x, c);
  }

  /** The colour the fill starts from: the composite colour at (x, y). */
  function StartColor(comp: seq<byte>, x: int, y: int, width: int, height: int): (c: Rgba)
    requires 0 <= x < width && 0 <= y < height && |comp| == 4 * (width * height)
    ensures HasColor(comp, x, y, width, height, c)
  {
    OffsetInRange(x, y, width, height);
    PixelAt(comp, Offset(x, y, width))
  }

  /** The upward scan: from (x, y), climbs while the start colour continues and
      returns the row just below where it stopped. */
  method ScanUp(comp: array<byte>, x: int, y: int, width: int, height: int, start: Rgba) returns (top: int)
    requires 0 <= x < width && 0 <= y < height && comp.Length == 4 * (width * height)
    ensures 0 <= top <= y + 1
    ensures forall yy :: top <= yy <= y ==> HasColor(comp[..], x, yy, width, height, start)
    ensures top > 0 ==> !HasColor(comp[..], x, top - 1, width, height, start)
  {
    var row := y;
    var pixelPos := Offset(x, row, width);
    while row >= 0 && (OffsetInRange(x, row, width, height); MatchesAt(comp, pixelPos, start))
      invariant -1 <= row <= y && pixelPos == Offset(x, row, width)
      invariant forall yy :: row < yy <= y ==> HasColor(comp[..], x, yy, width, height, start)
      decreases row
    {
      OffsetRow(x, row, width);
      row := row - 1;
      pixelPos := pixelPos - width * 4;
    }
    top := row + 1;
  }

  /** Paints the start-coloured pixel (x, row) in both buffers (colorPixel),
      keeping what the downward scan knows about the start pixel (sx, sy). */
  method PaintAt(comp: array<byte>, target: array<byte>, x: int, row: int, width: int, height: int,
                 start: Rgba, fill: Rgba,
                 ghost comp0: seq<byte>, ghost tgt0: seq<byte>, ghost sx: int, ghost sy: int, ghost onStart: bool)
    requires comp != target && start != fill
    requires comp.Length == 4 * (width * height) == target.Length == |comp0| == |tgt0|
    requires HasColor(comp[..], x, row, width, height, start)
    requires 0 <= sx < width && 0 <= sy < height
    requires AllRecoloured(comp0, tgt0, comp[..], target[..], width * height, start, fill)
    requires onStart ==> x == sx
    requires onStart && row <= sy ==> forall yy :: row <= yy <= sy ==> HasColor(comp[..], x, yy, width, height, start)
    requires (onStart && row > sy) || !onStart ==>
               HasColor(comp[..], sx, sy, width, height, fill) && HasColor(target[..], sx, sy, width, height, fill)
    modifies comp, target
    ensures AllRecoloured(comp0, tgt0, comp[..], target[..], width * height, start, fill)
    ensures MatchSet(comp[..], width * height, start) < MatchSet(old(comp[..]), width * height, start)
    ensures onStart && row + 1 <= sy ==>
              forall yy :: row + 1 <= yy <= sy ==> HasColor(comp[..], x, yy, width, height, start)
    ensures (onStart && row + 1 > sy) || !onStart ==>
              HasColor(comp[..], sx, sy, width, height, fill) && HasColor(target[..], sx, sy, width, height, fill)
  {
    ghost var n: nat := width * height;
    OffsetInRange(x, row, width, height);
    ghost var q: nat := row * width + x;
    ghost var compBefore, tgtBefore := comp[..], target[..];
    PaintKeepsRecoloured(comp0, tgt0, comp[..], target[..], n, q, start, fill);
    MatchSetShrinks(comp[..], n, q, start, fill);
    ColorPixel(comp, target, Offset(x, row, width), fill);
    if onStart && row < sy {
      PaintKeepsColumn(compBefore, x, row, sy, width, height, start, fill);
    } else if onStart && row == sy {
      PaintedHasColor(compBefore, x, row, width, height, fill);
      PaintedHasColor(tgtBefore, x, row, width, height, fill);
    } else {
      PaintKeepsStart(compBefore, tgtBefore, x, row, sx, sy, width, height, start, fill, onStart);
    }
  }

  /** A painted pixel has the paint colour. */
  lemma PaintedHasColor(s: seq<byte>, x: int, y: int, width: int, height: int, c: Rgba)
    requires 0 <= x < width && 0 <= y < height && |s| == 4 * (width * height)
    requires 0 <= Offset(x, y, width) && Offset(x, y, width) + 3 < |s|
    ensures HasColor(SetPixel(s, Offset(x, y, width), c), x, y, width, height, c)
  {
  }

  /** Painting (x, row) keeps the start colour of the column below it. */
  lemma PaintKeepsColumn(s: seq<byte>, x: int, row: int, sy: int, width: int, height: int, start: Rgba, fill: Rgba)
    requires 0 <= x < width && 0 <= row < height && |s| == 4 * (width * height)
    requires 0 <= Offset(x, row, width) && Offset(x, row, width) + 3 < |s|
    requires forall yy :: row <= yy <= sy ==> HasColor(s, x, yy, width, height, start)
    ensures forall yy :: row + 1 <= yy <= sy ==>
              HasColor(SetPixel(s, Offset(x, row, width), fill), x, yy, width, height, start)
  {
    OffsetInRange(x, row, width, height);
    forall yy | row + 1 <= yy <= sy
      ensures HasColor(SetPixel(s, Offset(x, row, width), fill), x, yy, width, height, start)
    {
      assert HasColor(s, x, yy, width, height, start);
      LaterRow(x, yy, x, row, width);
      PaintElsewhereKeepsColor(s, x, yy, width, height, row * width + x, fill, start);
    }
  }

  /** Painting a start-coloured pixel other than (sx, sy) keeps the fill
      colour that (sx, sy) already has in both buffers. */
  lemma PaintKeepsStart(comp: seq<byte>, tgt: seq<byte>, x: int, row: int, sx: int, sy: int,
                        width: int, height: int, start: Rgba, fill: Rgba, onStart: bool)
    requires start != fill && |tgt| == |comp|
    requires HasColor(comp, x, row, width, height, start)
    requires 0 <= Offset(x, row, width) && Offset(x, row, width) + 3 < |comp|
    requires onStart ==> x == sx && row > sy
    requires HasColor(comp, sx, sy, width, height, fill) && HasColor(tgt, sx, sy, width, height, fill)
    ensures HasColor(SetPixel(comp, Offset(x, row, width), fill), sx, sy, width, height, fill)
    ensures HasColor(SetPixel(tgt, Offset(x, row, width), fill), sx, sy, width, height, fill)
  {
    OffsetInRange(x, row, width, height);
    var q: nat := row * width + x;
    assert q != sy * width + sx by {
      if onStart {
        LaterRow(x, row, sx, sy, width);
      } else {
        OffsetInRange(sx, sy, width, height);
        assert PixelAt(comp, Offset(x, row, width)) == start;
        assert PixelAt(comp, Offset(sx, sy, width)) == fill;
      }
    }
    PaintElsewhereKeepsColor(comp, sx, sy, width, height, q, fill, fill);
    PaintElsewhereKeepsColor(tgt, sx, sy, width, height, q, fill, fill);
  }

  /** One side of the downward scan: a start-coloured neighbour pushes its
      position once per run (reach) and a differently coloured one ends the run. */
  method LookSide(neighbourMatches: bool, reach: bool, stack: seq<(int, int)>, pt: (int, int))
    returns (reach': bool, stack': seq<(int, int)>)
    ensures reach' == neighbourMatches
    ensures stack' == if neighbourMatches && !reach then stack + [pt] else stack
  {
    reach', stack' := reach, stack;
    if neighbourMatches {
      if !reach {
        stack' := stack + [pt];
        reach' := true;
      }
    } else if reach {
      reach' := false;
    }
  }

  /** Both sides of the downward scan at (x, row): the left neighbour when
      x > 0 and the right one when x < width - 1, each through `LookSide`. */
  method LookBothSides(comp: array<byte>, x: int, row: int, width: int, height: int, start: Rgba,
                       reachLeft: bool, reachRight: bool, stack: seq<(int, int)>)
    returns (reachLeft': bool, reachRight': bool, stack': seq<(int, int)>)
    requires 0 <= x < width && 0 <= row < height && comp.Length == 4 * (width * height)
    requires forall i :: 0 <= i < |stack| ==> InBounds(stack[i], width, height)
    ensures forall i :: 0 <= i < |stack'| ==> InBounds(stack'[i], width, height)
    ensures |stack| <= |stack'| && stack'[..|stack|] == stack
    ensures forall i :: |stack| <= i < |stack'| ==> stack'[i] == (x - 1, row) || stack'[i] == (x + 1, row)
    ensures x > 0 ==> reachLeft' == (OffsetInRange(x - 1, row, width, height); MatchesAt(comp, Offset(x - 1, row, width), start))
    ensures x == 0 ==> reachLeft' == reachLeft
    ensures x < width - 1 ==> reachRight' == (OffsetInRange(x + 1, row, width, height); MatchesAt(comp, Offset(x + 1, row, width), start))
    ensures x == width - 1 ==> reachRight' == reachRight
  {
    var pixelPos := Offset(x, row, width);
    reachLeft', reachRight', stack' := reachLeft, reachRight, stack;
    if x > 0 {
      OffsetInRange(x - 1, row, width, height);
      assert pixelPos - 4 == Offset(x - 1, row, width);
      reachLeft', stack' := LookSide(MatchesAt(comp, pixelPos - 4, start), reachLeft, stack', (x - 1, row));
    }
    if x < width - 1 {
      OffsetInRange(x + 1, row, width, height);
      assert pixelPos + 4 == Offset(x + 1, row, width);
      reachRight', stack' := LookSide(MatchesAt(comp, pixelPos + 4, start), reachRight, stack', (x + 1, row));
    }
  }

  /** The downward scan: from (x, y) paints while the start colour continues,
      pushing the first pixel of every start-coloured run met on the left and on
      the right. The ghost parameters carry what the caller knows: the
      original buffers, and the start pixel (sx, sy), which is either already
      filled or, on the first span, lies below (x, y) in a start-coloured run. */
  method PaintSpan(comp: array<byte>, target: array<byte>, x: int, y: int, width: int, height: int,
                   start: Rgba, fill: Rgba, stack: seq<(int, int)>,
                   ghost comp0: seq<byte>, ghost tgt0: seq<byte>, ghost sx: int, ghost sy: int, ghost onStart: bool)
    returns (stack': seq<(int, int)>)
    requires comp != target && start != fill
    requires 0 <= x < width && 0 <= y <= height
    requires comp.Length == 4 * (width * height) == target.Length == |comp0| == |tgt0|
    requires 0 <= sx < width && 0 <= sy < height
    requires forall i :: 0 <= i < |stack| ==> InBounds(stack[i], width, height)
    requires AllRecoloured(comp0, tgt0, comp[..], target[..], width * height, start, fill)
    requires onStart ==> x == sx && y <= sy
    requires onStart ==> forall yy :: y <= yy <= sy ==> HasColor(comp[..], x, yy, width, height, start)
    requires !onStart ==> HasColor(comp[..], sx, sy, width, height, fill) && HasColor(target[..], sx, sy, width, height, fill)
    modifies comp, target
    ensures forall i :: 0 <= i < |stack'| ==> InBounds(stack'[i], width, height)
    ensures AllRecoloured(comp0, tgt0, comp[..], target[..], width * height, start, fill)
    ensures HasColor(comp[..], sx, sy, width, height, fill) && HasColor(target[..], sx, sy, width, height, fill)
    ensures MatchSet(comp[..], width * height, start) <= MatchSet(old(comp[..]), width * height, start)
    ensures MatchSet(comp[..], width * height, start) == MatchSet(old(comp[..]), width * height, start) ==>
              stack' == stack
  {
    ghost var n: nat := width * height;
    ghost var before := MatchSet(comp[..], n, start);
    stack' := stack;
    var row := y;
    var pixelPos := Offset(x, row, width);
    var reachLeft, reachRight := false, false;
    ghost var painted := false;
    while row < height && (OffsetInRange(x, row, width, height); MatchesAt(comp, pixelPos, start))
      invariant y <= row <= height && pixelPos == Offset(x, row, width)
      invariant forall i :: 0 <= i < |stack'| ==> InBounds(stack'[i], width, height)
      invariant AllRecoloured(comp0, tgt0, comp[..], target[..], n, start, fill)
      invariant MatchSet(comp[..], n, start) <= before
      invariant painted ==> MatchSet(comp[..], n, start) < before
      invariant !painted ==> stack' == stack
      invariant onStart && row <= sy ==>
                  forall yy :: row <= yy <= sy ==> HasColor(comp[..], x, yy, width, height, start)
      invariant (onStart && row > sy) || !onStart ==>
                  HasColor(comp[..], sx, sy, width, height, fill) && HasColor(target[..], sx, sy, width, height, fill)
      decreases height - row
    {
      OffsetInRange(x, row, width, height);
      PaintAt(comp, target, x, row, width, height, start, fill, comp0, tgt0, sx, sy, onStart);
      painted := true;

      reachLeft, reachRight, stack' := LookBothSides(comp, x, row, width, height, start, reachLeft, reachRight, stack');

      OffsetRow(x, row, width);
      row := row + 1;
      pixelPos := pixelPos + width * 4;
    }
    if row < height {
      // the scan stopped at a pixel that no longer has the start colour
      MatchesAtHasColor(comp, x, row, width, height, start);
    }
  }

  /** Fills the region around (startX, startY) with (rFill, gFill, bFill, 255).
      `comp` is the composite buffer and `target` the current layer's buffer,
      both `width` x `height` pixels in RGBA order. */
  method Fill(comp: array<byte>, target: array<byte>, width: int, height: int,
              startX: int, startY: int, rFill: byte, gFill: byte, bFill: byte)
    requires comp != target
    requires 0 <= startX < width && 0 <= startY < height
    requires comp.Length == 4 * (width * height) == target.Length
    modifies comp, target
    // filling with the colour that is already there changes nothing
    ensures StartColor(old(comp[..]), startX, startY, width, height) == Rgba(rFill, gFill, bFill, 255) ==>
              comp[..] == old(comp[..]) && target[..] == old(target[..])
    // otherwise the start pixel itself ends up with the fill colour in both buffers
    ensures StartColor(old(comp[..]), startX, startY, width, height) != Rgba(rFill, gFill, bFill, 255) ==>
              HasColor(comp[..], startX, startY, width, height, Rgba(rFill, gFill, bFill, 255)) &&
              HasColor(target[..], startX, startY, width, height, Rgba(rFill, gFill, bFill, 255))
    // every pixel is either untouched in both buffers, or had the start colour
    // in the composite and now has the fill colour in both
    ensures AllRecoloured(old(comp[..]), old(target[..]), comp[..], target[..], width * height,
                          StartColor(old(comp[..]), startX, startY, width, height), Rgba(rFill, gFill, bFill, 255))
  {
    ghost var comp0, tgt0 := comp[..], target[..];
    ghost var n: nat := width * height;
    var fill := Rgba(rFill, gFill, bFill, 255);
    OffsetInRange(startX, startY, width, height);
    var startPos := Offset(startX, startY, width);
    var start := Rgba(comp[startPos], comp[startPos + 1], comp[startPos + 2], comp[startPos + 3]);
    if start == fill {
      return;
    }

    var stack := [(startX, startY)];
    ghost var first := true;
    while |stack| > 0
      invariant forall i :: 0 <= i < |stack| ==> InBounds(stack[i], width, height)
      invariant AllRecoloured(comp0, tgt0, comp[..], target[..], n, start, fill)
      invariant first ==> stack == [(startX, startY)] && comp[..] == comp0 && target[..] == tgt0
      invariant !first ==> HasColor(comp[..], startX, startY, width, height, fill)
                           && HasColor(target[..], startX, startY, width, height, fill)
      decreases MatchSet(comp[..], n, start), |stack|
    {
      ghost var before := MatchSet(comp[..], n, start);
      var x, y := stack[|stack| - 1].0, stack[|stack| - 1].1;
      stack := stack[..|stack| - 1];
      ghost var popped := stack;
      var top := ScanUp(comp, x, y, width, height, start);
      if first {
        assert HasColor(comp[..], startX, startY, width, height, start);
      }
      stack := PaintSpan(comp, target, x, top, width, height, start, fill, stack,
                         comp0, tgt0, startX, startY, first);
      assert MatchSet(comp[..], n, start) == before ==> stack == popped;
      first := false;
    }
  }
}
