/** Letterboxing a desktop's frames onto a recording's canvas. */
module Fit {
  import opened Bytes
  import opened PixelFormats
  import opened Grid
  import opened Pictures
  import opened Rasters

  datatype Geometry = Geometry(width: u16, height: u16)

  // ---------------------------------------------------------------- the canvas

  function Even(side: u16): u16 {
    if side <= 1 then 2 else if side == 0xFFFF then 0xFFFE else side + side % 2
  }

  function ForScreen(width: u16, height: u16): Geometry {
    Geometry(Even(width), Even(height))
  }

  /** Each side is the least even number that is at least two and holds the screen, or the greatest
      even number there is. */
  lemma EvenIsLeast(side: u16, other: u16)
    requires other % 2 == 0 && other >= 2 && other >= side
    ensures Even(side) % 2 == 0 && 2 <= Even(side) <= other
    ensures side < 0xFFFF ==> side <= Even(side)
  {
  }

  // ---------------------------------------------------------------- the box a frame is drawn in

  /** Width and height of the box a frame is drawn in (`BoxFits` says what they satisfy). */
  function Scaled(fw: nat, fh: nat, cw: nat, ch: nat): (int, int)
    requires fw > 0 && fh > 0
  {
    if fw <= cw && fh <= ch then (fw, fh)
    else if fw * ch >= fh * cw then (cw, Max(fh * cw / fw, 1))
    else (Max(fw * ch / fh, 1), ch)
  }

  /** `n` is the whole number of `d`s that fit in `x`, or 1 when none does. */
  predicate LargestOrOne(n: int, d: int, x: int) {
    (n * d <= x < (n + 1) * d) || (n == 1 && x < d)
  }

  lemma FloorOrOne(x: nat, d: nat)
    requires d > 0
    ensures Max(x / d, 1) >= 1 && LargestOrOne(Max(x / d, 1), d, x)
  {
    DivMod(x, d);
    assert (x / d + 1) * d == (x / d) * d + d;
    if x / d <= 0 {
      MulMono(x / d + 1, 1, d);
    }
  }

  /** The box is never empty, never larger than the canvas or the frame; a frame that fits keeps its
      size; one that does not touches two opposite edges, and its other side is the largest that keeps
      the aspect, or a single pixel. */
  lemma BoxFits(fw: nat, fh: nat, cw: nat, ch: nat)
    requires fw > 0 && fh > 0 && cw > 0 && ch > 0
    ensures var (sw, sh) := Scaled(fw, fh, cw, ch);
      && 1 <= sw <= cw && 1 <= sh <= ch && sw <= fw && sh <= fh
      && (fw <= cw && fh <= ch ==> sw == fw && sh == fh)
      && (!(fw <= cw && fh <= ch) ==>
            || (sw == cw && LargestOrOne(sh, fw, fh * cw))
            || (sh == ch && LargestOrOne(sw, fh, fw * ch)))
  {
    if !(fw <= cw && fh <= ch) {
      MulMono(0, cw, fh);
      MulMono(0, ch, fw);
      if fw * ch >= fh * cw {
        WiderThanCanvas(fw, fh, cw, ch);
        FloorOrOne(fh * cw, fw);
        QuotientBelow(fh * cw, fw, ch);
        MulMono(cw, fw, fh);
        QuotientBelow(fh * cw, fw, fh);
      } else {
        WiderThanCanvas(fh, fw, ch, cw);
        FloorOrOne(fw * ch, fh);
        QuotientBelow(fw * ch, fh, cw);
        MulMono(ch, fh, fw);
        QuotientBelow(fw * ch, fh, fw);
      }
    }
  }

  lemma WiderThanCanvas(fw: nat, fh: nat, cw: nat, ch: nat)
    requires fw * ch >= fh * cw && !(fw <= cw && fh <= ch) && cw > 0 && ch > 0
    ensures cw < fw
  {
    if fw <= cw {
      MulMono(fw, cw, ch);
      MulMono(ch + 1, fh, cw);
    }
  }

  lemma QuotientBelow(x: nat, d: nat, top: nat)
    requires d > 0 && x <= d * top
    ensures 0 <= x / d <= top
  {
    DivMod(x, d);
    if x / d > top { MulMono(top + 1, x / d, d); }
    if x / d < 0 { MulMono(x / d, -1, d); }
  }

  /** Sampling by the floor never leaves the frame. */
  lemma SampleInside(n: nat, from: nat, to: nat)
    requires n < to
    ensures 0 <= n * from / to && (from > 0 ==> n * from / to < from)
  {
    MulMono(0, n, from);
    QuotientBelow(n * from, to, from) by { MulMono(n, to, from); }
    if from > 0 && n * from / to == from {
      DivMod(n * from, to);
      MulMono(n + 1, to, from);
    }
  }

  // ---------------------------------------------------------------- the fitted picture

  /** The frame's pixel for a place in the box. */
  function Sample(frame: Picture, sw: nat, sh: nat, c: nat, r: nat): Rgba
    requires frame.Valid() && frame.width > 0 && frame.height > 0 && c < sw && r < sh
  {
    SampleInside(c, frame.width, sw);
    SampleInside(r, frame.height, sh);
    At(frame.px, frame.width, frame.height, c * frame.width / sw, r * frame.height / sh)
  }

  /** The whole box, row by row. */
  function Box(frame: Picture, sw: nat, sh: nat): (px: seq<Rgba>)
    requires frame.Valid() && frame.width > 0 && frame.height > 0
    ensures |px| == sw * sh
  {
    MulMono(0, sh, sw);
    seq(sw * sh, k requires 0 <= k < sw * sh => CellOf(sw, sh, k); Sample(frame, sw, sh, k % sw, k / sw))
  }

  lemma BoxAt(frame: Picture, sw: nat, sh: nat, c: nat, r: nat)
    requires frame.Valid() && frame.width > 0 && frame.height > 0 && c < sw && r < sh
    ensures 0 <= r * sw + c < |Box(frame, sw, sh)|
    ensures Box(frame, sw, sh)[r * sw + c] == Sample(frame, sw, sh, c, r)
  {
    IndexInside(sw, sh, c, r);
    DivModUnique(r * sw + c, sw, r, c);
  }

  /** A box in the middle of a black canvas. */
  function Centred(frame: Picture, canvas: Geometry, sw: nat, sh: nat): (p: Picture)
    requires frame.Valid() && frame.width > 0 && frame.height > 0 && sw <= canvas.width && sh <= canvas.height
    ensures p.Valid() && p.width == canvas.width && p.height == canvas.height
  {
    var blank := Solid(canvas.width, canvas.height, BLACK);
    var box := Box(frame, sw, sh);
    Commute(sw, sh);
    blank.(px := Place(blank.px, canvas.width, canvas.height, Margin(canvas.width, sw), Margin(canvas.height, sh),
        box, sw, sh))
  }

  /** What `fit` draws. */
  function Fitted(frame: Picture, canvas: Geometry): (p: Picture)
    requires frame.Valid() && canvas.width > 0 && canvas.height > 0
    ensures p.Valid() && p.width == canvas.width && p.height == canvas.height
  {
    if frame.width == 0 || frame.height == 0 then Solid(canvas.width, canvas.height, BLACK)
    else
      BoxFits(frame.width, frame.height, canvas.width, canvas.height);
      var (sw, sh) := Scaled(frame.width, frame.height, canvas.width, canvas.height);
      Centred(frame, canvas, sw, sh)
  }

  /** The space before a centred box. */
  function Margin(canvas: nat, box: nat): (m: nat)
    requires box <= canvas
    ensures 0 <= canvas - box - 2 * m <= 1
  {
    (canvas - box) / 2
  }

  lemma CentredAt(frame: Picture, canvas: Geometry, sw: nat, sh: nat, x: nat, y: nat)
    requires frame.Valid() && frame.width > 0 && frame.height > 0 && sw <= canvas.width && sh <= canvas.height
    requires x < canvas.width && y < canvas.height
    ensures var ox, oy := Margin(canvas.width, sw), Margin(canvas.height, sh);
      Centred(frame, canvas, sw, sh).Pixel(x, y)
      == Some(if ox <= x < ox + sw && oy <= y < oy + sh then Sample(frame, sw, sh, x - ox, y - oy) else BLACK)
  {
    hide Place, Sample, Box, Margin;
    var cw: nat, ch: nat := canvas.width, canvas.height;
    var ox, oy := Margin(cw, sw), Margin(ch, sh);
    var blank := Solid(canvas.width, canvas.height, BLACK);
    IndexInside(cw, ch, x, y);
    assert At(blank.px, cw, ch, x, y) == BLACK;
    hide Solid;
    Commute(sw, sh);
    PlaceAt(blank.px, cw, ch, ox, oy, Box(frame, sw, sh), sw, sh, x, y);
    if ox <= x < ox + sw && oy <= y < oy + sh { BoxAt(frame, sw, sh, x - ox, y - oy); }
  }

  /** The result is exactly the canvas's size: black everywhere but in a box that is centred to within
      a pixel, where each pixel is the frame's at the floor-scaled place; a frame with no pixels has no box. */
  lemma FittedAt(frame: Picture, canvas: Geometry, x: nat, y: nat)
    requires frame.Valid() && x < canvas.width && y < canvas.height
    ensures frame.width == 0 || frame.height == 0 ==> Fitted(frame, canvas).Pixel(x, y) == Some(Rgba(0, 0, 0, 255))
    ensures frame.width > 0 && frame.height > 0 ==>
      var (sw, sh) := Scaled(frame.width, frame.height, canvas.width, canvas.height);
      && 0 <= sw <= canvas.width && 0 <= sh <= canvas.height
      && var ox, oy := Margin(canvas.width, sw), Margin(canvas.height, sh);
         Fitted(frame, canvas).Pixel(x, y)
         == Some(if ox <= x < ox + sw && oy <= y < oy + sh then Sample(frame, sw, sh, x - ox, y - oy)
                 else Rgba(0, 0, 0, 255))
  {
    hide Centred, Sample, Scaled;
    if frame.width == 0 || frame.height == 0 {
      IndexInside(canvas.width, canvas.height, x, y);
    } else {
      BoxFits(frame.width, frame.height, canvas.width, canvas.height);
      var (sw, sh) := Scaled(frame.width, frame.height, canvas.width, canvas.height);
      CentredAt(frame, canvas, sw, sh, x, y);
    }
  }

  /** Inside the box, a place shows the one pixel of the frame whose share of the box it begins in: column `u`
      of the frame covers the places from `u / fw` to `(u + 1) / fw` of the box's width, and rows likewise. */
  lemma FittedPixel(frame: Picture, canvas: Geometry, c: nat, r: nat, u: nat, v: nat)
    requires frame.Valid() && frame.width > 0 && frame.height > 0 && canvas.width > 0 && canvas.height > 0
    requires var (sw, sh) := Scaled(frame.width, frame.height, canvas.width, canvas.height);
      && c < sw && r < sh
      && u * sw <= c * frame.width < (u + 1) * sw && v * sh <= r * frame.height < (v + 1) * sh
    ensures var (sw, sh) := Scaled(frame.width, frame.height, canvas.width, canvas.height);
      && 0 <= sw <= canvas.width && 0 <= sh <= canvas.height && u < frame.width && v < frame.height
      && Fitted(frame, canvas).Pixel(Margin(canvas.width, sw) + c, Margin(canvas.height, sh) + r) == frame.Pixel(u, v)
  {
    hide Fitted, Scaled, Margin;
    BoxFits(frame.width, frame.height, canvas.width, canvas.height);
    var (sw, sh) := Scaled(frame.width, frame.height, canvas.width, canvas.height);
    FittedAt(frame, canvas, Margin(canvas.width, sw) + c, Margin(canvas.height, sh) + r);
    SampleInside(c, frame.width, sw);
    SampleInside(r, frame.height, sh);
    DivModUnique(c * frame.width, sw, u, c * frame.width - u * sw);
    DivModUnique(r * frame.height, sh, v, r * frame.height - v * sh);
  }

  /** A frame as large as the canvas comes out as itself: the early return changes nothing. */
  lemma SameSizeIsItself(frame: Picture, canvas: Geometry)
    requires frame.Valid() && frame.width == canvas.width > 0 && frame.height == canvas.height > 0
    ensures Fitted(frame, canvas) == frame
  {
    hide Place;
    var w: nat, h: nat := frame.width, frame.height;
    var blank := Solid(frame.width, frame.height, BLACK);
    var box := Box(frame, w, h);
    assert h * w == w * h;
    var out := Place(blank.px, w, h, 0, 0, box, w, h);
    forall x, y | 0 <= x < w && 0 <= y < h ensures At(out, w, h, x, y) == At(frame.px, w, h, x, y) {
      PlaceAt(blank.px, w, h, 0, 0, box, w, h, x, y);
      BoxAt(frame, w, h, x, y);
      DivModUnique(x * w, w, x, 0);
      DivModUnique(y * h, h, y, 0);
    }
    SameCells(out, frame.px, w, h);
  }

  /** A recording made at its own screen's size is never scaled, except at the one size whose rounding
      goes down. */
  lemma OwnScreenIsUnscaled(width: u16, height: u16)
    requires width > 0 && height > 0
    ensures var g := ForScreen(width, height);
            Scaled(width, height, g.width, g.height) == (width, height) <==> width != 0xFFFF && height != 0xFFFF
  {
    var g := ForScreen(width, height);
    BoxFits(width, height, g.width, g.height);
  }

  // ---------------------------------------------------------------- the loops

  /** `fit`. */
  method DrawFitted(frame: Raster, canvas: Geometry) returns (out: array<byte>)
    requires frame.Valid() && canvas.width > 0 && canvas.height > 0
    ensures fresh(out) && out.Length % 4 == 0 && Cells(out[..]) == Fitted(frame.Shown(), canvas).px
  {
    hide Centred, Cells, Scaled;
    var fw: nat, fh: nat := frame.width, frame.height;
    if fw == canvas.width && fh == canvas.height {
      SameSizeIsItself(frame.Shown(), canvas);
      out := Clone(frame.rgba);
      return;
    }
    MulMono(0, canvas.height, canvas.width);
    out := FilledBytes(canvas.width * canvas.height, BLACK);
    if fw == 0 || fh == 0 {
      return;
    }
    BoxFits(fw, fh, canvas.width, canvas.height);
    var sw, sh := ScaledSize(fw, fh, canvas.width, canvas.height);
    DrawBox(frame, out, canvas, sw, sh);
  }

  method Clone(a: array<byte>) returns (b: array<byte>)
    ensures fresh(b) && b[..] == a[..]
  {
    b := new byte[a.Length](i requires 0 <= i < a.Length reads a => a[i]);
  }

  /** The loop over the box's rows. */
  method DrawBox(frame: Raster, out: array<byte>, canvas: Geometry, sw: nat, sh: nat)
    requires frame.Valid() && frame.width > 0 && frame.height > 0 && frame.rgba != out
    requires sw <= canvas.width && sh <= canvas.height
    requires out.Length % 4 == 0 && Cells(out[..]) == Solid(canvas.width, canvas.height, BLACK).px
    modifies out
    ensures Cells(out[..]) == Centred(frame.Shown(), canvas, sw, sh).px
  {
    hide Place, Placed, Box, Cells, Splice;
    var cw: nat, ch: nat := canvas.width, canvas.height;
    var ox, oy := Margin(cw, sw), Margin(ch, sh);
    ghost var blank := Cells(out[..]);
    ghost var box := Box(frame.Shown(), sw, sh);
    Commute(sw, sh);
    ghost var n := cw * ch;
    PlacedNone(blank, cw, ch, ox, oy, box, sw);
    PlacedAll(blank, cw, ch, ox, oy, box, sw, sh);
    for dy := 0 to sh
      invariant out.Length == 4 * n
      invariant Cells(out[..]) == Placed(blank, cw, ch, ox, oy, box, sw, dy)
    {
      PlacedNext(blank, cw, ch, ox, oy, box, sw, dy, sh);
      if sw == frame.width {
        CopyRow(frame, out, cw, ch, ox, oy + dy, sh, dy);
      } else {
        SampleRow(frame, out, cw, ch, ox, oy + dy, sw, sh, dy);
      }
    }
  }

  method ScaledSize(fw: nat, fh: nat, cw: nat, ch: nat) returns (sw: nat, sh: nat)
    requires fw > 0 && fh > 0 && cw > 0 && ch > 0
    ensures Scaled(fw, fh, cw, ch) == (sw, sh)
  {
    BoxFits(fw, fh, cw, ch);
    if fw <= cw && fh <= ch {
      return fw, fh;
    } else if fw * ch >= fh * cw {
      return cw, Max(fh * cw / fw, 1);
    } else {
      return Max(fw * ch / fh, 1), ch;
    }
  }

  /** A row of an unscaled-width box is a row of the frame. */
  lemma CopiedRow(shown: Picture, sh: nat, dy: nat, sy: nat)
    requires shown.Valid() && shown.width > 0 && shown.height > 0 && dy < sh
    requires sy == dy * shown.height / sh < shown.height
    ensures 0 <= sy * shown.width && sy * shown.width + shown.width <= |shown.px|
    ensures 0 <= dy * shown.width && dy * shown.width + shown.width <= shown.width * sh
    ensures Box(shown, shown.width, sh)[dy * shown.width..dy * shown.width + shown.width]
         == shown.px[sy * shown.width..sy * shown.width + shown.width]
  {
    hide Box, Sample;
    var w: nat := shown.width;
    RunInside(w, shown.height, 0, sy, w);
    RunInside(w, sh, 0, dy, w);
    var boxRow := Box(shown, w, sh)[dy * w..dy * w + w];
    var frameRow := shown.px[sy * w..sy * w + w];
    forall c | 0 <= c < w ensures boxRow[c] == frameRow[c] {
      CopiedCell(shown, sh, c, dy, sy);
    }
  }

  lemma CopiedCell(shown: Picture, sh: nat, c: nat, dy: nat, sy: nat)
    requires shown.Valid() && c < shown.width && dy < sh && sy == dy * shown.height / sh < shown.height
    ensures 0 <= dy * shown.width + c < |Box(shown, shown.width, sh)| && 0 <= sy * shown.width + c < |shown.px|
    ensures Box(shown, shown.width, sh)[dy * shown.width + c] == shown.px[sy * shown.width + c]
  {
    hide Box;
    BoxAt(shown, shown.width, sh, c, dy);
    DivModUnique(c * shown.width, shown.width, c, 0);
    IndexInside(shown.width, shown.height, c, sy);
  }

  /** `w` pixels from one buffer to another. */
  method CopyCells(src: array<byte>, from: nat, dst: array<byte>, at: nat, w: nat)
    requires src != dst && src.Length % 4 == 0 && dst.Length % 4 == 0
    requires 4 * (from + w) <= src.Length && 4 * (at + w) <= dst.Length
    modifies dst
    ensures Cells(dst[..]) == Splice(old(Cells(dst[..])), at, Cells(src[..])[from..from + w])
  {
    hide Cells, Splice;
    ghost var piece := src[..][4 * from..4 * (from + w)];
    assert src[4 * from..4 * (from + w)] == piece;
    CellsSlice(src[..], from, from + w);
    CellsSplice(dst[..], at, piece);
    CopyFromSlice(dst, 4 * at, src[4 * from..4 * (from + w)]);
  }

  /** The fast path: a whole row of the frame at once. */
  method CopyRow(frame: Raster, out: array<byte>, cw: nat, ch: nat, x: nat, at: nat, sh: nat, dy: nat)
    requires frame.Valid() && frame.width > 0 && frame.height > 0 && dy < sh && frame.rgba != out
    requires cw * ch >= 0 && out.Length == 4 * (cw * ch) && x + frame.width <= cw && at < ch
    modifies out
    ensures 0 <= at * cw + x && at * cw + x + frame.width <= cw * ch
    ensures 0 <= dy * frame.width && dy * frame.width + frame.width <= frame.width * sh
    ensures Cells(out[..]) == Splice(old(Cells(out[..])), at * cw + x,
              Box(frame.Shown(), frame.width, sh)[dy * frame.width..dy * frame.width + frame.width])
  {
    hide Box, Cells, Splice;
    var w: nat := frame.width;
    RunInside(cw, ch, x, at, w);
    SampleInside(dy, frame.height, sh);
    var sy := dy * frame.height / sh;
    CopiedRow(frame.Shown(), sh, dy, sy);
    var src, dst := sy * w, at * cw + x;
    CopyCells(frame.rgba, src, out, dst, w);
  }

  /** The slow path: each pixel of the row on its own. */
  method SampleRow(frame: Raster, out: array<byte>, cw: nat, ch: nat, x: nat, at: nat, sw: nat, sh: nat, dy: nat)
    requires frame.Valid() && frame.width > 0 && frame.height > 0 && dy < sh && frame.rgba != out
    requires cw * ch >= 0 && out.Length == 4 * (cw * ch) && x + sw <= cw && at < ch
    modifies out
    ensures 0 <= at * cw + x && at * cw + x + sw <= cw * ch
    ensures 0 <= dy * sw && dy * sw + sw <= sw * sh
    ensures Cells(out[..])
        == Splice(old(Cells(out[..])), at * cw + x, Box(frame.Shown(), sw, sh)[dy * sw..dy * sw + sw])
  {
    hide Box, Cells, Splice, Sample;
    RunInside(cw, ch, x, at, sw);
    RunInside(sw, sh, 0, dy, sw);
    var fw: nat, fh: nat := frame.width, frame.height;
    var dst := at * cw + x;
    ghost var was := Cells(out[..]);
    ghost var shown := frame.Shown();
    ghost var row := Box(shown, sw, sh)[dy * sw..dy * sw + sw];
    ghost var n := cw * ch;
    SpliceNone(was, dst, row);
    for dx := 0 to sw
      invariant out.Length == 4 * n
      invariant Cells(out[..]) == Splice(was, dst, row[..dx])
    {
      SampleInside(dx, fw, sw);
      SampleInside(dy, fh, sh);
      var src := dy * fh / sh * fw + dx * fw / sw;
      IndexInside(fw, fh, dx * fw / sw, dy * fh / sh);
      BoxAt(shown, sw, sh, dx, dy);
      SampledCell(shown, sw, sh, dx, dy, src);
      assert row[dx] == shown.px[src];
      OneCell(shown.px, src);
      SpliceNext(was, dst, row, dx);
      CopyCells(frame.rgba, src, out, dst + dx, 1);
    }
    assert row[..sw] == row;
  }

  lemma SampledCell(shown: Picture, sw: nat, sh: nat, dx: nat, dy: nat, src: nat)
    requires shown.Valid() && shown.width > 0 && shown.height > 0 && dx < sw && dy < sh
    requires src == dy * shown.height / sh * shown.width + dx * shown.width / sw
    ensures src < |shown.px| && Sample(shown, sw, sh, dx, dy) == shown.px[src]
  {
    SampleInside(dx, shown.width, sw);
    SampleInside(dy, shown.height, sh);
    IndexInside(shown.width, shown.height, dx * shown.width / sw, dy * shown.height / sh);
  }

  lemma OneCell(px: seq<Rgba>, i: nat)
    requires i < |px|
    ensures px[i..i + 1] == [px[i]]
  {
  }
}
