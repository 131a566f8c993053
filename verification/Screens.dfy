/** The fake server's screen: painting rectangles and moving regions one pixel at a time. */
module Screens {
  import opened Bytes
  import opened PixelFormats
  import opened Grid
  import opened Pictures
  import opened Rasters
  import opened Reads
  import opened Framebuffers

  // ---------------------------------------------------------------- what the operations mean

  function FilledAt(p: Picture, x: nat, y: nat, x1: nat, y1: nat, c: Rgba, px: nat, py: nat): Rgba
    requires p.Valid() && px < p.width && py < p.height
  {
    if x <= px < x1 && y <= py < y1 then c else At(p.px, p.width, p.height, px, py)
  }

  /** A pixel after a region has been moved: off-screen sources are black. */
  function BlittedAt(p: Picture, srcX: nat, srcY: nat, dstX: nat, dstY: nat, w: nat, h: nat, px: nat, py: nat): Rgba
    requires p.Valid() && px < p.width && py < p.height
  {
    if dstX <= px < dstX + w && dstY <= py < dstY + h then p.Seen(srcX + (px - dstX), srcY + (py - dstY))
    else At(p.px, p.width, p.height, px, py)
  }

  /** The screen after `blit`. */
  function Blitted(p: Picture, srcX: nat, srcY: nat, dstX: nat, dstY: nat, w: nat, h: nat): (q: Picture)
    requires p.Valid()
    ensures q.Valid()
  {
    p.(px := seq(|p.px|, k requires 0 <= k < |p.px| =>
      CellOf(p.width, p.height, k);
      BlittedAt(p, srcX, srcY, dstX, dstY, w, h, k % p.width, k / p.width)))
  }

  lemma BlittedCell(p: Picture, srcX: nat, srcY: nat, dstX: nat, dstY: nat, w: nat, h: nat, px: nat, py: nat)
    requires p.Valid() && px < p.width && py < p.height
    ensures At(Blitted(p, srcX, srcY, dstX, dstY, w, h).px, p.width, p.height, px, py)
         == BlittedAt(p, srcX, srcY, dstX, dstY, w, h, px, py)
  {
    IndexInside(p.width, p.height, px, py);
    DivModUnique(py * p.width + px, p.width, py, px);
  }

  /** Wherever a blit reaches it shows what was at the place's source before, and black where that is off the
      screen; everything else stays. */
  lemma BlittedPixel(p: Picture, srcX: nat, srcY: nat, dstX: nat, dstY: nat, w: nat, h: nat, x: nat, y: nat)
    requires p.Valid() && x < p.width && y < p.height
    ensures Blitted(p, srcX, srcY, dstX, dstY, w, h).Pixel(x, y)
         == if !(dstX <= x < dstX + w && dstY <= y < dstY + h) then p.Pixel(x, y)
            else match p.Pixel(srcX + x - dstX, srcY + y - dstY)
                 case Some(c) => Some(c)
                 case None => Some(Rgba(0, 0, 0, 255))
  {
    BlittedSize(p, srcX, srcY, dstX, dstY, w, h);
    BlittedCell(p, srcX, srcY, dstX, dstY, w, h, x, y);
    hide Blitted, At;
  }

  /** So a snapshot is the region's pixels row by row, black where it is off the screen. */
  lemma SnapshotPixel(p: Picture, x: nat, y: nat, w: nat, h: nat, c: nat, r: nat)
    requires p.Valid() && c < w && r < h
    ensures |SeenRect(p, x, y, w, h)| == w * h && 0 <= r * w + c < w * h
    ensures SeenRect(p, x, y, w, h)[r * w + c]
         == match p.Pixel(x + c, y + r) case Some(seen) => seen case None => Rgba(0, 0, 0, 255)
  {
    SeenRectAt(p, x, y, w, h, c, r);
  }

  /** The server's pixel-at-a-time blit and the client's row copy agree on every in-bounds move. */
  lemma BlitAgreesWithMove(p: Picture, srcX: u16, srcY: u16, dstX: u16, dstY: u16, w: u16, h: u16)
    requires p.Valid() && InBounds(p, dstX, dstY, w, h) && InBounds(p, srcX, srcY, w, h)
    ensures Move(p, dstX, dstY, w, h, srcX, srcY) == Ok(Blitted(p, srcX, srcY, dstX, dstY, w, h))
  {
    hide Blitted, At, Move;
    BlittedSize(p, srcX, srcY, dstX, dstY, w, h);
    var moved := Move(p, dstX, dstY, w, h, srcX, srcY).value;
    var blitted := Blitted(p, srcX, srcY, dstX, dstY, w, h);
    forall x, y | 0 <= x < p.width && 0 <= y < p.height
      ensures At(moved.px, p.width, p.height, x, y) == At(blitted.px, p.width, p.height, x, y)
    {
      MoveIsSimultaneous(p, dstX, dstY, w, h, srcX, srcY, x, y);
      BlittedCell(p, srcX, srcY, dstX, dstY, w, h, x, y);
    }
    SameCells(moved.px, blitted.px, p.width, p.height);
    MoveSize(p, dstX, dstY, w, h, srcX, srcY);
  }

  lemma MoveSize(p: Picture, x: u16, y: u16, w: u16, h: u16, srcX: u16, srcY: u16)
    requires p.Valid() && InBounds(p, x, y, w, h) && InBounds(p, srcX, srcY, w, h)
    ensures Move(p, x, y, w, h, srcX, srcY).value == p.(px := Move(p, x, y, w, h, srcX, srcY).value.px)
  {
  }

  lemma BlittedSize(p: Picture, srcX: nat, srcY: nat, dstX: nat, dstY: nat, w: nat, h: nat)
    requires p.Valid()
    ensures Blitted(p, srcX, srcY, dstX, dstY, w, h) == p.(px := Blitted(p, srcX, srcY, dstX, dstY, w, h).px)
  {
  }

  // ---------------------------------------------------------------- the loops

  /** One pixel of the raster. */
  method SetPixel(screen: Raster, x: nat, y: nat, c: Rgba)
    requires screen.Valid() && x < screen.width && y < screen.height
    modifies screen.rgba
    ensures screen.Valid() && screen.rgba == old(screen.rgba)
    ensures forall px, py :: 0 <= px < screen.width && 0 <= py < screen.height ==>
              At(screen.Shown().px, screen.width, screen.height, px, py)
              == if px == x && py == y then c else At(old(screen.Shown().px), screen.width, screen.height, px, py)
  {
    hide Cells;
    IndexInside(screen.width, screen.height, x, y);
    var i := y * screen.width + x;
    ghost var was := screen.Shown().px;
    CellsSplice(screen.rgba[..], i, RgbaBytes(c));
    CellsOne(c);
    CopyFromSlice(screen.rgba, 4 * i, RgbaBytes(c));
    forall px, py | 0 <= px < screen.width && 0 <= py < screen.height
      ensures At(screen.Shown().px, screen.width, screen.height, px, py)
           == if px == x && py == y then c else At(was, screen.width, screen.height, px, py)
    {
      IndexInside(screen.width, screen.height, px, py);
      RowOf(screen.width, px, py, x, 1, y);
    }
  }

  /** `fill_rect`, clipped to the screen. */
  method FillRect(screen: Raster, x: u16, y: u16, width: u16, height: u16, c: Rgba)
    requires screen.Valid()
    modifies screen.rgba
    ensures screen.Valid() && screen.rgba == old(screen.rgba)
    ensures forall px, py :: 0 <= px < screen.width && 0 <= py < screen.height ==>
              At(screen.Shown().px, screen.width, screen.height, px, py)
              == FilledAt(old(screen.Shown()), x, y, x + width, y + height, c, px, py)
  {
    hide At;
    ghost var was := screen.Shown();
    var x1, y1 := Min(SaturatingAdd(x, width), screen.width), Min(SaturatingAdd(y, height), screen.height);
    var row: nat := y;
    while row < y1
      invariant screen.Valid() && screen.rgba == old(screen.rgba) && y <= row
      invariant forall px, py :: 0 <= px < screen.width && 0 <= py < screen.height ==>
                  At(screen.Shown().px, screen.width, screen.height, px, py)
                      == FilledAt(was, x, y, x1, Min(row, y1), c, px, py)
    {
      var col: nat := x;
      while col < x1
        invariant screen.Valid() && screen.rgba == old(screen.rgba) && x <= col
        invariant forall px, py :: 0 <= px < screen.width && 0 <= py < screen.height ==>
                    At(screen.Shown().px, screen.width, screen.height, px, py)
                    == if py == row && x <= px < Min(col, x1) then c else FilledAt(was, x, y, x1, row, c, px, py)
      {
        SetPixel(screen, col, row, c);
        col := col + 1;
      }
      row := row + 1;
    }
  }

  /** A rect of the screen as the encoders see it, row-major. */
  function SeenRect(p: Picture, x: nat, y: nat, w: nat, h: nat): (px: seq<Rgba>)
    requires p.Valid()
    ensures |px| == w * h
  {
    MulMono(0, h, w);
    seq(w * h, k requires 0 <= k < w * h => CellOf(w, h, k); p.Seen(x + k % w, y + k / w))
  }

  lemma SeenRectAt(p: Picture, x: nat, y: nat, w: nat, h: nat, c: nat, r: nat)
    requires p.Valid() && c < w && r < h
    ensures 0 <= r * w + c < w * h && SeenRect(p, x, y, w, h)[r * w + c] == p.Seen(x + c, y + r)
  {
    IndexInside(w, h, c, r);
    DivModUnique(r * w + c, w, r, c);
  }

  /** The first loop of `blit`: a snapshot of the source, black where it is off the screen. */
  method Snapshot(screen: Raster, x: u16, y: u16, w: u16, h: u16) returns (taken: seq<Rgba>)
    requires screen.Valid()
    ensures taken == SeenRect(screen.Shown(), x, y, w, h)
  {
    hide SeenRect;
    ghost var p := screen.Shown();
    ghost var all := SeenRect(p, x, y, w, h);
    taken := [];
    for row := 0 to h
      invariant 0 <= row * w <= |all| && taken == all[..row * w]
    {
      MulMono(row + 1, h, w);
      for col := 0 to w
        invariant 0 <= row * w + col <= |all| && taken == all[..row * w + col]
      {
        SeenRectAt(p, x, y, w, h, col, row);
        var rgba := screen.Seen(x, col, y, row);
        taken := taken + [rgba];
      }
      assert (row + 1) * w == row * w + w;
    }
  }

  /** Cells a row-major walk has reached when it stands at `(col, row)`. */
  predicate Walked(c: int, r: int, w: nat, col: nat, row: nat) {
    0 <= c < w && (0 <= r < row || (r == row && c < col))
  }

  /** The pixel a walk over the destination leaves behind. */
  ghost function WalkedAt(p: Picture, srcX: nat, srcY: nat, dstX: nat, dstY: nat, w: nat, col: nat, row: nat,
      px: nat, py: nat): Rgba
    requires p.Valid() && px < p.width && py < p.height
  {
    if Walked(px - dstX, py - dstY, w, col, row) then p.Seen(srcX + (px - dstX), srcY + (py - dstY))
    else At(p.px, p.width, p.height, px, py)
  }

  /** A picture of the same size as another. */
  predicate SameSize(p: Picture, q: Picture) {
    p.Valid() && q.Valid() && p.width == q.width && p.height == q.height
  }

  /** `now` is `was` with one pixel painted, if that pixel is on the screen. */
  ghost predicate OnePainted(was: Picture, now: Picture, x: nat, y: nat, c: Rgba) {
    SameSize(was, now) &&
    forall px, py :: 0 <= px < was.width && 0 <= py < was.height ==>
      At(now.px, now.width, now.height, px, py) == if px == x && py == y then c
          else At(was.px, was.width, was.height, px, py)
  }

  /** `now` is `was` after a walk over the destination has reached `(col, row)`. */
  ghost predicate WalkShown(was: Picture, now: Picture, srcX: nat, srcY: nat, dstX: nat, dstY: nat, w: nat, col: nat,
      row: nat) {
    SameSize(was, now) &&
    forall px, py :: 0 <= px < was.width && 0 <= py < was.height ==>
      At(now.px, now.width, now.height, px, py) == WalkedAt(was, srcX, srcY, dstX, dstY, w, col, row, px, py)
  }

  lemma WalkStarts(was: Picture, srcX: nat, srcY: nat, dstX: nat, dstY: nat, w: nat)
    requires was.Valid()
    ensures WalkShown(was, was, srcX, srcY, dstX, dstY, w, 0, 0)
  {
  }

  lemma WalkSteps(was: Picture, now: Picture, next: Picture, srcX: nat, srcY: nat, dstX: nat, dstY: nat, w: nat,
      col: nat, row: nat)
    requires WalkShown(was, now, srcX, srcY, dstX, dstY, w, col, row) && col < w
    requires OnePainted(now, next, dstX + col, dstY + row, was.Seen(srcX + col, srcY + row))
    ensures WalkShown(was, next, srcX, srcY, dstX, dstY, w, col + 1, row)
  {
    hide At;
  }

  lemma WalkTurns(was: Picture, now: Picture, srcX: nat, srcY: nat, dstX: nat, dstY: nat, w: nat, row: nat)
    requires WalkShown(was, now, srcX, srcY, dstX, dstY, w, w, row)
    ensures WalkShown(was, now, srcX, srcY, dstX, dstY, w, 0, row + 1)
  {
    hide At;
  }

  lemma WalkEnds(was: Picture, now: Picture, srcX: nat, srcY: nat, dstX: nat, dstY: nat, w: nat, h: nat)
    requires WalkShown(was, now, srcX, srcY, dstX, dstY, w, 0, h)
    ensures now == Blitted(was, srcX, srcY, dstX, dstY, w, h)
  {
    hide At, Blitted;
    BlittedSize(was, srcX, srcY, dstX, dstY, w, h);
    forall x, y | 0 <= x < was.width && 0 <= y < was.height
      ensures At(now.px, was.width, was.height, x, y)
           == At(Blitted(was, srcX, srcY, dstX, dstY, w, h).px, was.width, was.height, x, y)
    {
      BlittedCell(was, srcX, srcY, dstX, dstY, w, h, x, y);
    }
    SameCells(now.px, Blitted(was, srcX, srcY, dstX, dstY, w, h).px, was.width, was.height);
  }

  /** One `fill_rect` of a single saturated pixel. */
  method PaintOne(screen: Raster, dstX: u16, col: u16, dstY: u16, row: u16, c: Rgba)
    requires screen.Valid()
    modifies screen.rgba
    ensures screen.Valid() && screen.rgba == old(screen.rgba)
    ensures OnePainted(old(screen.Shown()), screen.Shown(), dstX + col, dstY + row, c)
  {
    hide At, Cells;
    FillRect(screen, SaturatingAdd(dstX, col), SaturatingAdd(dstY, row), 1, 1, c);
  }

  /** `blit`: take a snapshot, then paint it pixel by pixel. */
  method Blit(screen: Raster, srcX: u16, srcY: u16, dstX: u16, dstY: u16, w: u16, h: u16)
    requires screen.Valid()
    modifies screen.rgba
    ensures screen.Valid() && screen.rgba == old(screen.rgba)
    ensures screen.Shown() == Blitted(old(screen.Shown()), srcX, srcY, dstX, dstY, w, h)
  {
    hide Blitted, Cells, SeenRect, WalkShown, OnePainted;
    ghost var was := screen.Shown();
    var taken := Snapshot(screen, srcX, srcY, w, h);
    WalkStarts(was, srcX, srcY, dstX, dstY, w);
    for row := 0 to h
      invariant screen.Valid() && screen.rgba == old(screen.rgba)
      invariant WalkShown(was, screen.Shown(), srcX, srcY, dstX, dstY, w, 0, row)
    {
      for col := 0 to w
        invariant screen.Valid() && screen.rgba == old(screen.rgba)
        invariant WalkShown(was, screen.Shown(), srcX, srcY, dstX, dstY, w, col, row)
      {
        SeenRectAt(was, srcX, srcY, w, h, col, row);
        ghost var now := screen.Shown();
        PaintOne(screen, dstX, col, dstY, row, taken[row * w + col]);
        WalkSteps(was, now, screen.Shown(), srcX, srcY, dstX, dstY, w, col, row);
      }
      WalkTurns(was, screen.Shown(), srcX, srcY, dstX, dstY, w, row);
    }
    WalkEnds(was, screen.Shown(), srcX, srcY, dstX, dstY, w, h);
  }
}
