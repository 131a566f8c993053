/** Row-major pixel buffers: rectangles moved row by row, and bytes seen four at a time. */
module Grid {
  import opened Bytes
  import opened PixelFormats

  // ---------------------------------------------------------------- row-major indices

  lemma Commute(a: nat, b: nat)
    ensures a * b == b * a
  {
  }

  lemma IndexInside(w: int, h: int, x: int, y: int)
    requires 0 <= x < w && 0 <= y < h
    ensures 0 <= y * w + x < w * h
  {
    MulMono(0, y, w);
    MulMono(y + 1, h, w);
  }

  /** A run of `n` cells inside row `y`. */
  lemma RunInside(w: int, h: int, x: int, y: int, n: int)
    requires 0 <= x && 0 <= n && x + n <= w && 0 <= y < h
    ensures 0 <= y * w + x <= y * w + x + n <= w * h
  {
    MulMono(0, y, w);
    MulMono(y + 1, h, w);
  }

  /** An index lies in a run of row `r` only if it is a cell of row `r`. */
  lemma RowOf(w: int, px: int, py: int, x: int, n: int, r: int)
    requires 0 <= px < w && 0 <= x && x + n <= w
    ensures r * w + x <= py * w + px < r * w + x + n <==> (py == r && x <= px < x + n)
  {
    if py < r { MulMono(py + 1, r, w); } else if py > r { MulMono(r + 1, py, w); }
  }

  function At<T>(s: seq<T>, w: nat, h: nat, x: nat, y: nat): T
    requires |s| == w * h && x < w && y < h
  {
    IndexInside(w, h, x, y);
    s[y * w + x]
  }

  /** Two buffers that agree cell by cell are the same. */
  lemma SameCells<T>(a: seq<T>, b: seq<T>, w: nat, h: nat)
    requires |a| == w * h && |b| == w * h
    requires forall x, y :: 0 <= x < w && 0 <= y < h ==> At(a, w, h, x, y) == At(b, w, h, x, y)
    ensures a == b
  {
    forall k | 0 <= k < |a| ensures a[k] == b[k] {
      CellOf(w, h, k);
      assert At(a, w, h, k % w, k / w) == At(b, w, h, k % w, k / w);
    }
  }

  lemma CellOf(w: nat, h: nat, k: nat)
    requires k < w * h
    ensures w > 0 && 0 <= k % w < w && 0 <= k / w < h && (k / w) * w + k % w == k
  {
    if w > 0 {
      DivMod(k, w);
      if k / w >= h { MulMono(h, k / w, w); }
      if k / w < 0 { MulMono(k / w, -1, w); }
    }
  }

  // ---------------------------------------------------------------- copying a slice into a buffer

  /** `dst[at..at + src.len()].copy_from_slice(src)`. */
  function Splice<T>(dst: seq<T>, at: nat, src: seq<T>): (r: seq<T>)
    requires at + |src| <= |dst|
    ensures |r| == |dst|
  {
    dst[..at] + src + dst[at + |src|..]
  }

  lemma SpliceNone<T>(dst: seq<T>, at: nat, row: seq<T>)
    requires at <= |dst|
    ensures Splice(dst, at, row[..0]) == dst
  {
  }

  /** One more cell of a row. */
  lemma SpliceNext<T>(dst: seq<T>, at: nat, row: seq<T>, i: nat)
    requires i < |row| && at + |row| <= |dst|
    ensures Splice(dst, at, row[..i + 1]) == Splice(Splice(dst, at, row[..i]), at + i, [row[i]])
  {
  }

  method CopyFromSlice<T>(a: array<T>, at: nat, src: seq<T>)
    requires at + |src| <= a.Length
    modifies a
    ensures a[..] == Splice(old(a[..]), at, src)
  {
    ghost var was := a[..];
    for i := 0 to |src|
      invariant a[..] == Splice(was, at, src[..i])
    {
      a[at + i] := src[i];
      assert src[..i + 1] == src[..i] + [src[i]];
    }
    assert src[..|src|] == src;
  }

  /** The first `rows` rows of a `tw`-wide tile laid into a `w`-by-`h` buffer at `(x, y)`. */
  function Place<T>(dst: seq<T>, w: nat, h: nat, x: nat, y: nat, tile: seq<T>, tw: nat, rows: nat): (r: seq<T>)
    requires |dst| == w * h && x + tw <= w && y + rows <= h && rows * tw <= |tile|
    ensures |r| == w * h
    decreases rows
  {
    if rows == 0 then dst
    else
      TileRow(tw, rows, |tile|);
      RunInside(w, h, x, y + rows - 1, tw);
      Splice(Place(dst, w, h, x, y, tile, tw, rows - 1), (y + rows - 1) * w + x,
             tile[(rows - 1) * tw..rows * tw])
  }

  lemma TileRow(tw: nat, rows: nat, len: nat)
    requires rows > 0 && rows * tw <= len
    ensures 0 <= (rows - 1) * tw && (rows - 1) * tw + tw == rows * tw <= len
  {
    MulMono(0, rows - 1, tw);
  }

  lemma PlaceNone<T>(dst: seq<T>, w: nat, h: nat, x: nat, y: nat, tile: seq<T>, tw: nat)
    requires |dst| == w * h && x + tw <= w && y <= h
    ensures Place(dst, w, h, x, y, tile, tw, 0) == dst
  {
  }

  /** One more row of a tile. */
  lemma PlaceNext<T>(dst: seq<T>, w: nat, h: nat, x: nat, y: nat, tile: seq<T>, tw: nat, row: nat, rows: nat)
    requires |dst| == w * h && x + tw <= w && y + rows <= h && rows * tw <= |tile| && row < rows
    ensures 0 <= row * tw && row * tw + tw == (row + 1) * tw <= rows * tw
    ensures 0 <= (y + row) * w + x && (y + row) * w + x + tw <= w * h
    ensures Place(dst, w, h, x, y, tile, tw, row + 1)
         == Splice(Place(dst, w, h, x, y, tile, tw, row), (y + row) * w + x, tile[row * tw..row * tw + tw])
  {
    MulMono(row + 1, rows, tw);
    TileRow(tw, row + 1, |tile|);
    RunInside(w, h, x, y + row, tw);
  }

  /** `Place` for a loop that has not yet shown that its next row fits. */
  function Placed<T>(dst: seq<T>, w: nat, h: nat, x: nat, y: nat, tile: seq<T>, tw: nat, rows: nat): seq<T> {
    if |dst| == w * h && x + tw <= w && y + rows <= h && rows * tw <= |tile| then Place(dst, w, h, x, y, tile, tw, rows)
    else dst
  }

  lemma PlacedNone<T>(dst: seq<T>, w: nat, h: nat, x: nat, y: nat, tile: seq<T>, tw: nat)
    ensures Placed(dst, w, h, x, y, tile, tw, 0) == dst
  {
  }

  lemma PlacedNext<T>(dst: seq<T>, w: nat, h: nat, x: nat, y: nat, tile: seq<T>, tw: nat, row: nat, rows: nat)
    requires |dst| == w * h && x + tw <= w && y + rows <= h && rows * tw <= |tile| && row < rows
    ensures 0 <= row * tw && row * tw + tw <= |tile|
    ensures 0 <= (y + row) * w + x && (y + row) * w + x + tw <= |Placed(dst, w, h, x, y, tile, tw, row)| == w * h
    ensures Placed(dst, w, h, x, y, tile, tw, row + 1)
         == Splice(Placed(dst, w, h, x, y, tile, tw, row), (y + row) * w + x, tile[row * tw..row * tw + tw])
  {
    hide Place;
    PlaceNext(dst, w, h, x, y, tile, tw, row, rows);
    MulMono(row, rows, tw);
    MulMono(row + 1, rows, tw);
  }

  lemma PlacedAll<T>(dst: seq<T>, w: nat, h: nat, x: nat, y: nat, tile: seq<T>, tw: nat, rows: nat)
    requires |dst| == w * h && x + tw <= w && y + rows <= h && rows * tw <= |tile|
    ensures Placed(dst, w, h, x, y, tile, tw, rows) == Place(dst, w, h, x, y, tile, tw, rows)
  {
  }

  /** Placing a tile changes exactly the tile's cells. */
  lemma {:induction false} PlaceAt<T>(dst: seq<T>, w: nat, h: nat, x: nat, y: nat, tile: seq<T>, tw: nat, rows: nat,
                                      px: nat, py: nat)
    requires |dst| == w * h && x + tw <= w && y + rows <= h && rows * tw <= |tile|
    requires px < w && py < h
    ensures x <= px < x + tw && y <= py < y + rows ==> 0 <= (py - y) * tw + (px - x) < |tile|
    ensures At(Place(dst, w, h, x, y, tile, tw, rows), w, h, px, py)
         == if x <= px < x + tw && y <= py < y + rows
            then (IndexInside(tw, rows, px - x, py - y); tile[(py - y) * tw + (px - x)])
            else At(dst, w, h, px, py)
    decreases rows
  {
    if rows > 0 {
      TileRow(tw, rows, |tile|);
      RunInside(w, h, x, y + rows - 1, tw);
      PlaceAt(dst, w, h, x, y, tile, tw, rows - 1, px, py);
      RowOf(w, px, py, x, tw, y + rows - 1);
      IndexInside(w, h, px, py);
      if x <= px < x + tw && y <= py < y + rows { IndexInside(tw, rows, px - x, py - y); }
    }
  }

  /** The first `rows` rows of a `tw`-wide region of a buffer, end to end. */
  function Region<T>(src: seq<T>, w: nat, h: nat, x: nat, y: nat, tw: nat, rows: nat): (r: seq<T>)
    requires |src| == w * h && x + tw <= w && y + rows <= h
    ensures |r| == rows * tw
    decreases rows
  {
    if rows == 0 then []
    else
      RunInside(w, h, x, y + rows - 1, tw);
      Region(src, w, h, x, y, tw, rows - 1)
      + src[(y + rows - 1) * w + x..(y + rows - 1) * w + x + tw]
  }

  lemma {:induction false} RegionAt<T>(src: seq<T>, w: nat, h: nat, x: nat, y: nat, tw: nat, rows: nat, c: nat, r: nat)
    requires |src| == w * h && x + tw <= w && y + rows <= h && c < tw && r < rows
    ensures At(Region(src, w, h, x, y, tw, rows), tw, rows, c, r) == At(src, w, h, x + c, y + r)
    decreases rows
  {
    hide Region;
    IndexInside(tw, rows, c, r);
    if r < rows - 1 {
      RegionAt(src, w, h, x, y, tw, rows - 1, c, r);
      IndexInside(tw, rows - 1, c, r);
      RegionHead(src, w, h, x, y, tw, rows, r * tw + c);
    } else {
      RegionLast(src, w, h, x, y, tw, r, c);
    }
  }

  lemma RegionHead<T>(src: seq<T>, w: nat, h: nat, x: nat, y: nat, tw: nat, rows: nat, k: nat)
    requires |src| == w * h && x + tw <= w && y + rows <= h && rows > 0
    requires k < (rows - 1) * tw
    ensures k < |Region(src, w, h, x, y, tw, rows)|
    ensures Region(src, w, h, x, y, tw, rows)[k] == Region(src, w, h, x, y, tw, rows - 1)[k]
  {
    RunInside(w, h, x, y + rows - 1, tw);
    TileRow(tw, rows, rows * tw);
  }

  lemma RegionLast<T>(src: seq<T>, w: nat, h: nat, x: nat, y: nat, tw: nat, r: nat, c: nat)
    requires |src| == w * h && x + tw <= w && y + r < h && c < tw
    ensures 0 <= r * tw + c < |Region(src, w, h, x, y, tw, r + 1)|
    ensures Region(src, w, h, x, y, tw, r + 1)[r * tw + c] == At(src, w, h, x + c, y + r)
  {
    var row := y + r;
    RunInside(w, h, x, row, tw);
    IndexInside(w, h, x + c, row);
    IndexInside(tw, r + 1, c, r);
    var head := Region(src, w, h, x, y, tw, r);
    var tail := src[row * w + x..row * w + x + tw];
    assert Region(src, w, h, x, y, tw, r + 1) == head + tail;
    assert |head| == r * tw;
  }

  // ---------------------------------------------------------------- four bytes a pixel

  function RgbaBytes(c: Rgba): (b: seq<byte>)
    ensures |b| == 4
  {
    [c.r, c.g, c.b, c.a]
  }

  function Cell(b: seq<byte>, i: nat): Rgba
    requires 4 * i + 4 <= |b|
  {
    Rgba(b[4 * i], b[4 * i + 1], b[4 * i + 2], b[4 * i + 3])
  }

  /** A byte buffer read four bytes at a time. */
  function Cells(b: seq<byte>): (px: seq<Rgba>)
    requires |b| % 4 == 0
    ensures |px| == |b| / 4
  {
    seq(|b| / 4, i requires 0 <= i < |b| / 4 => Cell(b, i))
  }

  lemma CellsSplice(b: seq<byte>, d: nat, t: seq<byte>)
    requires |b| % 4 == 0 && |t| % 4 == 0 && 4 * d + |t| <= |b|
    ensures Cells(Splice(b, 4 * d, t)) == Splice(Cells(b), d, Cells(t))
  {
    var r := Splice(b, 4 * d, t);
    var n := |t| / 4;
    forall i | 0 <= i < |b| / 4 ensures Cells(r)[i] == Splice(Cells(b), d, Cells(t))[i] {
      if d <= i < d + n {
        assert Cell(r, i) == Cell(t, i - d);
      } else {
        assert Cell(r, i) == Cell(b, i);
      }
    }
  }

  lemma CellsSlice(b: seq<byte>, i: nat, j: nat)
    requires |b| % 4 == 0 && i <= j && 4 * j <= |b|
    ensures |b[4 * i..4 * j]| % 4 == 0
    ensures Cells(b[4 * i..4 * j]) == Cells(b)[i..j]
  {
    var s := b[4 * i..4 * j];
    assert |s| == 4 * (j - i);
    forall k | 0 <= k < j - i ensures Cells(s)[k] == Cells(b)[i..j][k] {
      assert Cell(s, k) == Cell(b, i + k);
    }
  }

  lemma CellsAppend(b: seq<byte>, t: seq<byte>)
    requires |b| % 4 == 0 && |t| % 4 == 0
    ensures |b + t| % 4 == 0
    ensures Cells(b + t) == Cells(b) + Cells(t)
  {
    forall k | 0 <= k < (|b| + |t|) / 4 ensures Cells(b + t)[k] == (Cells(b) + Cells(t))[k] {
      if k < |b| / 4 {
        assert Cell(b + t, k) == Cell(b, k);
      } else {
        assert Cell(b + t, k) == Cell(t, k - |b| / 4);
      }
    }
  }

  lemma CellsOne(c: Rgba)
    ensures Cells(RgbaBytes(c)) == [c]
  {
  }

  /** Every pixel's alpha is 255. */
  predicate Opaque(px: seq<Rgba>) {
    forall i :: 0 <= i < |px| ==> px[i].a == 255
  }

  lemma {:induction false} PlaceOpaque(dst: seq<Rgba>, w: nat, h: nat, x: nat, y: nat, tile: seq<Rgba>, tw: nat,
      rows: nat)
    requires |dst| == w * h && x + tw <= w && y + rows <= h && rows * tw <= |tile|
    requires Opaque(dst) && Opaque(tile)
    ensures Opaque(Place(dst, w, h, x, y, tile, tw, rows))
    decreases rows
  {
    if rows > 0 {
      TileRow(tw, rows, |tile|);
      RunInside(w, h, x, y + rows - 1, tw);
      PlaceOpaque(dst, w, h, x, y, tile, tw, rows - 1);
    }
  }

  lemma {:induction false} RegionOpaque(src: seq<Rgba>, w: nat, h: nat, x: nat, y: nat, tw: nat, rows: nat)
    requires |src| == w * h && x + tw <= w && y + rows <= h && Opaque(src)
    ensures Opaque(Region(src, w, h, x, y, tw, rows))
    decreases rows
  {
    if rows > 0 {
      RunInside(w, h, x, y + rows - 1, tw);
      RegionOpaque(src, w, h, x, y, tw, rows - 1);
    }
  }
}
