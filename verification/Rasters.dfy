/** A mutable picture: the three fields the client's framebuffer and the server's screen share. */
module Rasters {
  import opened Bytes
  import opened PixelFormats
  import opened Grid
  import opened Pictures

  class Raster {
    var width: u16
    var height: u16
    /** Read as pixels by `Grid.Cells`. */
    var rgba: array<byte>

    ghost predicate Valid()
      reads this
    {
      width * height >= 0 && rgba.Length == 4 * (width * height)
    }

    /** What the raster shows. */
    ghost function Shown(): (p: Picture)
      reads this, rgba
      requires Valid()
      ensures p.Valid()
    {
      Picture(width, height, Cells(rgba[..]))
    }

    constructor Filled(width: u16, height: u16, c: Rgba)
      ensures Valid() && fresh(rgba) && Shown() == Solid(width, height, c)
    {
      MulMono(0, height, width);
      this.width := width;
      this.height := height;
      var data := FilledBytes(width * height, c);
      this.rgba := data;
    }

    /** `pixel`, against `Picture.Pixel`. */
    method Pixel(x: u16, y: u16) returns (p: Option<Rgba>)
      requires Valid()
      ensures p == Shown().Pixel(x, y)
    {
      if x >= width || y >= height {
        return None;
      }
      IndexInside(width, height, x, y);
      var i := (y * width + x) * 4;
      assert Shown().px[y * width + x] == Cell(rgba[..], y * width + x);
      p := Some(Rgba(rgba[i], rgba[i + 1], rgba[i + 2], rgba[i + 3]));
    }

    /** The pixel the encoders see at `(x + col, y + row)`, saturating like the source. */
    method Seen(x: u16, col: u16, y: u16, row: u16) returns (c: Rgba)
      requires Valid()
      ensures c == Shown().Seen(x + col, y + row)
    {
      SaturatedIsSeen(Shown(), x, col, y, row);
      var p := Pixel(SaturatingAdd(x, col), SaturatingAdd(y, row));
      c := match p case Some(rgba) => rgba case None => BLACK;
    }
  }

  method FilledBytes(n: nat, c: Rgba) returns (a: array<byte>)
    ensures fresh(a) && a.Length == 4 * n && Cells(a[..]) == Fill(c, n)
  {
    a := new byte[4 * n](_ => 0);
    for i := 0 to n
      invariant forall k :: 0 <= k < i ==> Cells(a[..])[k] == c
    {
      CellsSplice(a[..], i, RgbaBytes(c));
      CellsOne(c);
      CopyFromSlice(a, 4 * i, RgbaBytes(c));
    }
    assert Cells(a[..]) == Fill(c, n);
  }
}
