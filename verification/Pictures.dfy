/** A rectangle of pixels as a value: what a screen or a framebuffer shows. */
module Pictures {
  import opened Bytes
  import opened PixelFormats
  import opened Grid

  /** `width * height` pixels, row-major. */
  datatype Picture = Picture(width: u16, height: u16, px: seq<Rgba>)
  {
    predicate Valid() {
      |px| == width * height
    }

    /** What a lookup answers; outside the picture it answers nothing. */
    function Pixel(x: nat, y: nat): Option<Rgba>
      requires Valid()
    {
      if x >= width || y >= height then None else Some(At(px, width, height, x, y))
    }

    /** What the encoders see at `(x, y)`: off the picture is black. */
    function Seen(x: nat, y: nat): Rgba
      requires Valid()
    {
      match Pixel(x, y) case Some(c) => c case None => BLACK
    }
  }

  /** Rust's `u16::saturating_add`. */
  function SaturatingAdd(a: u16, b: u16): u16 {
    Min(a + b, 0xFFFF)
  }

  /** Saturating a coordinate does not change what is seen there. */
  lemma SaturatedIsSeen(p: Picture, x: u16, col: u16, y: u16, row: u16)
    requires p.Valid()
    ensures p.Seen(SaturatingAdd(x, col), SaturatingAdd(y, row)) == p.Seen(x + col, y + row)
  {
  }

  function Fill<T>(c: T, n: nat): (s: seq<T>)
    ensures |s| == n && forall i :: 0 <= i < n ==> s[i] == c
  {
    seq(n, _ => c)
  }

  /** A picture of one colour. */
  function Solid(width: u16, height: u16, c: Rgba): (p: Picture)
    ensures p.Valid()
  {
    MulMono(0, height, width);
    Picture(width, height, Fill(c, width * height))
  }

  /** The same size and, pixel for pixel, the same red, green and blue. */
  predicate SameRgbPicture(p: Picture, q: Picture) {
    && p.width == q.width && p.height == q.height && |p.px| == |q.px|
    && forall i :: 0 <= i < |p.px| ==> SameRgb(p.px[i], q.px[i])
  }
}
