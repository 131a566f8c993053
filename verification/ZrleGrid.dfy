/** Which tiles a rect is cut into: the cells of a grid of 64 by 64, row by row, the last ones in each
    direction as small as what is left. */
module ZrleGrid {
  import opened Bytes
  import opened Pictures
  import opened PixelFormats
  import E = ZrleEncode

  /** How many tiles cover a side. */
  function Across(side: nat): nat {
    (side + 63) / 64
  }

  /** The side of the tile at `at`. */
  function Side(side: nat, at: nat): nat
    requires 64 * at < side
  {
    if side - 64 * at < 64 then side - 64 * at else 64
  }

  lemma AcrossIs(side: nat, at: nat)
    ensures at < Across(side) <==> 64 * at < side
    ensures at + 1 == Across(side) <==> 64 * at < side <= 64 * at + 64
  {
  }

  /** The bytes of the tile in column `c` of row `r` of a rect's grid. */
  function CellBytes(code: (nat, nat, nat, nat) -> seq<byte>, x: nat, y: nat, w: nat, h: nat, c: nat, r: nat): seq<byte>
    requires 64 * c < w && 64 * r < h
  {
    code(x + 64 * c, y + 64 * r, Side(w, c), Side(h, r))
  }

  /** The cells of row `r` from column `c` on. */
  function RowBytes(code: (nat, nat, nat, nat) -> seq<byte>, x: nat, y: nat, w: nat, h: nat, c: nat, r: nat): seq<byte>
    requires 64 * r < h
    decreases Across(w) - c
  {
    if c >= Across(w) then []
    else
      AcrossIs(w, c);
      CellBytes(code, x, y, w, h, c, r) + RowBytes(code, x, y, w, h, c + 1, r)
  }

  /** The rows from `r` on. */
  function GridBytes(code: (nat, nat, nat, nat) -> seq<byte>, x: nat, y: nat, w: nat, h: nat, r: nat): seq<byte>
    decreases Across(h) - r
  {
    if r >= Across(h) then []
    else
      AcrossIs(h, r);
      RowBytes(code, x, y, w, h, 0, r) + GridBytes(code, x, y, w, h, r + 1)
  }

  /** How far the walk has got when it stands before column `c`. */
  function Reached(side: nat, c: nat): nat {
    if 64 * c < side then 64 * c else side
  }

  /** The walk writes the tile it stands at and moves on one column. */
  lemma NextTile(code: (nat, nat, nat, nat) -> seq<byte>, x: nat, y: nat, w: nat, h: nat, c: nat, r: nat)
    requires 64 * c < w && 64 * r < h
    ensures E.TilesFrom(code, x, x + w, y + h, x + 64 * c, y + 64 * r)
         == CellBytes(code, x, y, w, h, c, r) + E.TilesFrom(code, x, x + w, y + h, x + Reached(w, c + 1), y + 64 * r)
  {
    var tx, ty := x + 64 * c, y + 64 * r;
    assert Min(E.TILE, x + w - tx) == Side(w, c) && Min(E.TILE, y + h - ty) == Side(h, r);
    assert tx + Side(w, c) == x + Reached(w, c + 1);
  }

  /** Past its last column it starts the next row, or is done. */
  lemma NextRow(code: (nat, nat, nat, nat) -> seq<byte>, x: nat, y: nat, w: nat, h: nat, r: nat)
    requires 64 * r < h
    ensures E.TilesFrom(code, x, x + w, y + h, x + w, y + 64 * r)
         == if 64 * (r + 1) < h then E.TilesFrom(code, x, x + w, y + h, x, y + 64 * (r + 1)) else []
  {
  }

  /** The rest of a row's walk writes the row's tiles. */
  lemma {:induction false} WalkIsRow(code: (nat, nat, nat, nat) -> seq<byte>, x: nat, y: nat, w: nat, h: nat, c: nat,
      r: nat)
    requires c <= Across(w) && 64 * r < h
    ensures E.TilesFrom(code, x, x + w, y + h, x + Reached(w, c), y + 64 * r)
         == RowBytes(code, x, y, w, h, c, r) + E.TilesFrom(code, x, x + w, y + h, x + w, y + 64 * r)
    decreases Across(w) - c
  {
    AcrossIs(w, c);
    AcrossIs(w, c + 1);
    if c == Across(w) {
      hide E.TilesFrom;
      assert [] + E.TilesFrom(code, x, x + w, y + h, x + w, y + 64 * r)
          == E.TilesFrom(code, x, x + w, y + h, x + w, y + 64 * r);
    } else {
      NextTile(code, x, y, w, h, c, r);
      assert Reached(w, c) == 64 * c;
      hide E.TilesFrom, CellBytes, Across, Reached;
      WalkIsRow(code, x, y, w, h, c + 1, r);
      Regroup(CellBytes(code, x, y, w, h, c, r), RowBytes(code, x, y, w, h, c + 1, r),
              E.TilesFrom(code, x, x + w, y + h, x + w, y + 64 * r));
    }
  }

  lemma {:induction false} WalkIsGrid(code: (nat, nat, nat, nat) -> seq<byte>, x: nat, y: nat, w: nat, h: nat, r: nat)
    requires 64 * r < h
    ensures E.TilesFrom(code, x, x + w, y + h, x, y + 64 * r) == GridBytes(code, x, y, w, h, r)
    decreases h - 64 * r
  {
    AcrossIs(h, r);
    AcrossIs(h, r + 1);
    WalkIsRow(code, x, y, w, h, 0, r);
    NextRow(code, x, y, w, h, r);
    hide E.TilesFrom, RowBytes;
    if 64 * (r + 1) < h { WalkIsGrid(code, x, y, w, h, r + 1); }
  }

  /** A rect's tile stream is its grid's tiles, whatever the rect, the picture, the tiling and the format. */
  lemma TilesAreTheGrid(pic: Picture, x: nat, y: nat, w: nat, h: nat, tiling: E.Tiling, fmt: Format)
    requires pic.Valid()
    ensures E.RectTiles(pic, x, y, w, h, tiling, fmt) == GridBytes(E.Coder(pic, tiling, fmt), x, y, w, h, 0)
  {
    CodeIsGrid(E.Coder(pic, tiling, fmt), x, y, w, h);
    hide E.Coder, GridBytes, E.TilesFrom;
  }

  lemma CodeIsGrid(code: (nat, nat, nat, nat) -> seq<byte>, x: nat, y: nat, w: nat, h: nat)
    ensures E.TilesFrom(code, x, x + w, y + h, x, y) == GridBytes(code, x, y, w, h, 0)
  {
    AcrossIs(h, 0);
    if h > 0 {
      WalkIsGrid(code, x, y, w, h, 0);
      hide E.TilesFrom, RowBytes;
    }
  }
}
