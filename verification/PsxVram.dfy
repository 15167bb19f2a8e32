/** The 1024 x 512 video memory of the PlayStation GPU. All coordinates wrap, and
    bit 15 of a cell is its mask bit. */
module PsxVram {
  import opened Words

  const CELLS := 0x80000

  type Vram = s: seq<Half> | |s| == CELLS witness seq(CELLS, _ => 0)

  /** The mask settings of GP0(E6h). */
  datatype Mask = Mask(setBit: bool, check: bool)

  function CellIndex(x: int, y: int): (i: int)
    ensures 0 <= i < CELLS
  {
    y % 512 * 1024 + x % 1024
  }

  /** What a masked write of `v` leaves in a cell that held `before`. */
  function Masked(before: Half, v: Half, mask: Mask): Half {
    if mask.check && before >= 0x8000 then before
    else v % 0x8000 + (if mask.setBit then 0x8000 else 0)
  }

  function Get(vram: Vram, x: int, y: int): Half {
    vram[CellIndex(x, y)]
  }

  function Put(vram: Vram, x: int, y: int, v: Half): Vram {
    vram[CellIndex(x, y) := v]
  }

  function PutMasked(vram: Vram, x: int, y: int, v: Half, mask: Mask): Vram {
    Put(vram, x, y, Masked(Get(vram, x, y), v, mask))
  }

  // ---- rectangles ----------------------------------------------------------

  /** The column and row of cell `i` inside a rectangle at (x, y), wrapping. */
  function Column(i: int, x: int): (c: int)
    ensures 0 <= c < 1024
  {
    (i % 1024 - x) % 1024
  }

  function Row(i: int, y: int): (r: int)
    ensures 0 <= r < 512
  {
    (i / 1024 - y) % 512
  }

  lemma CellOf(i: int, x: int, y: int)
    requires 0 <= i < CELLS
    ensures CellIndex(x + Column(i, x), y + Row(i, y)) == i
  {
  }

  lemma PlaceOf(x: int, y: int, c: int, r: int)
    requires 0 <= c < 1024 && 0 <= r < 512
    ensures Column(CellIndex(x + c, y + r), x) == c && Row(CellIndex(x + c, y + r), y) == r
  {
  }

  /** All cells of a w x h rectangle at once set to `v`, ignoring the mask. */
  function FillRect(vram: Vram, x: int, y: int, w: int, h: int, v: Half): Vram {
    seq(CELLS, i requires 0 <= i < CELLS => if Column(i, x) < w && Row(i, y) < h then v else vram[i])
  }

  /** The rectangle copy as one simultaneous assignment: every destination cell is
      computed from the video memory as it was before the copy. */
  function CopyRect(vram: Vram, sx: int, sy: int, dx: int, dy: int, w: int, h: int, mask: Mask): Vram {
    seq(CELLS, i requires 0 <= i < CELLS =>
      if Column(i, dx) < w && Row(i, dy) < h
      then Masked(vram[i], Get(vram, sx + Column(i, dx), sy + Row(i, dy)), mask)
      else vram[i])
  }

  /** The first |data| cells, in row order, of a rectangle of width `w` at (x, y)
      written through the mask; every other cell as before. */
  function UploadRect(vram: Vram, x: int, y: int, w: int, data: seq<Half>, mask: Mask): Vram
  {
    seq(CELLS, i requires 0 <= i < CELLS =>
      if Column(i, x) < w && 0 <= Row(i, y) * w + Column(i, x) < |data|
      then Masked(vram[i], data[Row(i, y) * w + Column(i, x)], mask)
      else vram[i])
  }

  lemma UploadNothing(vram: Vram, x: int, y: int, w: int, mask: Mask)
    ensures UploadRect(vram, x, y, w, [], mask) == vram
  {
  }

  /** Writing the next halfword at its row-order place extends an upload by one. */
  lemma UploadExtends(vram: Vram, x: int, y: int, w: int, data: seq<Half>, v: Half, mask: Mask)
    requires 0 < w <= 1024 && |data| < w * 512
    ensures PutMasked(UploadRect(vram, x, y, w, data, mask), x + |data| % w, y + |data| / w, v, mask)
         == UploadRect(vram, x, y, w, data + [v], mask)
  {
    var n := |data|;
    var c, r := n % w, n / w;
    assert n == r * w + c;
    QuotientBelow(n, w, 512);
    PlaceOf(x, y, c, r);
    var cell := CellIndex(x + c, y + r);
    var before, after := UploadRect(vram, x, y, w, data, mask), UploadRect(vram, x, y, w, data + [v], mask);
    forall i | 0 <= i < CELLS && i != cell
      ensures before[i] == after[i]
    {
      if Column(i, x) < w && Row(i, y) * w + Column(i, x) == n {
        DivModUnique(w, Row(i, y), Column(i, x));
        CellOf(i, x, y);
      }
    }
    assert Put(before, x + c, y + r, after[cell]) == after;
  }

  /** The cells an upload reaches are pairwise distinct, so each keeps its own
      halfword: reading place k of the rectangle gives the masked halfword k. */
  lemma UploadReadsBack(vram: Vram, x: int, y: int, w: int, data: seq<Half>, mask: Mask, k: int)
    requires 0 < w <= 1024 && |data| <= w * 512
    requires 0 <= k < |data|
    ensures Get(UploadRect(vram, x, y, w, data, mask), x + k % w, y + k / w)
         == Masked(Get(vram, x + k % w, y + k / w), data[k], mask)
  {
    var c, r := k % w, k / w;
    assert k == r * w + c;
    QuotientBelow(k, w, 512);
    PlaceOf(x, y, c, r);
  }

  /** The first n pixels, in row order, of a rectangle of width w. */
  function RectPixels(vram: Vram, x: int, y: int, w: int, n: nat): (px: seq<Half>)
    requires w > 0
    ensures |px| == n
  {
    seq(n, k requires 0 <= k < n => Get(vram, x + k % w, y + k / w))
  }

  lemma RectPixelsSnoc(vram: Vram, x: int, y: int, w: int, c: int, r: int)
    requires 0 <= c < w && 0 <= r
    requires 0 <= r * w + c
    ensures RectPixels(vram, x, y, w, r * w + c + 1)
         == RectPixels(vram, x, y, w, r * w + c) + [Get(vram, x + c, y + r)]
  {
    DivModUnique(w, r, c);
  }

  /** Reading a rectangle out and uploading it elsewhere is the simultaneous copy. */
  lemma CopyThroughBuffer(vram: Vram, sx: int, sy: int, dx: int, dy: int, w: int, h: int, mask: Mask)
    requires 0 < w <= 1024 && 0 < h <= 512 && 0 <= h * w
    ensures UploadRect(vram, dx, dy, w, RectPixels(vram, sx, sy, w, h * w), mask)
         == CopyRect(vram, sx, sy, dx, dy, w, h, mask)
  {
    var px := RectPixels(vram, sx, sy, w, h * w);
    var up, cp := UploadRect(vram, dx, dy, w, px, mask), CopyRect(vram, sx, sy, dx, dy, w, h, mask);
    forall i | 0 <= i < CELLS
      ensures up[i] == cp[i]
    {
      var c, r := Column(i, dx), Row(i, dy);
      if c < w {
        DivModUnique(w, r, c);
        if r < h {
          InBuffer(r, c, w, h);
        } else {
          RowsBefore(h, r, w);
        }
      }
    }
  }

  lemma RowsBefore(q: int, r: int, w: int)
    requires w > 0 && q <= r
    ensures q * w <= r * w
  {
    assert (r - q) * w >= 0;
  }

  lemma InBuffer(r: int, c: int, w: int, h: int)
    requires 0 <= r < h && 0 <= c < w
    ensures 0 <= r * w + c < h * w
  {
    RowsBefore(0, r, w);
    RowsBefore(r + 1, h, w);
    assert (r + 1) * w == r * w + w;
  }
}
