/** Moving a rectangle into video memory and back: what A0h uploads, C0h returns. */
module PsxTransfer {
  import opened Words
  import opened PsxVram
  import opened PsxGp0
  import opened PsxGp0Parser

  /** A C0h transfer of n == w * h pixels after k of them. */
  function ReadAt(x: int, y: int, w: int, h: int, n: nat, k: nat): ReadOut
    requires w > 0
  {
    ReadOut(x, y, w, h, x + k % w, y + k / w, k < n)
  }

  lemma LastRowEnds(n: int, w: int, h: int)
    requires w > 0 && 0 <= n <= h * w
    ensures n / w < h <==> n < h * w
  {
    if n < h * w {
      QuotientBelow(n, w, h);
    } else {
      DivModUnique(w, h, 0);
    }
  }

  lemma AdvanceStep(x: int, y: int, w: int, h: int, n: nat, k: nat)
    requires w > 0 && k < n == h * w
    ensures Advance(ReadAt(x, y, w, h, n, k)) == ReadAt(x, y, w, h, n, k + 1)
  {
    NextPlace(k, w);
    LastRowEnds(k + 1, w, h);
    LastRowEnds(k, w, h);
  }

  /** Advancing a transfer walks the rectangle in row order. */
  ghost predicate Walks(x: int, y: int, w: int, h: int, n: nat)
    requires w > 0
  {
    forall k: nat :: k < n ==> Advance(ReadAt(x, y, w, h, n, k)) == ReadAt(x, y, w, h, n, k + 1)
  }

  lemma ReadStep(vram: Vram, x: int, y: int, w: int, h: int, n: nat, k: nat)
    requires w > 0 && k < n && Walks(x, y, w, h, n)
    ensures ReadAt(x, y, w, h, n, k).pending
    ensures var px := RectPixels(vram, x, y, w, n);
      ReadWord(vram, ReadAt(x, y, w, h, n, k))
      == if k + 1 == n then (px[k], ReadAt(x, y, w, h, n, k + 1))
         else (Pack(px[k], px[k + 1]), ReadAt(x, y, w, h, n, k + 2))
  {
    assert Advance(ReadAt(x, y, w, h, n, k)) == ReadAt(x, y, w, h, n, k + 1);
  }

  /** The words `ws` carry the first 2 * |ws| pixels of px, low half first, with
      zero in the place of a missing one. */
  ghost predicate Carries(ws: seq<Word>, px: seq<Half>) {
    forall k :: 0 <= k < 2 * |ws| ==> Halves(ws)[k] == if k < |px| then px[k] else 0
  }

  lemma CarriesOneMore(ws: seq<Word>, v: Word, px: seq<Half>)
    requires Carries(ws, px) && 2 * |ws| < |px|
    requires v == if 2 * |ws| + 1 == |px| then px[2 * |ws|] else Pack(px[2 * |ws|], px[2 * |ws| + 1])
    ensures Carries(ws + [v], px)
  {
    HalvesSnoc(ws, v);
    var n := 2 * |ws|;
    assert Low16(v) == px[n];
    assert High16(v) == if n + 1 < |px| then px[n + 1] else 0;
  }

  function Min(a: int, b: int): int {
    if a < b then a else b
  }

  /** m reads of a pending C0h transfer return its first 2m pixels. */
  lemma {:induction false} ReadsInOrder(g: Gpu, x: int, y: int, w: int, h: int, n: nat, m: nat)
    requires w > 0 && 0 < n && 2 * m <= n + 1 && Walks(x, y, w, h, n)
    requires g.readOut == ReadAt(x, y, w, h, n, 0)
    ensures ReadMany(g, m).1 == g.(readOut := ReadAt(x, y, w, h, n, Min(2 * m, n)))
    ensures Carries(ReadMany(g, m).0, RectPixels(g.vram, x, y, w, n))
  {
    hide ReadAt, Walks, RectPixels;
    if m > 0 {
      ReadsInOrder(g, x, y, w, h, n, m - 1);
      var (ws, g1) := ReadMany(g, m - 1);
      var k := 2 * m - 2;
      assert g1 == g.(readOut := ReadAt(x, y, w, h, n, k));
      ReadStep(g.vram, x, y, w, h, n, k);
      CarriesOneMore(ws, Read(g1).0, RectPixels(g.vram, x, y, w, n));
    }
  }

  lemma ReadStart(x: int, y: int, w: int, h: int, n: nat)
    requires w > 0 && n > 0
    ensures ReadAt(x, y, w, h, n, 0) == ReadOut(x, y, w, h, x, y, true)
  {
    DivModUnique(w, 0, 0);
  }

  /** The rectangle named by a coordinate word and a size word. */
  function Rect(vram: Vram, coord: Word, size: Word): (px: seq<Half>)
    requires UploadSize(size)
    ensures |px| == Pixels(size)
  {
    RectPixels(vram, PackedX(coord), PackedY(coord), PackedX(size), Pixels(size))
  }

  /** A C0h command followed by ceil(w * h / 2) reads returns the rectangle as it
      is, changes nothing else, and is pending until exactly the last word. */
  lemma ReadBack(env: Renderer, g: Gpu, first: Word, coord: Word, size: Word)
    requires g.framer.Idle? && Opcode(first) == 0xC0 && UploadSize(size)
    ensures var g2 := Run(env, g, [first, coord, size]);
      var (ws, g3) := ReadMany(g2, PayloadWords(size));
      && Carries(ws, Rect(g.vram, coord, size))
      && g3 == g.(readOut := g3.readOut) && !g3.readOut.pending
      && forall n :: 0 <= n < PayloadWords(size) ==> ReadMany(g2, n).1.readOut.pending
  {
    var x, y, w, h := PackedX(coord), PackedY(coord), PackedX(size), PackedY(size);
    var ws := [first, coord, size];
    FixedCommand(env, g, ws);
    assert ws[1..] == [coord, size];
    PixelsBound(size);
    ReadStart(x, y, w, h, Pixels(size));
    forall k: nat | k < Pixels(size)
      ensures Advance(ReadAt(x, y, w, h, Pixels(size), k)) == ReadAt(x, y, w, h, Pixels(size), k + 1)
    {
      AdvanceStep(x, y, w, h, Pixels(size), k);
    }
    var g2 := Run(env, g, ws);
    ReadsInOrder(g2, x, y, w, h, Pixels(size), PayloadWords(size));
    forall n | 0 <= n < PayloadWords(size)
      ensures ReadMany(g2, n).1.readOut.pending
    {
      ReadsInOrder(g2, x, y, w, h, Pixels(size), n);
    }
  }

  predicate Inside(i: int, coord: Word, size: Word) {
    Column(i, PackedX(coord)) < PackedX(size) && Row(i, PackedY(coord)) < PackedY(size)
  }

  /** The memory after a complete A0h upload: each cell of the rectangle holds its
      own masked halfword and every cell outside is as before. */
  lemma UploadEffect(env: Renderer, g: Gpu, first: Word, coord: Word, size: Word, payload: seq<Word>)
    requires g.framer.Idle? && Opcode(first) == 0xA0
    requires UploadSize(size) && |payload| == PayloadWords(size)
    ensures var g1 := Run(env, g, [first, coord, size] + payload);
      && g1 == g.(vram := g1.vram)
      && (forall k :: 0 <= k < Pixels(size) ==>
            Rect(g1.vram, coord, size)[k] == Masked(Rect(g.vram, coord, size)[k], Halves(payload)[k], g.regs.mask))
      && (forall i :: 0 <= i < CELLS && !Inside(i, coord, size) ==> g1.vram[i] == g.vram[i])
  {
    hide UploadRect, Masked, WriteGp0, Halves;
    var sent := [first, coord, size] + payload;
    assert sent[3..] == payload;
    UploadCommand(env, g, sent);
    PixelsBound(size);
    var data := Halves(payload)[..Pixels(size)];
    forall k | 0 <= k < Pixels(size)
      ensures Rect(Store(g, coord, size, data).vram, coord, size)[k]
           == Masked(Rect(g.vram, coord, size)[k], Halves(payload)[k], g.regs.mask)
    {
      UploadReadsBack(g.vram, PackedX(coord), PackedY(coord), PackedX(size), data, g.regs.mask, k);
    }
    forall i | 0 <= i < CELLS && !Inside(i, coord, size)
      ensures Store(g, coord, size, data).vram[i] == g.vram[i]
    {
      OutsideUnchanged(g.vram, coord, size, data, g.regs.mask, i);
    }
  }

  lemma OutsideUnchanged(vram: Vram, coord: Word, size: Word, data: seq<Half>, mask: Mask, i: int)
    requires UploadSize(size) && |data| == Pixels(size) && 0 <= i < CELLS && !Inside(i, coord, size)
    ensures UploadRect(vram, PackedX(coord), PackedY(coord), PackedX(size), data, mask)[i] == vram[i]
  {
    var r, w, h := Row(i, PackedY(coord)), PackedX(size), PackedY(size);
    if r >= h {
      RowsBefore(h, r, w);
    }
  }

  /** Upload a rectangle with A0h, ask for it back with C0h and read. The answer
      holds, in order, what the upload left in each cell: the halfword sent with
      bit 15 replaced by the mask-set bit, or the old cell where the mask check
      protected it. No cell outside, no register and no command state changes. */
  lemma UploadReadBack(env: Renderer, g: Gpu, up: Word, down: Word, coord: Word, size: Word, payload: seq<Word>)
    requires g.framer.Idle? && Opcode(up) == 0xA0 && Opcode(down) == 0xC0
    requires UploadSize(size) && |payload| == PayloadWords(size)
    ensures var g1 := Run(env, g, [up, coord, size] + payload);
      var g2 := Run(env, g1, [down, coord, size]);
      var (ws, g3) := ReadMany(g2, PayloadWords(size));
      && (forall k :: 0 <= k < Pixels(size) ==>
            Halves(ws)[k] == Masked(Rect(g.vram, coord, size)[k], Halves(payload)[k], g.regs.mask))
      && (!g.regs.mask.check ==> forall k :: 0 <= k < Pixels(size) ==>
            Halves(ws)[k] == Halves(payload)[k] % 0x8000 + if g.regs.mask.setBit then 0x8000 else 0)
      && (forall k :: Pixels(size) <= k < 2 * PayloadWords(size) ==> Halves(ws)[k] == 0)
      && (forall i :: 0 <= i < CELLS && !Inside(i, coord, size) ==> g3.vram[i] == g.vram[i])
      && g3.regs == g.regs && g3.framer.Idle? && !g3.readOut.pending
  {
    UploadEffect(env, g, up, coord, size, payload);
    ReadBack(env, Run(env, g, [up, coord, size] + payload), down, coord, size);
  }
}
