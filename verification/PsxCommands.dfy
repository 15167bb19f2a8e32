/** What the GP0 commands do, in the bits of their words and the cells of the memory:
    the command words are taken apart here and nowhere else in these statements. */
module PsxCommands {
  import opened Words
  import opened PsxVram
  import opened PsxGp0
  import opened PsxGp0Parser
  import opened PsxTransfer

  /** The cell in column c and row r of the rectangle whose corner a word packs, ten
      bits across and nine down; the memory is 1024 cells wide and both ways wrap. */
  function At(corner: Word, c: int, r: int): (i: int)
    ensures 0 <= i < CELLS
  {
    (corner / 0x10000 % 0x200 + r) % 512 * 1024 + (corner % 0x400 + c) % 1024
  }

  function Width(size: Word): int {
    size % 0x400
  }

  function Height(size: Word): int {
    size / 0x10000 % 0x200
  }

  /** A cell after a write of v: kept if it is protected, else v with the mask bit. */
  function Stored(before: Half, v: Half, setBit: bool, check: bool): Half {
    if check && before >= 0x8000 then before else v % 0x8000 + if setBit then 0x8000 else 0
  }

  /** Every cell of a rectangle changes as `f` says and no other does. */
  ghost predicate Changed(after: Vram, before: Vram, corner: Word, w: int, h: int, f: (int, int) -> Half) {
    && (forall c, r :: 0 <= c < w && 0 <= r < h ==> after[At(corner, c, r)] == f(c, r))
    && (forall i :: 0 <= i < CELLS && (forall c, r :: 0 <= c < w && 0 <= r < h ==> At(corner, c, r) != i) ==>
          after[i] == before[i])
  }

  lemma AtIsCell(corner: Word, c: int, r: int)
    ensures At(corner, c, r) == CellIndex(PackedX(corner) + c, PackedY(corner) + r)
  {
  }

  lemma PlaceInRectangle(corner: Word, c: int, r: int)
    requires 0 <= c < 1024 && 0 <= r < 512
    ensures Column(At(corner, c, r), PackedX(corner)) == c && Row(At(corner, c, r), PackedY(corner)) == r
  {
    hide At, CellIndex, PackedX, PackedY;
    AtIsCell(corner, c, r);
    PlaceOf(PackedX(corner), PackedY(corner), c, r);
  }

  lemma CellInRectangle(corner: Word, i: int)
    requires 0 <= i < CELLS
    ensures At(corner, Column(i, PackedX(corner)), Row(i, PackedY(corner))) == i
  {
    hide At, CellIndex, Column, Row;
    AtIsCell(corner, Column(i, PackedX(corner)), Row(i, PackedY(corner)));
    CellOf(i, PackedX(corner), PackedY(corner));
  }

  /** A memory defined cell by cell over a rectangle changes just that rectangle. */
  lemma ChangedBy(after: Vram, before: Vram, corner: Word, w: int, h: int, f: (int, int) -> Half)
    requires 0 <= w <= 1024 && 0 <= h <= 512
    requires forall i :: 0 <= i < CELLS ==>
      var c, r := Column(i, PackedX(corner)), Row(i, PackedY(corner));
      after[i] == if c < w && r < h then f(c, r) else before[i]
    ensures Changed(after, before, corner, w, h, f)
  {
    hide At, Column, Row, PackedX, PackedY;
    forall c, r | 0 <= c < w && 0 <= r < h
      ensures after[At(corner, c, r)] == f(c, r)
    {
      PlaceInRectangle(corner, c, r);
    }
    forall i | 0 <= i < CELLS && forall c, r :: 0 <= c < w && 0 <= r < h ==> At(corner, c, r) != i
      ensures after[i] == before[i]
    {
      CellInRectangle(corner, i);
    }
  }

  // ---- VRAM to VRAM ---------------------------------------------------------

  /** 80h: at once, each cell of the destination takes the cell of the source in the
      same place, as it was before; the source comes first in the command. */
  lemma CopyEffect(env: Renderer, g: Gpu, first: Word, src: Word, dst: Word, size: Word)
    requires g.framer.Idle? && first / 0x1000000 == 0x80
    ensures var g1 := Run(env, g, [first, src, dst, size]);
      && g1 == g.(vram := g1.vram)
      && Changed(g1.vram, g.vram, dst, if Height(size) == 0 then 0 else Width(size), Height(size), (c, r) =>
           Stored(g.vram[At(dst, c, r)], g.vram[At(src, c, r)], g.regs.mask.setBit, g.regs.mask.check))
  {
    var ws := [first, src, dst, size];
    FixedCommand(env, g, ws);
    assert ws[1..] == [src, dst, size];
    var w, h := Width(size), Height(size);
    var g1 := Run(env, g, ws);
    assert w == PackedX(size) && h == PackedY(size);
    var f := (c, r) => Stored(g.vram[At(dst, c, r)], g.vram[At(src, c, r)], g.regs.mask.setBit, g.regs.mask.check);
    CopyCells(g.vram, src, dst, w, h, g.regs.mask, f, g1.vram);
  }

  lemma CopyCells(vram: Vram, src: Word, dst: Word, w: int, h: int, mask: Mask, f: (int, int) -> Half, after: Vram)
    requires 0 <= w < 1024 && 0 <= h < 512
    requires forall c, r :: f(c, r) == Stored(vram[At(dst, c, r)], vram[At(src, c, r)], mask.setBit, mask.check)
    requires after == if w == 0 || h == 0 then vram
      else CopyRect(vram, PackedX(src), PackedY(src), PackedX(dst), PackedY(dst), w, h, mask)
    ensures Changed(after, vram, dst, if h == 0 then 0 else w, h, f)
  {
    hide At, PackedX, PackedY, Column, Row, CellIndex;
    var width := if h == 0 then 0 else w;
    forall i | 0 <= i < CELLS
      ensures var c, r := Column(i, PackedX(dst)), Row(i, PackedY(dst));
        after[i] == if c < width && r < h then f(c, r) else vram[i]
    {
      var c, r := Column(i, PackedX(dst)), Row(i, PackedY(dst));
      CellInRectangle(dst, i);
      AtIsCell(src, c, r);
    }
    ChangedBy(after, vram, dst, width, h, f);
  }

  // ---- fill -----------------------------------------------------------------

  /** 02h: the rectangle, widened to multiples of sixteen columns, takes the colour of
      the command word, five bits a channel, whatever the mask settings. */
  lemma FillEffect(env: Renderer, g: Gpu, first: Word, corner: Word, size: Word)
    requires g.framer.Idle? && first / 0x1000000 == 2
    ensures var g1 := Run(env, g, [first, corner, size]);
      && g1 == g.(vram := g1.vram)
      && Changed(g1.vram, g.vram, corner - corner % 16, (Width(size) + 15) / 16 * 16, Height(size), (c, r) =>
           first % 0x100 / 8 + first / 0x100 % 0x100 / 8 * 0x20 + first / 0x10000 % 0x100 / 8 * 0x400)
  {
    var ws := [first, corner, size];
    FixedCommand(env, g, ws);
    assert ws[1..] == [corner, size];
    FillColour(first);
    FillCorner(corner);
    var v := first % 0x100 / 8 + first / 0x100 % 0x100 / 8 * 0x20 + first / 0x10000 % 0x100 / 8 * 0x400;
    ChangedBy(Run(env, g, ws).vram, g.vram, corner - corner % 16, (Width(size) + 15) / 16 * 16, Height(size),
              (c, r) => v);
  }

  lemma FillColour(first: Word)
    ensures Rgb24To15(first % 0x1000000)
         == first % 0x100 / 8 + first / 0x100 % 0x100 / 8 * 0x20 + first / 0x10000 % 0x100 / 8 * 0x400
  {
    ModOfMod(first, 0x100, 0x10000);
    DivOfMod(first, 0x100, 0x10000);
    ModOfMod(first / 0x100, 0x100, 0x100);
    DivOfMod(first, 0x10000, 0x100);
    ModOfMod(first / 0x10000, 0x100, 1);
  }

  lemma FillCorner(corner: Word)
    ensures corner % 16 <= corner
    ensures PackedX(corner - corner % 16) == PackedX(corner) / 16 * 16
    ensures PackedY(corner - corner % 16) == PackedY(corner)
  {
    var q, x := corner / 0x400, corner % 0x400;
    ModOfMod(corner, 16, 0x40);
    assert corner == q * 0x400 + x;
    DivModUnique(0x400, q, x - x % 16);
    var p, l := corner / 0x10000, corner % 0x10000;
    ModOfMod(corner, 16, 0x1000);
    DivModUnique(0x10000, p, l - l % 16);
  }

  // ---- transfers ------------------------------------------------------------

  /** Pixel k of a word stream: two to a word, the low half first. */
  function PixelOf(ws: seq<Word>, k: int): Half {
    if 0 <= k < 2 * |ws| then if k % 2 == 0 then ws[k / 2] % 0x10000 else ws[k / 2] / 0x10000
    else 0
  }

  lemma PixelIsHalf(ws: seq<Word>, k: int)
    requires 0 <= k < 2 * |ws|
    ensures PixelOf(ws, k) == Halves(ws)[k]
  {
  }

  /** A0h: the pixels of the payload fill the rectangle row by row. */
  lemma UploadFills(env: Renderer, g: Gpu, first: Word, corner: Word, size: Word, payload: seq<Word>)
    requires g.framer.Idle? && first / 0x1000000 == 0xA0 && Width(size) > 0 && Height(size) > 0
    requires |payload| == (Width(size) * Height(size) + 1) / 2
    ensures var g1 := Run(env, g, [first, corner, size] + payload);
      && g1 == g.(vram := g1.vram)
      && Changed(g1.vram, g.vram, corner, Width(size), Height(size), (c, r) =>
           Stored(g.vram[At(corner, c, r)], PixelOf(payload, r * Width(size) + c), g.regs.mask.setBit,
                  g.regs.mask.check))
  {
    hide UploadRect, Run, Halves, At, Stored, PixelOf;
    var sent := [first, corner, size] + payload;
    assert sent[3..] == payload;
    UploadCommand(env, g, sent);
    PixelsBound(size);
    var w, h := Width(size), Height(size);
    var data := Halves(payload)[..Pixels(size)];
    var f := (c, r) =>
      Stored(g.vram[At(corner, c, r)], PixelOf(payload, r * w + c), g.regs.mask.setBit, g.regs.mask.check);
    var after := Store(g, corner, size, data).vram;
    hide Changed, Column, Row;
    forall i | 0 <= i < CELLS
      ensures var c, r := Column(i, PackedX(corner)), Row(i, PackedY(corner));
        after[i] == if c < w && r < h then f(c, r) else g.vram[i]
    {
      UploadCell(g.vram, corner, w, h, payload, g.regs.mask, i);
    }
    ChangedBy(after, g.vram, corner, w, h, f);
  }

  lemma UploadCell(vram: Vram, corner: Word, w: int, h: int, payload: seq<Word>, mask: Mask, i: int)
    requires 0 < w <= 1024 && 0 < h <= 512 && 0 <= i < CELLS && 0 <= w * h <= 2 * |payload|
    ensures var c, r := Column(i, PackedX(corner)), Row(i, PackedY(corner));
      UploadRect(vram, PackedX(corner), PackedY(corner), w, Halves(payload)[..w * h], mask)[i]
      == if c < w && r < h
         then Stored(vram[At(corner, c, r)], PixelOf(payload, r * w + c), mask.setBit, mask.check)
         else vram[i]
  {
    hide At, PackedX, PackedY, Column, Row, Halves, PixelOf;
    var c, r := Column(i, PackedX(corner)), Row(i, PackedY(corner));
    CellInRectangle(corner, i);
    if c < w {
      if r < h {
        InBuffer(r, c, w, h);
        PixelIsHalf(payload, r * w + c);
      } else {
        RowsBefore(h, r, w);
      }
    }
  }

  /** C0h and its reads: the pixels of the rectangle row by row, a zero in the half
      that is left over, and no more words than that takes. */
  lemma ReadReturns(env: Renderer, g: Gpu, first: Word, corner: Word, size: Word)
    requires g.framer.Idle? && first / 0x1000000 == 0xC0 && Width(size) > 0 && Height(size) > 0
    ensures var n := Width(size) * Height(size);
      n > 0 && var (ws, g1) := ReadMany(Run(env, g, [first, corner, size]), (n + 1) / 2);
      && (forall k :: 0 <= k < n ==> PixelOf(ws, k) == g.vram[At(corner, k % Width(size), k / Width(size))])
      && (n % 2 == 1 ==> ws[n / 2] / 0x10000 == 0)
      && g1 == g.(readOut := g1.readOut) && !g1.readOut.pending
  {
    PixelsBound(size);
    ReadBack(env, g, first, corner, size);
    hide ReadMany, Run, PixelOf, Rect, At, Carries;
    ReadPixels(g.vram, corner, size, ReadMany(Run(env, g, [first, corner, size]), PayloadWords(size)).0);
  }

  lemma ReadPixels(vram: Vram, corner: Word, size: Word, ws: seq<Word>)
    requires UploadSize(size) && |ws| == PayloadWords(size) && Carries(ws, Rect(vram, corner, size))
    ensures var n := Pixels(size);
      && (forall k :: 0 <= k < n ==> PixelOf(ws, k) == vram[At(corner, k % Width(size), k / Width(size))])
      && (n % 2 == 1 ==> ws[n / 2] / 0x10000 == 0)
  {
    hide PixelOf, Rect, At, Carries;
    var n := Pixels(size);
    CarriesPixels(ws, Rect(vram, corner, size));
    forall k | 0 <= k < n
      ensures PixelOf(ws, k) == vram[At(corner, k % Width(size), k / Width(size))]
    {
      RectAt(vram, corner, size, k);
    }
    if n % 2 == 1 {
      OddPixel(ws, n);
    }
  }

  lemma CarriesPixels(ws: seq<Word>, px: seq<Half>)
    requires Carries(ws, px)
    ensures forall k :: 0 <= k < 2 * |ws| ==> PixelOf(ws, k) == if k < |px| then px[k] else 0
  {
  }

  lemma RectAt(vram: Vram, corner: Word, size: Word, k: int)
    requires UploadSize(size) && 0 <= k < Pixels(size)
    ensures Rect(vram, corner, size)[k] == vram[At(corner, k % Width(size), k / Width(size))]
  {
    hide At, CellIndex;
    AtIsCell(corner, k % Width(size), k / Width(size));
  }

  lemma OddPixel(ws: seq<Word>, n: int)
    requires 0 <= n < 2 * |ws| && n % 2 == 1
    ensures PixelOf(ws, n) == ws[n / 2] / 0x10000
  {
  }

  // ---- rendering and settings -----------------------------------------------

  /** A command for the renderer, with the words it needs, reaches it as it is. */
  lemma RenderEffect(env: Renderer, g: Gpu, ws: seq<Word>)
    requires g.framer.Idle? && ws != [] && 0x20 <= ws[0] / 0x1000000 < 0x80
    requires ws[0] / 0x1000000 !in {0x48, 0x4A, 0x58, 0x5A} && |ws| == 1 + Operands(ws[0] / 0x1000000)
    ensures Run(env, g, ws) == g.(vram := env.render(g.vram, g.regs, ws[0], ws[1..]))
  {
    ParamFormula(Opcode(ws[0]));
    FixedCommand(env, g, ws);
  }

  /** A terminated poly-line reaches the renderer without its terminator, and with
      its opcode in place of its command word. */
  lemma PolylineEffect(env: Renderer, g: Gpu, first: Word, vs: seq<Word>, end: Word)
    requires g.framer.Idle? && first / 0x1000000 in {0x48, 0x4A, 0x58, 0x5A} && |vs| <= 61
    requires Ends(end) && forall i :: 0 <= i < |vs| ==> !Ends(vs[i])
    ensures Run(env, g, [first] + vs + [end])
         == g.(vram := env.polyline(g.vram, g.regs, first / 0x1000000, vs))
  {
    hide Run, Ends, Terminator, PolylineLength;
    var ws := [first] + vs + [end];
    forall i | 1 <= i < |ws|
      ensures Terminator(ws[i]) <==> i == |ws| - 1
    {
      EndsIsTerminator(ws[i]);
      if i < |ws| - 1 {
        assert ws[i] == vs[i - 1];
      }
    }
    FirstTerminator(ws, 1);
    PolylineCommand(env, g, ws);
    assert ws[1..|ws| - 1] == vs;
  }

  /** The two fives of 5xxx5xxxh. */
  predicate Ends(v: Word) {
    v / 0x1000 % 0x10 == 5 && v - v % 0x10000000 == 0x50000000
  }

  lemma EndsIsTerminator(v: Word)
    ensures Ends(v) <==> Terminator(v)
  {
  }

  lemma {:induction false} FirstTerminator(ws: seq<Word>, i: int)
    requires 1 <= i < |ws| <= 63
    requires forall k :: i <= k < |ws| ==> (Terminator(ws[k]) <==> k == |ws| - 1)
    ensures PolylineLength(ws, i) == |ws|
    decreases |ws| - i
  {
    if i < |ws| - 1 {
      FirstTerminator(ws, i + 1);
    }
  }

  /** The words a command takes, from the bits of its opcode: polygons by corners,
      textures and shading, lines by shading, rectangles by texture and size. */
  function Operands(op: int): int {
    var quad, shaded, textured := op / 8 % 2, op / 0x10 % 2, op / 4 % 2;
    var corners := 3 + quad;
    if 0x20 <= op < 0x40 then
      if op % 2 == 0 || (shaded == 0 && textured == 1) then corners * (1 + textured) + shaded * (corners - 1) else 0
    else if op in {0x40, 0x42, 0x50, 0x52} then 2 + shaded
    else if 0x60 <= op < 0x80 then
      if op % 2 == 0 || textured == 1 then 1 + textured + if op / 8 % 4 == 0 then 1 else 0 else 0
    else if op == 2 || op == 0xC0 then 2
    else if op == 0x80 then 3
    else if 0xE1 <= op <= 0xE6 then 1
    else 0
  }

  lemma ParamFormula(op: Byte)
    requires op !in {0x48, 0x4A, 0x58, 0x5A}
    ensures ParamCount(op) == Operands(op)
  {
    if 0x20 <= op < 0x40 {
      PolygonOperands(op);
    } else if 0x60 <= op < 0x80 {
      RectangleOperands(op);
    }
  }

  lemma PolygonOperands(op: Byte)
    requires 0x20 <= op < 0x40
    ensures ParamCount(op) == Operands(op)
  {
  }

  lemma RectangleOperands(op: Byte)
    requires 0x60 <= op < 0x80
    ensures ParamCount(op) == Operands(op)
  {
  }

  /** E1h to E6h set their registers from the bits of their second word. */
  lemma SettingEffect(env: Renderer, g: Gpu, first: Word, v: Word)
    requires g.framer.Idle? && 0xE1 <= first / 0x1000000 <= 0xE6
    ensures var g1, op := Run(env, g, [first, v]), first / 0x1000000;
      && g1 == g.(regs := g1.regs)
      && g1.regs.tpage == (if op == 0xE1 then v % 0x200 + v / 0x800 % 2 * 0x800 else g.regs.tpage)
      && g1.regs.texwin == (if op == 0xE2 then v % 0x100000 else g.regs.texwin)
      && g1.regs.areaX1 == (if op == 0xE3 then v % 0x400 else g.regs.areaX1)
      && g1.regs.areaY1 == (if op == 0xE3 then v / 0x400 % 0x200 else g.regs.areaY1)
      && g1.regs.areaX2 == (if op == 0xE4 then v % 0x400 else g.regs.areaX2)
      && g1.regs.areaY2 == (if op == 0xE4 then v / 0x400 % 0x200 else g.regs.areaY2)
      && g1.regs.offX == (if op == 0xE5 then v % 0x800 - 0x400 else g.regs.offX)
      && g1.regs.offY == (if op == 0xE5 then v / 0x800 % 0x800 - 0x400 else g.regs.offY)
      && (g1.regs.mask.setBit <==> if op == 0xE6 then v % 2 == 1 else g.regs.mask.setBit)
      && (g1.regs.mask.check <==> if op == 0xE6 then v / 2 % 2 == 1 else g.regs.mask.check)
      && g1.regs.gpustat == g.regs.gpustat
  {
    var ws := [first, v];
    FixedCommand(env, g, ws);
    assert ws[1..] == [v];
  }

  /** 1Fh raises bit 24 of the status word; any other opcode outside the lists above
      does nothing. */
  lemma OtherEffect(env: Renderer, g: Gpu, first: Word)
    requires g.framer.Idle? && first / 0x1000000 !in {2, 0x80, 0xA0, 0xC0}
    requires first / 0x1000000 < 0x20 || first / 0x1000000 > 0x7F
    requires !(0xE1 <= first / 0x1000000 <= 0xE6)
    ensures var g1, stat := Run(env, g, [first]), g.regs.gpustat;
      g1 == g.(regs := g.regs.(gpustat :=
        if first / 0x1000000 == 0x1F && stat / 0x1000000 % 2 == 0 then stat + 0x1000000 else stat))
  {
    FixedCommand(env, g, [first]);
    assert [first][1..] == [];
  }
}
