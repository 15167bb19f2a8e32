/** The GPU's mutable state and the loops that work on it in place, proved to take
    exactly the steps of the GP0 state machine. */
module PsxGpu {
  import opened Words
  import opened PsxVram
  import opened PsxGp0
  import opened PsxGp0Parser

  lemma FullTakesNothing(g: Gpu, half: Half)
    requires g.framer.Stream? && g.framer.left == 0
    ensures StreamHalf(g, half) == g
  {
  }

  /** One store of the copy's second loop. */
  lemma CopyStep(before: Vram, dx: int, dy: int, w: int, h: int, tmp: seq<Half>, c: int, r: int, mask: Mask)
    requires 0 <= c < w <= 1024 && 0 <= r < h <= 512 && |tmp| == h * w
    ensures 0 <= r * w + c < |tmp|
    ensures PutMasked(UploadRect(before, dx, dy, w, tmp[..r * w + c], mask), dx + c, dy + r, tmp[r * w + c], mask)
         == UploadRect(before, dx, dy, w, tmp[..r * w + c + 1], mask)
  {
    InBuffer(r, c, w, h);
    RowsBefore(h, 512, w);
    DivModUnique(w, r, c);
    var n := r * w + c;
    UploadExtends(before, dx, dy, w, tmp[..n], tmp[n], mask);
    assert tmp[..n] + [tmp[n]] == tmp[..n + 1];
  }

  class PsxGpu {
    const env: Renderer
    const vram: array<Half>
    const fifo: array<Word>
    var fifoLen: int
    var fifoNeed: int
    var fifoActive: bool
    var regs: Regs
    var readOut: ReadOut
    var gread: Word
    var xferActive: bool
    var xferLeft: int
    var xferX: int
    var xferY: int
    var xferX0: int
    var xferW: int

    /** The fields' own consistency. */
    ghost predicate Shape()
      reads this, fifo
    {
      && vram.Length == CELLS && fifo.Length == 64 && (vram as object) != fifo
      && !(xferActive && fifoActive)
      && (fifoActive ==>
            && 1 <= fifoLen < 63
            && fifoNeed == var cmd := Opcode(fifo[0]);
                 if cmd == 0xA0 then 2 else if IsPolyline(cmd) then 0xFF else ParamCount(cmd))
    }

    ghost function Framing(): Framer
      reads this, fifo
      requires Shape()
    {
      if xferActive then Stream(xferLeft, xferX, xferY, xferX0, xferW)
      else if fifoActive then Collect(fifo[..fifoLen])
      else Idle
    }

    ghost function State(): Gpu
      reads this, fifo, vram
      requires Shape()
    {
      Gpu(vram[..], regs, readOut, Framing(), gread)
    }

    ghost predicate Valid()
      reads this, fifo, vram
    {
      Shape() && PsxGp0.Valid(State())
    }

    constructor (env: Renderer)
      ensures Valid() && this.env == env
      ensures State().framer == Idle && !State().readOut.pending && State().vram == seq(CELLS, _ => 0)
    {
      this.env := env;
      vram := new Half[CELLS](_ => 0);
      fifo := new Word[64](_ => 0);
      fifoLen, fifoNeed, fifoActive := 0, 0, false;
      regs := Regs(0, 0, 0, 0, 1023, 511, 0, 0, Mask(false, false), 0x14802000);
      readOut := ReadOut(0, 0, 0, 0, 0, 0, false);
      gread := 0;
      xferActive, xferLeft, xferX, xferY, xferX0, xferW := false, 0, 0, 0, 0, 0;
      new;
      assert vram[..] == seq(CELLS, _ => 0);
    }

    method VramPutMasked(x: int, y: int, v: Half)
      requires vram.Length == CELLS
      modifies vram
      ensures vram[..] == PutMasked(old(vram[..]), x, y, v, regs.mask)
    {
      var p := CellIndex(x, y);
      if regs.mask.check && vram[p] >= 0x8000 {
        return;
      }
      var nv := v % 0x8000;
      if regs.mask.setBit {
        nv := nv + 0x8000;
      }
      vram[p] := nv;
    }

    /** The fill loop: rows, then columns, ignoring the mask. */
    method FillLoop(x: int, y: int, w: int, h: int, v: Half)
      requires vram.Length == CELLS && 0 <= w <= 1024 && 0 <= h <= 512
      modifies vram
      ensures vram[..] == FillRect(old(vram[..]), x, y, w, h, v)
    {
      ghost var before := vram[..];
      var yy := 0;
      while yy < h
        invariant 0 <= yy <= h
        invariant forall i :: 0 <= i < CELLS ==>
          vram[i] == if Column(i, x) < w && Row(i, y) < yy then v else before[i]
      {
        var xx := 0;
        while xx < w
          invariant 0 <= xx <= w
          invariant forall i :: 0 <= i < CELLS ==>
            vram[i] == if Column(i, x) < w && (Row(i, y) < yy || (Row(i, y) == yy && Column(i, x) < xx)) then v
                       else before[i]
        {
          PlaceOf(x, y, xx, yy);
          forall i | 0 <= i < CELLS && Column(i, x) == xx && Row(i, y) == yy
            ensures i == CellIndex(x + xx, y + yy)
          {
            CellOf(i, x, y);
          }
          vram[CellIndex(x + xx, y + yy)] := v;
          xx := xx + 1;
        }
        yy := yy + 1;
      }
    }

    /** The copy loops: the source rectangle into a buffer, the buffer out again. */
    method CopyLoop(sx: int, sy: int, dx: int, dy: int, w: int, h: int)
      requires vram.Length == CELLS && 0 < w <= 1024 && 0 < h <= 512
      modifies vram
      ensures vram[..] == CopyRect(old(vram[..]), sx, sy, dx, dy, w, h, regs.mask)
    {
      InBuffer(0, 0, w, h);
      var tmp := new Half[h * w];
      ReadRect(sx, sy, w, h, tmp);
      CopyThroughBuffer(vram[..], sx, sy, dx, dy, w, h, regs.mask);
      StoreRect(dx, dy, w, h, tmp);
    }

    method StoreRect(dx: int, dy: int, w: int, h: int, tmp: array<Half>)
      requires vram.Length == CELLS && 0 < w <= 1024 && 0 < h <= 512 && tmp.Length == h * w
      requires tmp != vram
      modifies vram
      ensures vram[..] == UploadRect(old(vram[..]), dx, dy, w, tmp[..], regs.mask)
    {
      hide UploadRect, PutMasked;
      ghost var before: Vram, px := vram[..], tmp[..];
      UploadNothing(before, dx, dy, w, regs.mask);
      ghost var n := 0;
      assert px[..n] == [];
      var yy := 0;
      while yy < h
        invariant 0 <= yy <= h && n == yy * w && 0 <= n <= |px|
        invariant tmp[..] == px
        invariant vram[..] == UploadRect(before, dx, dy, w, px[..n], regs.mask)
      {
        var xx := 0;
        while xx < w
          invariant 0 <= xx <= w && n == yy * w + xx && 0 <= n <= |px|
          invariant tmp[..] == px
          invariant vram[..] == UploadRect(before, dx, dy, w, px[..n], regs.mask)
        {
          CopyStep(before, dx, dy, w, h, px, xx, yy, regs.mask);
          VramPutMasked(dx + xx, dy + yy, tmp[yy * w + xx]);
          xx := xx + 1;
          n := n + 1;
        }
        assert (yy + 1) * w == yy * w + w;
        yy := yy + 1;
      }
      assert px[..n] == px;
    }

    method ReadRect(sx: int, sy: int, w: int, h: int, tmp: array<Half>)
      requires vram.Length == CELLS && 0 < w <= 1024 && 0 < h <= 512 && tmp.Length == h * w
      requires tmp != vram
      modifies tmp
      ensures tmp[..] == RectPixels(vram[..], sx, sy, w, tmp.Length)
    {
      ghost var n: nat := 0;
      var yy := 0;
      while yy < h
        invariant 0 <= yy <= h && n == yy * w && n <= tmp.Length
        invariant tmp[..n] == RectPixels(vram[..], sx, sy, w, n)
      {
        var xx := 0;
        while xx < w
          invariant 0 <= xx <= w && n == yy * w + xx && n <= tmp.Length
          invariant tmp[..n] == RectPixels(vram[..], sx, sy, w, n)
        {
          InBuffer(yy, xx, w, h);
          RectPixelsSnoc(vram[..], sx, sy, w, xx, yy);
          tmp[yy * w + xx] := vram[CellIndex(sx + xx, sy + yy)];
          assert tmp[..n + 1] == tmp[..n] + [tmp[n]];
          xx := xx + 1;
          n := n + 1;
        }
        assert (yy + 1) * w == yy * w + w;
        yy := yy + 1;
      }
      assert tmp[..n] == tmp[..];
    }

    /** The renderer's result becomes the video memory. */
    method Render(after: Vram)
      requires vram.Length == CELLS
      modifies vram
      ensures vram[..] == after
    {
      forall i | 0 <= i < CELLS {
        vram[i] := after[i];
      }
    }

    method ExecRegister(cmd: Byte, pr: seq<Word>)
      requires |pr| == ParamCount(cmd)
      modifies this`regs
      ensures regs == ExecRegs(old(regs), cmd, pr)
    {
      if cmd == 0x1F {
        if regs.gpustat / 0x1000000 % 2 == 0 {
          regs := regs.(gpustat := regs.gpustat + 0x1000000);
        }
      } else if cmd == 0xE1 {
        regs := regs.(tpage := pr[0] % 0x200 + pr[0] / 0x800 % 2 * 0x800);
      } else if cmd == 0xE2 {
        regs := regs.(texwin := pr[0] % 0x100000);
      } else if cmd == 0xE3 {
        regs := regs.(areaX1 := pr[0] % 0x400, areaY1 := pr[0] / 0x400 % 0x200);
      } else if cmd == 0xE4 {
        regs := regs.(areaX2 := pr[0] % 0x400, areaY2 := pr[0] / 0x400 % 0x200);
      } else if cmd == 0xE5 {
        regs := regs.(offX := SignedOffset(pr[0]), offY := SignedOffset(pr[0] / 0x800));
      } else if cmd == 0xE6 {
        regs := regs.(mask := Mask(pr[0] % 2 == 1, pr[0] / 2 % 2 == 1));
      }
    }

    method ExecFill(first: Word, pr: seq<Word>)
      requires vram.Length == CELLS && |pr| == 2
      modifies vram
      ensures vram[..] == FillCommand(old(vram[..]), first, pr)
    {
      FillLoop(PackedX(pr[0]) / 16 * 16, PackedY(pr[0]), (PackedX(pr[1]) + 15) / 16 * 16, PackedY(pr[1]),
               Rgb24To15(first % 0x1000000));
    }

    method ExecCopy(pr: seq<Word>)
      requires vram.Length == CELLS && |pr| == 3
      modifies vram
      ensures vram[..] == CopyCommand(old(vram[..]), regs.mask, pr)
    {
      var w, h := PackedX(pr[2]), PackedY(pr[2]);
      if w == 0 || h == 0 {
        return;
      }
      CopyLoop(PackedX(pr[0]), PackedY(pr[0]), PackedX(pr[1]), PackedY(pr[1]), w, h);
    }

    method ExecGp0(first: Word, pr: seq<Word>)
      requires Shape() && Framing() == Idle && |pr| == ParamCount(Opcode(first))
      modifies this`regs, this`readOut, vram
      ensures Shape() && State() == Exec(env, old(State()), first, pr)
    {
      var cmd := Opcode(first);
      if cmd == 0x02 {
        ExecFill(first, pr);
      } else if cmd == 0x80 {
        ExecCopy(pr);
      } else if cmd == 0xC0 {
        readOut := ReadCommand(pr);
      } else if 0x20 <= cmd <= 0x7F {
        Render(env.render(vram[..], regs, first, pr));
      } else {
        ExecRegister(cmd, pr);
      }
    }

    /** Streaming data of a running upload: up to two halfwords. */
    method StreamData(v: Word)
      requires Valid() && xferActive
      modifies this`xferActive, this`xferLeft, this`xferX, this`xferY, vram
      ensures Valid() && State() == StreamWord(old(State()), v)
    {
      hide StreamHalf;
      WriteGp0KeepsValid(env, State(), v);
      ghost var g := State();
      var k := 0;
      while k < 2
        invariant 0 <= k <= 2 && Shape() && xferActive && xferLeft >= 0
        invariant State() == if k == 0 then g
                             else if k == 1 then StreamHalf(g, Low16(v))
                             else StreamHalf(StreamHalf(g, Low16(v)), High16(v))
      {
        if xferLeft == 0 {
          FullTakesNothing(State(), High16(v));
          break;
        }
        StreamOne(if k == 0 then Low16(v) else High16(v));
        k := k + 1;
      }
      if xferLeft == 0 {
        xferActive := false;
      }
    }

    /** One halfword of an upload that still wants some. */
    method StreamOne(half: Half)
      requires Shape() && xferActive && xferLeft > 0
      modifies this`xferLeft, this`xferX, this`xferY, vram
      ensures Shape() && xferLeft >= 0 && State() == StreamHalf(old(State()), half)
    {
      hide PutMasked;
      VramPutMasked(xferX, xferY, half);
      xferX := xferX + 1;
      if xferX >= xferX0 + xferW {
        xferX := xferX0;
        xferY := xferY + 1;
      }
      xferLeft := xferLeft - 1;
    }

    method ClearFifo()
      requires vram.Length == CELLS && fifo.Length == 64 && (vram as object) != fifo && !xferActive
      modifies this`fifoLen, this`fifoNeed, this`fifoActive
      ensures Shape() && State() == Gpu(vram[..], regs, readOut, Idle, gread)
    {
      fifoLen, fifoNeed, fifoActive := 0, 0, false;
    }

    /** The first word of a command. */
    method FirstWord(v: Word)
      requires Valid() && !xferActive && !fifoActive
      modifies this, vram, fifo
      ensures Valid() && State() == PsxGp0.WriteGp0(env, old(State()), v)
    {
      WriteGp0KeepsValid(env, State(), v);
      var cmd := Opcode(v);
      var n := ParamCount(cmd);
      if cmd != 0xA0 && n == 0 {
        ExecGp0(v, []);
        return;
      }
      fifo[0] := v;
      fifoLen := 1;
      fifoNeed := if cmd == 0xA0 then 2 else if n < 0 then 0xFF else n;
      fifoActive := true;
      assert fifo[..1] == [v];
    }

    /** A poly-line word is in the buffer: draw if it was the last one. */
    method EndPolyline(v: Word, ghost words: seq<Word>)
      requires vram.Length == CELLS && fifo.Length == 64 && (vram as object) != fifo && !xferActive && fifoActive
      requires 2 <= fifoLen <= 63 && fifo[..fifoLen] == words && IsPolyline(Opcode(words[0])) && fifoNeed == 0xFF
      modifies this`fifoLen, this`fifoNeed, this`fifoActive, vram
      ensures Shape()
      ensures State() == if Terminator(v) || |words| >= 63
                         then ExecPolyline(env, Gpu(old(vram[..]), regs, readOut, Idle, gread), words)
                         else Gpu(old(vram[..]), regs, readOut, Collect(words), gread)
    {
      if Terminator(v) || fifoLen >= 63 {
        var count := fifoLen - 2;
        if count > 62 {
          count := 62;
        }
        assert fifo[0] == words[0];
        var first, params := Opcode(fifo[0]), fifo[1..1 + count];
        assert params == words[1..|words| - 1];
        ClearFifo();
        Render(env.polyline(vram[..], regs, first, params));
      } else {
        assert fifo[0] == words[0];
      }
    }

    /** Coordinate and size of an upload are in: switch to streaming. */
    method BeginStream(coord: Word, size: Word)
      requires vram.Length == CELLS && fifo.Length == 64 && (vram as object) != fifo && !xferActive
      modifies this
      ensures Shape() && State() == BeginUpload(Gpu(vram[..], old(regs), old(readOut), Idle, old(gread)), coord, size)
    {
      ClearFifo();
      var dx, dy, w, h := PackedX(coord), PackedY(coord), PackedX(size), PackedY(size);
      if w > 0 && h > 0 {
        xferActive := true;
        xferLeft := w * h;
        xferX, xferY, xferX0, xferW := dx, dy, dx, w;
      }
    }

    /** A further word of the command being collected. */
    method NextWord(v: Word)
      requires Valid() && !xferActive && fifoActive
      modifies this, vram, fifo
      ensures Valid() && State() == PsxGp0.WriteGp0(env, old(State()), v)
    {
      hide Exec, ExecPolyline, Terminator, PackedX, PackedY;
      WriteGp0KeepsValid(env, State(), v);
      ghost var words := State().framer.words + [v];
      fifo[fifoLen] := v;
      fifoLen := fifoLen + 1;
      assert fifo[..fifoLen] == words && fifo[0] == words[0];
      if fifoNeed == 0xFF {
        EndPolyline(v, words);
      } else if Opcode(fifo[0]) == 0xA0 && fifoLen == 3 {
        assert fifo[1] == words[1] && fifo[2] == words[2];
        BeginStream(fifo[1], fifo[2]);
      } else if fifoLen >= fifoNeed + 1 {
        var first, params := fifo[0], fifo[1..fifoLen];
        assert params == words[1..];
        ClearFifo();
        ExecGp0(first, params);
      }
    }

    method WriteGp0(v: Word)
      requires Valid()
      modifies this, vram, fifo
      ensures Valid() && State() == PsxGp0.WriteGp0(env, old(State()), v)
    {
      if xferActive {
        StreamData(v);
      } else if !fifoActive {
        FirstWord(v);
      } else {
        NextWord(v);
      }
    }

    /** GP1(01h): drop the command being collected and the upload being streamed. */
    method ResetCommandBuffer()
      requires Valid()
      modifies this`fifoLen, this`fifoNeed, this`fifoActive, this`xferActive
      ensures Valid() && State() == old(State()).(framer := Idle)
    {
      fifoLen, fifoNeed, fifoActive, xferActive := 0, 0, false, false;
    }

    method StepRead() returns (more: bool)
      requires readOut.pending
      modifies this`readOut
      ensures readOut == Advance(old(readOut)) && more == readOut.pending
    {
      readOut := readOut.(px := readOut.px + 1);
      if readOut.px >= readOut.x + readOut.w {
        readOut := readOut.(px := readOut.x, py := readOut.py + 1);
        if readOut.py >= readOut.y + readOut.h {
          readOut := readOut.(pending := false);
        }
      }
      more := readOut.pending;
    }

    method ReadGpu() returns (v: Word)
      requires Valid()
      modifies this`readOut
      ensures Valid() && (v, State()) == Read(old(State()))
    {
      if !readOut.pending {
        return gread;
      }
      var h0 := vram[CellIndex(readOut.px, readOut.py)];
      var more := StepRead();
      if !more {
        return h0;
      }
      var h1 := vram[CellIndex(readOut.px, readOut.py)];
      v := Pack(h0, h1);
      more := StepRead();
    }

    /** A burst of words, and what it amounts to once the stream is parsed. */
    method WriteAll(ws: seq<Word>)
      requires Valid()
      modifies this, vram, fifo
      ensures Valid() && State() == Run(env, old(State()), ws)
    {
      ghost var g := State();
      var i := 0;
      while i < |ws|
        invariant 0 <= i <= |ws| && Valid()
        invariant State() == Run(env, g, ws[..i])
      {
        RunSnoc(env, g, ws, i);
        WriteGp0(ws[i]);
        i := i + 1;
      }
      assert ws[..i] == ws;
    }
  }
}
