/** The GP0 port of the PlayStation GPU as a state machine that takes one word at
    a time, together with GPUREAD. What a render command draws is a parameter:
    everything proved here holds for every renderer. */
module PsxGp0 {
  import opened Words
  import opened PsxVram

  datatype Regs = Regs(tpage: Word, texwin: Word,
                       areaX1: int, areaY1: int, areaX2: int, areaY2: int,
                       offX: int, offY: int, mask: Mask, gpustat: Word)

  /** The VRAM-to-CPU transfer: the rectangle and the next pixel. */
  datatype ReadOut = ReadOut(x: int, y: int, w: int, h: int, px: int, py: int, pending: bool)

  /** Where the port is: between commands, collecting a command's words, or
      streaming the halfwords of an upload. */
  datatype Framer =
    | Idle
    | Collect(words: seq<Word>)
    | Stream(left: int, x: int, y: int, x0: int, w: int)

  /** `gread` is what GPUREAD answers while no transfer is pending. */
  datatype Gpu = Gpu(vram: Vram, regs: Regs, readOut: ReadOut, framer: Framer, gread: Word)

  /** The renderer: what the memory looks like after a render command, given its
      command word and parameters. */
  datatype Renderer = Renderer(render: (Vram, Regs, Word, seq<Word>) -> Vram,
                               polyline: (Vram, Regs, Word, seq<Word>) -> Vram)

  // ---- command table --------------------------------------------------------

  function Opcode(v: Word): (c: Byte) {
    v / 0x1000000
  }

  predicate IsPolyline(cmd: Byte) {
    cmd in {0x48, 0x4A, 0x58, 0x5A}
  }

  /** Parameter words after the command word; -1 for the terminated poly-lines. */
  function ParamCount(cmd: Byte): (n: int)
    ensures -1 <= n <= 11
    ensures n == -1 <==> IsPolyline(cmd)
  {
    if cmd == 0x02 then 2
    else if cmd in {0x20, 0x22} then 3
    else if cmd in {0x28, 0x2A} then 4
    else if 0x24 <= cmd <= 0x27 then 6
    else if 0x2C <= cmd <= 0x2F then 8
    else if cmd in {0x30, 0x32} then 5
    else if cmd in {0x38, 0x3A} then 7
    else if cmd in {0x34, 0x36} then 8
    else if cmd in {0x3C, 0x3E} then 11
    else if cmd in {0x40, 0x42} then 2
    else if cmd in {0x50, 0x52} then 3
    else if IsPolyline(cmd) then -1
    else if cmd in {0x60, 0x62} then 2
    else if cmd in {0x68, 0x6A, 0x70, 0x72, 0x78, 0x7A} then 1
    else if 0x64 <= cmd <= 0x67 then 3
    else if 0x6C <= cmd <= 0x6F || 0x74 <= cmd <= 0x77 || 0x7C <= cmd <= 0x7F then 2
    else if cmd == 0x80 then 3
    else if cmd == 0xC0 then 2
    else if 0xE1 <= cmd <= 0xE6 then 1
    else 0
  }

  /** 5xxx5xxxh ends a poly-line. */
  predicate Terminator(v: Word) {
    v / 0x10000000 == 5 && v / 0x1000 % 0x10 == 5
  }

  // Packed coordinate and size words: 10 bits across, 9 bits down.

  function PackedX(v: Word): (x: int)
    ensures 0 <= x < 1024
  {
    v % 0x400
  }

  function PackedY(v: Word): (y: int)
    ensures 0 <= y < 512
  {
    v / 0x10000 % 0x200
  }

  /** An 11-bit drawing offset, biased by 1024. */
  function SignedOffset(field: int): int {
    field % 0x800 - 1024
  }

  // ---- commands -------------------------------------------------------------

  function Rgb24To15(c: Word): Half {
    c % 0x100 / 8 + c / 0x100 % 0x100 / 8 * 0x20 + c / 0x10000 % 0x100 / 8 * 0x400
  }

  function FillCommand(vram: Vram, first: Word, pr: seq<Word>): Vram
    requires |pr| == 2
  {
    FillRect(vram, PackedX(pr[0]) / 16 * 16, PackedY(pr[0]), (PackedX(pr[1]) + 15) / 16 * 16, PackedY(pr[1]),
             Rgb24To15(first % 0x1000000))
  }

  /** The registers after a fully received command. */
  function ExecRegs(r: Regs, cmd: Byte, pr: seq<Word>): Regs
    requires |pr| == ParamCount(cmd)
  {
    if cmd == 0x1F then
      r.(gpustat := if r.gpustat / 0x1000000 % 2 == 1 then r.gpustat else r.gpustat + 0x1000000)
    else if cmd == 0xE1 then r.(tpage := pr[0] % 0x200 + pr[0] / 0x800 % 2 * 0x800)
    else if cmd == 0xE2 then r.(texwin := pr[0] % 0x100000)
    else if cmd == 0xE3 then r.(areaX1 := pr[0] % 0x400, areaY1 := pr[0] / 0x400 % 0x200)
    else if cmd == 0xE4 then r.(areaX2 := pr[0] % 0x400, areaY2 := pr[0] / 0x400 % 0x200)
    else if cmd == 0xE5 then r.(offX := SignedOffset(pr[0]), offY := SignedOffset(pr[0] / 0x800))
    else if cmd == 0xE6 then r.(mask := Mask(pr[0] % 2 == 1, pr[0] / 2 % 2 == 1))
    else r
  }

  function CopyCommand(vram: Vram, mask: Mask, pr: seq<Word>): Vram
    requires |pr| == 3
  {
    var w, h := PackedX(pr[2]), PackedY(pr[2]);
    if w == 0 || h == 0 then vram
    else CopyRect(vram, PackedX(pr[0]), PackedY(pr[0]), PackedX(pr[1]), PackedY(pr[1]), w, h, mask)
  }

  function ReadCommand(pr: seq<Word>): ReadOut
    requires |pr| == 2
  {
    var x, y, w, h := PackedX(pr[0]), PackedY(pr[0]), PackedX(pr[1]), PackedY(pr[1]);
    ReadOut(x, y, w, h, x, y, w > 0 && h > 0)
  }

  /** Executes a fully received command. */
  function Exec(env: Renderer, g: Gpu, first: Word, pr: seq<Word>): Gpu
    requires |pr| == ParamCount(Opcode(first))
  {
    var cmd := Opcode(first);
    if cmd == 0x02 then g.(vram := FillCommand(g.vram, first, pr))
    else if cmd == 0x80 then g.(vram := CopyCommand(g.vram, g.regs.mask, pr))
    else if cmd == 0xC0 then g.(readOut := ReadCommand(pr))
    else if 0x20 <= cmd <= 0x7F then g.(vram := env.render(g.vram, g.regs, first, pr))
    else g.(regs := ExecRegs(g.regs, cmd, pr))
  }

  /** A finished poly-line: the renderer is handed the opcode in place of the
      command word, and all but the last collected word. */
  function ExecPolyline(env: Renderer, g: Gpu, words: seq<Word>): Gpu
    requires |words| >= 2
  {
    g.(vram := env.polyline(g.vram, g.regs, Opcode(words[0]), words[1..|words| - 1]))
  }

  // ---- the port, one word at a time -----------------------------------------

  /** One halfword of a running upload; nothing once none is left. */
  function StreamHalf(g: Gpu, half: Half): (g2: Gpu)
    requires g.framer.Stream?
    ensures g2.framer.Stream?
  {
    var f := g.framer;
    if f.left == 0 then g
    else
      var wraps := f.x + 1 >= f.x0 + f.w;
      g.(vram := PutMasked(g.vram, f.x, f.y, half, g.regs.mask),
         framer := Stream(f.left - 1, if wraps then f.x0 else f.x + 1, if wraps then f.y + 1 else f.y, f.x0, f.w))
  }

  function StreamWord(g: Gpu, v: Word): Gpu
    requires g.framer.Stream?
  {
    var g2 := StreamHalf(StreamHalf(g, Low16(v)), High16(v));
    if g2.framer.left == 0 then g2.(framer := Idle) else g2
  }

  function BeginUpload(g: Gpu, coord: Word, size: Word): Gpu {
    var x, y, w, h := PackedX(coord), PackedY(coord), PackedX(size), PackedY(size);
    if w > 0 && h > 0 then g.(framer := Stream(w * h, x, y, x, w)) else g.(framer := Idle)
  }

  /** The words a port may have collected before a command is complete. */
  predicate Pending(words: seq<Word>) {
    && |words| >= 1
    && var cmd := Opcode(words[0]);
      if IsPolyline(cmd) then |words| <= 62 && forall i :: 1 <= i < |words| ==> !Terminator(words[i])
      else if cmd == 0xA0 then |words| <= 2
      else |words| <= ParamCount(cmd)
  }

  predicate Valid(g: Gpu) {
    match g.framer
    case Idle => true
    case Collect(words) => Pending(words)
    case Stream(left, x, y, x0, w) => left > 0 && x0 <= x < x0 + w
  }

  function WriteGp0(env: Renderer, g: Gpu, v: Word): (g2: Gpu)
    requires Valid(g)
  {
    match g.framer
    case Stream(_, _, _, _, _) => StreamWord(g, v)
    case Idle =>
      var cmd := Opcode(v);
      if cmd == 0xA0 then g.(framer := Collect([v]))
      else if ParamCount(cmd) == 0 then Exec(env, g, v, [])
      else g.(framer := Collect([v]))
    case Collect(before) =>
      var words := before + [v];
      var cmd, idle := Opcode(words[0]), g.(framer := Idle);
      if IsPolyline(cmd) then
        if Terminator(v) || |words| >= 63 then ExecPolyline(env, idle, words)
        else g.(framer := Collect(words))
      else if cmd == 0xA0 && |words| == 3 then BeginUpload(g, words[1], words[2])
      else if cmd != 0xA0 && |words| >= ParamCount(cmd) + 1 then Exec(env, idle, words[0], words[1..])
      else g.(framer := Collect(words))
  }

  /** What every word keeps: an active command buffer stays below its 64 entries
      and a running upload stays inside its row. */
  lemma WriteGp0KeepsValid(env: Renderer, g: Gpu, v: Word)
    requires Valid(g)
    ensures Valid(WriteGp0(env, g, v))
    ensures WriteGp0(env, g, v).framer.Collect? ==> 1 <= |WriteGp0(env, g, v).framer.words| < 63
  {
  }

  function Run(env: Renderer, g: Gpu, ws: seq<Word>): (g2: Gpu)
    requires Valid(g)
    ensures Valid(g2)
    decreases |ws|
  {
    if ws == [] then g
    else
      WriteGp0KeepsValid(env, g, ws[0]);
      Run(env, WriteGp0(env, g, ws[0]), ws[1..])
  }

  lemma {:induction false} RunAppend(env: Renderer, g: Gpu, a: seq<Word>, b: seq<Word>)
    requires Valid(g)
    ensures Run(env, g, a + b) == Run(env, Run(env, g, a), b)
    decreases |a|
  {
    if a == [] {
      assert a + b == b;
    } else {
      WriteGp0KeepsValid(env, g, a[0]);
      assert (a + b)[1..] == a[1..] + b;
      RunAppend(env, WriteGp0(env, g, a[0]), a[1..], b);
    }
  }

  // ---- GPUREAD --------------------------------------------------------------

  /** One pixel further in row order, wrapping at the right edge; past the last
      row the transfer is over. */
  function Advance(r: ReadOut): ReadOut {
    if r.px + 1 >= r.x + r.w then
      r.(px := r.x, py := r.py + 1, pending := r.py + 1 < r.y + r.h)
    else r.(px := r.px + 1)
  }

  /** A word of a pending transfer: two pixels, or one when only one is left. */
  function ReadWord(vram: Vram, r: ReadOut): (res: (Word, ReadOut))
    requires r.pending
  {
    var h0, r1 := Get(vram, r.px, r.py), Advance(r);
    if !r1.pending then (h0, r1)
    else (Pack(h0, Get(vram, r1.px, r1.py)), Advance(r1))
  }

  function Read(g: Gpu): (res: (Word, Gpu)) {
    if !g.readOut.pending then (g.gread, g)
    else
      var (v, r) := ReadWord(g.vram, g.readOut);
      (v, g.(readOut := r))
  }

  /** The words of n successive reads, and the state after them. */
  function ReadMany(g: Gpu, n: nat): (res: (seq<Word>, Gpu))
    ensures |res.0| == n
  {
    if n == 0 then ([], g)
    else
      var (ws, g1) := ReadMany(g, n - 1);
      var (v, g2) := Read(g1);
      (ws + [v], g2)
  }
}
