/** What the NES core puts in a save state, field by field in order. */
module NesState {
  import opened Words
  import opened StateIo

  const MAGIC: Word := 0x46554D45
  const VERSION: Word := 1
  const CORE: Word := 2

  /** The 6502's registers. */
  datatype Cpu = Cpu(
    a: Byte, x: Byte, y: Byte, s: Byte, p: Byte, pc: Half, nmiPending: Byte, irqLine: Byte,
    dmaStall: Word)

  /** The picture unit's registers and counters. */
  datatype Ppu = Ppu(
    ctrl: Byte, mask: Byte, status: Byte, oamAddr: Byte, openBus: Byte, v: Half, t: Half,
    fineX: Byte, w: Byte, readBuffer: Byte, scanline: Half, dot: Half, oddFrame: Byte,
    vblankEvent: Byte, nmiLine: Byte, nmiOutPrev: Byte)

  /** The sound unit's frame sequencer. */
  datatype Sequencer = Sequencer(
    frameCycles: Word, frameStep: Word, mode5: Byte, irqInhibit: Byte, frameIrq: Byte)

  /** A pulse channel. */
  datatype Pulse = Pulse(
    enabled: Byte, duty: Byte, dutyPos: Byte, timer: Half, period: Half, lenCounter: Byte,
    lenEnable: Byte, envVolume: Byte, envPeriod: Byte, envTimer: Byte, envDirection: Byte,
    volume: Byte, constantVolume: Byte, sweepEnable: Byte, sweepPeriod: Byte, sweepTimer: Byte,
    sweepNegate: Byte, sweepShift: Byte, sweepReload: Byte, freq: Half, dac: Byte)

  /** The triangle channel. */
  datatype Triangle = Triangle(
    enabled: Byte, timer: Half, period: Half, seqPos: Byte, lenCounter: Byte, lenEnable: Byte,
    linearCounter: Byte, linearReload: Byte, linearCtrl: Byte, linearReloadFlag: Byte)

  /** The noise channel. */
  datatype Noise = Noise(
    enabled: Byte, timer: Half, period: Half, lfsr: Half, mode: Byte, lenCounter: Byte,
    lenEnable: Byte, envVolume: Byte, envPeriod: Byte, envTimer: Byte, envDirection: Byte,
    volume: Byte, constantVolume: Byte, dac: Byte)

  /** The sample channel. */
  datatype Dmc = Dmc(
    enabled: Byte, irqEnable: Byte, loop: Byte, rate: Half, timer: Half, outputLevel: Byte,
    sampleAddr: Half, sampleLen: Half, bytesRemaining: Half, addrCounter: Half, sampleBuffer: Byte,
    bufferEmpty: Byte, shift: Byte, bitsRemaining: Byte, silence: Byte, irqFlag: Byte)

  /** The cartridge header and the MMC1 shift register. */
  datatype Mapper1 = Mapper1(
    mapper: Byte, mirroring: Byte, mmc1Shift: Byte, mmc1ShiftCount: Byte)

  /** The bank registers. */
  datatype Banks = Banks(
    prgBank: Byte, chrBank: Byte, mmc3RegSelect: Byte)

  /** The MMC3 interrupt counter and the CHR RAM flag. */
  datatype Mapper4 = Mapper4(
    irqLatch: Byte, irqCounter: Byte, irqReloadPending: Byte, irqEnable: Byte, irqAsserted: Byte,
    a12Prev: Byte, chrRam: Byte)

  /** The processor, its work RAM and the picture unit. */
  datatype Machine = Machine(
    cpu: Cpu, ram: seq<Byte>, vram: seq<Byte>, palette: seq<Byte>, oam: seq<Byte>, ppu: Ppu)

  /** The sound unit; `outPos` is wider in the machine than in a blob. */
  datatype Sound = Sound(
    sequencer: Sequencer, pulse0: Pulse, pulse1: Pulse, triangle: Triangle, noise: Noise, dmc: Dmc,
    sampleAcc: Word, outPos: nat)

  /** The controller port; `buttons` is wider in the machine than in a blob. */
  datatype Pad = Pad(buttons: Word, shift: Byte, strobe: Byte)

  datatype Cart = Cart(
    mapper1: Mapper1, mmc1Regs: seq<Byte>, banks: Banks, mmc3Regs: seq<Byte>, mapper4: Mapper4,
    prgRam: Option<seq<Byte>>)

  /** Everything a save state holds. */
  datatype Nes = Nes(machine: Machine, sound: Sound, pad: Pad, cart: Cart, totalCycles: Long)

  function CpuLog(l: Log, g: Cpu): Log {
    l.U8(g.a).U8(g.x).U8(g.y).U8(g.s).U8(g.p).U16(g.pc).U8(g.nmiPending).U8(g.irqLine)
      .U32(g.dmaStall)
  }

  function PpuLog(l: Log, g: Ppu): Log {
    l.U8(g.ctrl).U8(g.mask).U8(g.status).U8(g.oamAddr).U8(g.openBus).U16(g.v).U16(g.t).U8(g.fineX)
      .U8(g.w).U8(g.readBuffer).U16(g.scanline).U16(g.dot).U8(g.oddFrame).U8(g.vblankEvent)
      .U8(g.nmiLine).U8(g.nmiOutPrev)
  }

  function SequencerLog(l: Log, g: Sequencer): Log {
    l.U32(g.frameCycles).U32(g.frameStep).U8(g.mode5).U8(g.irqInhibit).U8(g.frameIrq)
  }

  function PulseLog(l: Log, g: Pulse): Log {
    l.U8(g.enabled).U8(g.duty).U8(g.dutyPos).U16(g.timer).U16(g.period).U8(g.lenCounter)
      .U8(g.lenEnable).U8(g.envVolume).U8(g.envPeriod).U8(g.envTimer).U8(g.envDirection)
      .U8(g.volume).U8(g.constantVolume).U8(g.sweepEnable).U8(g.sweepPeriod).U8(g.sweepTimer)
      .U8(g.sweepNegate).U8(g.sweepShift).U8(g.sweepReload).U16(g.freq).U8(g.dac)
  }

  function TriangleLog(l: Log, g: Triangle): Log {
    l.U8(g.enabled).U16(g.timer).U16(g.period).U8(g.seqPos).U8(g.lenCounter).U8(g.lenEnable)
      .U8(g.linearCounter).U8(g.linearReload).U8(g.linearCtrl).U8(g.linearReloadFlag)
  }

  function NoiseLog(l: Log, g: Noise): Log {
    l.U8(g.enabled).U16(g.timer).U16(g.period).U16(g.lfsr).U8(g.mode).U8(g.lenCounter)
      .U8(g.lenEnable).U8(g.envVolume).U8(g.envPeriod).U8(g.envTimer).U8(g.envDirection)
      .U8(g.volume).U8(g.constantVolume).U8(g.dac)
  }

  function DmcLog(l: Log, g: Dmc): Log {
    l.U8(g.enabled).U8(g.irqEnable).U8(g.loop).U16(g.rate).U16(g.timer).U8(g.outputLevel)
      .U16(g.sampleAddr).U16(g.sampleLen).U16(g.bytesRemaining).U16(g.addrCounter)
      .U8(g.sampleBuffer).U8(g.bufferEmpty).U8(g.shift).U8(g.bitsRemaining).U8(g.silence)
      .U8(g.irqFlag)
  }

  function Mapper1Log(l: Log, g: Mapper1): Log {
    l.U8(g.mapper).U8(g.mirroring).U8(g.mmc1Shift).U8(g.mmc1ShiftCount)
  }

  function BanksLog(l: Log, g: Banks): Log {
    l.U8(g.prgBank).U8(g.chrBank).U8(g.mmc3RegSelect)
  }

  function Mapper4Log(l: Log, g: Mapper4): Log {
    l.U8(g.irqLatch).U8(g.irqCounter).U8(g.irqReloadPending).U8(g.irqEnable).U8(g.irqAsserted)
      .U8(g.a12Prev).U8(g.chrRam)
  }

  /** Words the writer fixes and the reader skips. */
  datatype Frame = Frame(magic: Word, version: Word, core: Word, ramSize: Word)

  const WRITTEN: Frame := Frame(MAGIC, VERSION, CORE, 0x2000)

  function HeaderLog(l: Log, f: Frame): Log {
    l.U32(f.magic).U32(f.version).U32(f.core)
  }

  function MachineLog(l: Log, g: Machine): Log {
    PpuLog(CpuLog(l, g.cpu).Block(g.ram).Block(g.vram).Block(g.palette).Block(g.oam), g.ppu)
  }

  function SoundLog(l: Log, g: Sound): Log {
    var pulses := PulseLog(PulseLog(SequencerLog(l, g.sequencer), g.pulse0), g.pulse1);
    DmcLog(NoiseLog(TriangleLog(pulses, g.triangle), g.noise), g.dmc).U32(g.sampleAcc).U32(g.outPos)
  }

  function PadLog(l: Log, g: Pad): Log {
    l.U8(g.buttons).U8(g.shift).U8(g.strobe)
  }

  function CartLog(l: Log, g: Cart, ramSize: Word): Log {
    var regs := BanksLog(Mapper1Log(l, g.mapper1).Block(g.mmc1Regs), g.banks).Block(g.mmc3Regs);
    var ram := Mapper4Log(regs, g.mapper4).U32(ramSize);
    if g.prgRam.Some? then ram.Block(g.prgRam.value) else ram
  }

  function NesLog(n: Nes, f: Frame): Log {
    var l := SoundLog(MachineLog(HeaderLog(Start, f), n.machine), n.sound);
    CartLog(PadLog(l, n.pad), n.cart, f.ramSize).U64(n.totalCycles)
  }

  /** The memories have their fixed sizes. */
  predicate Sized(n: Nes) {
    SizedMachine(n.machine) && SizedCart(n.cart)
  }

  predicate SizedMachine(g: Machine) {
    |g.ram| == 0x800 && |g.vram| == 0x1000 && |g.palette| == 32 && |g.oam| == 256
  }

  predicate SizedCart(g: Cart) {
    |g.mmc1Regs| == 4 && |g.mmc3Regs| == 8 && (g.prgRam.Some? ==> |g.prgRam.value| == 0x2000)
  }

  /** The part of the state that a blob keeps: one byte of the buttons, four of the
      audio position. */
  function Narrowed(n: Nes): Nes {
    n.(sound := NarrowedSound(n.sound), pad := NarrowedPad(n.pad))
  }

  function NarrowedSound(g: Sound): Sound {
    g.(outPos := g.outPos % 0x1_0000_0000)
  }

  function NarrowedPad(g: Pad): Pad {
    g.(buttons := g.buttons % 0x100)
  }

  function Saved(n: Nes): seq<Byte> {
    Encode(NesLog(Narrowed(n), WRITTEN))
  }

  /** The blob's length depends only on whether the cartridge has work RAM. */
  function StateSize(hasRam: bool): nat {
    if hasRam then 14828 else 6636
  }

  lemma CpuLogged(l: Log, m: Log, base: Log, g: Cpu, h: Cpu)
    ensures Shape(l) == Shape(m) ==> Shape(CpuLog(l, g)) == Shape(CpuLog(m, h))
    ensures Kept(CpuLog(l, g)) == CpuLog(Kept(l), g)
    ensures Size(CpuLog(l, g)) == Size(l) + 13
    ensures Starts(l, base) ==> Starts(CpuLog(l, g), base)
  {
    hide Log.U8, Log.U16, Log.U32, Log.U64, Log.Block, Shape, Kept, Size, Starts;
    assert Shape(l) == Shape(m) ==> Shape(CpuLog(l, g)) == Shape(CpuLog(m, h)) by {
      ShapesGrow();
    }
    assert Kept(CpuLog(l, g)) == CpuLog(Kept(l), g) by {
      KeptGrows();
    }
    assert Size(CpuLog(l, g)) == Size(l) + 13 by {
      SizesGrow();
    }
    if Starts(l, base) {
      StartsGrow(base);
    }
  }

  lemma PpuLogged(l: Log, m: Log, base: Log, g: Ppu, h: Ppu)
    ensures Shape(l) == Shape(m) ==> Shape(PpuLog(l, g)) == Shape(PpuLog(m, h))
    ensures Kept(PpuLog(l, g)) == PpuLog(Kept(l), g)
    ensures Size(PpuLog(l, g)) == Size(l) + 20
    ensures Starts(l, base) ==> Starts(PpuLog(l, g), base)
  {
    hide Log.U8, Log.U16, Log.U32, Log.U64, Log.Block, Shape, Kept, Size, Starts;
    assert Shape(l) == Shape(m) ==> Shape(PpuLog(l, g)) == Shape(PpuLog(m, h)) by {
      ShapesGrow();
    }
    assert Kept(PpuLog(l, g)) == PpuLog(Kept(l), g) by {
      KeptGrows();
    }
    assert Size(PpuLog(l, g)) == Size(l) + 20 by {
      SizesGrow();
    }
    if Starts(l, base) {
      StartsGrow(base);
    }
  }

  lemma SequencerLogged(l: Log, m: Log, base: Log, g: Sequencer, h: Sequencer)
    ensures Shape(l) == Shape(m) ==> Shape(SequencerLog(l, g)) == Shape(SequencerLog(m, h))
    ensures Kept(SequencerLog(l, g)) == SequencerLog(Kept(l), g)
    ensures Size(SequencerLog(l, g)) == Size(l) + 11
    ensures Starts(l, base) ==> Starts(SequencerLog(l, g), base)
  {
    hide Log.U8, Log.U16, Log.U32, Log.U64, Log.Block, Shape, Kept, Size, Starts;
    assert Shape(l) == Shape(m) ==> Shape(SequencerLog(l, g)) == Shape(SequencerLog(m, h)) by {
      ShapesGrow();
    }
    assert Kept(SequencerLog(l, g)) == SequencerLog(Kept(l), g) by {
      KeptGrows();
    }
    assert Size(SequencerLog(l, g)) == Size(l) + 11 by {
      SizesGrow();
    }
    if Starts(l, base) {
      StartsGrow(base);
    }
  }

  lemma PulseLogged(l: Log, m: Log, base: Log, g: Pulse, h: Pulse)
    ensures Shape(l) == Shape(m) ==> Shape(PulseLog(l, g)) == Shape(PulseLog(m, h))
    ensures Kept(PulseLog(l, g)) == PulseLog(Kept(l), g)
    ensures Size(PulseLog(l, g)) == Size(l) + 24
    ensures Starts(l, base) ==> Starts(PulseLog(l, g), base)
  {
    hide Log.U8, Log.U16, Log.U32, Log.U64, Log.Block, Shape, Kept, Size, Starts;
    assert Shape(l) == Shape(m) ==> Shape(PulseLog(l, g)) == Shape(PulseLog(m, h)) by {
      ShapesGrow();
    }
    assert Kept(PulseLog(l, g)) == PulseLog(Kept(l), g) by {
      KeptGrows();
    }
    assert Size(PulseLog(l, g)) == Size(l) + 24 by {
      SizesGrow();
    }
    if Starts(l, base) {
      StartsGrow(base);
    }
  }

  lemma TriangleLogged(l: Log, m: Log, base: Log, g: Triangle, h: Triangle)
    ensures Shape(l) == Shape(m) ==> Shape(TriangleLog(l, g)) == Shape(TriangleLog(m, h))
    ensures Kept(TriangleLog(l, g)) == TriangleLog(Kept(l), g)
    ensures Size(TriangleLog(l, g)) == Size(l) + 12
    ensures Starts(l, base) ==> Starts(TriangleLog(l, g), base)
  {
    hide Log.U8, Log.U16, Log.U32, Log.U64, Log.Block, Shape, Kept, Size, Starts;
    assert Shape(l) == Shape(m) ==> Shape(TriangleLog(l, g)) == Shape(TriangleLog(m, h)) by {
      ShapesGrow();
    }
    assert Kept(TriangleLog(l, g)) == TriangleLog(Kept(l), g) by {
      KeptGrows();
    }
    assert Size(TriangleLog(l, g)) == Size(l) + 12 by {
      SizesGrow();
    }
    if Starts(l, base) {
      StartsGrow(base);
    }
  }

  lemma NoiseLogged(l: Log, m: Log, base: Log, g: Noise, h: Noise)
    ensures Shape(l) == Shape(m) ==> Shape(NoiseLog(l, g)) == Shape(NoiseLog(m, h))
    ensures Kept(NoiseLog(l, g)) == NoiseLog(Kept(l), g)
    ensures Size(NoiseLog(l, g)) == Size(l) + 17
    ensures Starts(l, base) ==> Starts(NoiseLog(l, g), base)
  {
    hide Log.U8, Log.U16, Log.U32, Log.U64, Log.Block, Shape, Kept, Size, Starts;
    assert Shape(l) == Shape(m) ==> Shape(NoiseLog(l, g)) == Shape(NoiseLog(m, h)) by {
      ShapesGrow();
    }
    assert Kept(NoiseLog(l, g)) == NoiseLog(Kept(l), g) by {
      KeptGrows();
    }
    assert Size(NoiseLog(l, g)) == Size(l) + 17 by {
      SizesGrow();
    }
    if Starts(l, base) {
      StartsGrow(base);
    }
  }

  lemma DmcLogged(l: Log, m: Log, base: Log, g: Dmc, h: Dmc)
    ensures Shape(l) == Shape(m) ==> Shape(DmcLog(l, g)) == Shape(DmcLog(m, h))
    ensures Kept(DmcLog(l, g)) == DmcLog(Kept(l), g)
    ensures Size(DmcLog(l, g)) == Size(l) + 22
    ensures Starts(l, base) ==> Starts(DmcLog(l, g), base)
  {
    hide Log.U8, Log.U16, Log.U32, Log.U64, Log.Block, Shape, Kept, Size, Starts;
    assert Shape(l) == Shape(m) ==> Shape(DmcLog(l, g)) == Shape(DmcLog(m, h)) by {
      ShapesGrow();
    }
    assert Kept(DmcLog(l, g)) == DmcLog(Kept(l), g) by {
      KeptGrows();
    }
    assert Size(DmcLog(l, g)) == Size(l) + 22 by {
      SizesGrow();
    }
    if Starts(l, base) {
      StartsGrow(base);
    }
  }

  lemma Mapper1Logged(l: Log, m: Log, base: Log, g: Mapper1, h: Mapper1)
    ensures Shape(l) == Shape(m) ==> Shape(Mapper1Log(l, g)) == Shape(Mapper1Log(m, h))
    ensures Kept(Mapper1Log(l, g)) == Mapper1Log(Kept(l), g)
    ensures Size(Mapper1Log(l, g)) == Size(l) + 4
    ensures Starts(l, base) ==> Starts(Mapper1Log(l, g), base)
  {
    hide Log.U8, Log.U16, Log.U32, Log.U64, Log.Block, Shape, Kept, Size, Starts;
    assert Shape(l) == Shape(m) ==> Shape(Mapper1Log(l, g)) == Shape(Mapper1Log(m, h)) by {
      ShapesGrow();
    }
    assert Kept(Mapper1Log(l, g)) == Mapper1Log(Kept(l), g) by {
      KeptGrows();
    }
    assert Size(Mapper1Log(l, g)) == Size(l) + 4 by {
      SizesGrow();
    }
    if Starts(l, base) {
      StartsGrow(base);
    }
  }

  lemma BanksLogged(l: Log, m: Log, base: Log, g: Banks, h: Banks)
    ensures Shape(l) == Shape(m) ==> Shape(BanksLog(l, g)) == Shape(BanksLog(m, h))
    ensures Kept(BanksLog(l, g)) == BanksLog(Kept(l), g)
    ensures Size(BanksLog(l, g)) == Size(l) + 3
    ensures Starts(l, base) ==> Starts(BanksLog(l, g), base)
  {
    hide Log.U8, Log.U16, Log.U32, Log.U64, Log.Block, Shape, Kept, Size, Starts;
    assert Shape(l) == Shape(m) ==> Shape(BanksLog(l, g)) == Shape(BanksLog(m, h)) by {
      ShapesGrow();
    }
    assert Kept(BanksLog(l, g)) == BanksLog(Kept(l), g) by {
      KeptGrows();
    }
    assert Size(BanksLog(l, g)) == Size(l) + 3 by {
      SizesGrow();
    }
    if Starts(l, base) {
      StartsGrow(base);
    }
  }

  lemma Mapper4Logged(l: Log, m: Log, base: Log, g: Mapper4, h: Mapper4)
    ensures Shape(l) == Shape(m) ==> Shape(Mapper4Log(l, g)) == Shape(Mapper4Log(m, h))
    ensures Kept(Mapper4Log(l, g)) == Mapper4Log(Kept(l), g)
    ensures Size(Mapper4Log(l, g)) == Size(l) + 7
    ensures Starts(l, base) ==> Starts(Mapper4Log(l, g), base)
  {
    hide Log.U8, Log.U16, Log.U32, Log.U64, Log.Block, Shape, Kept, Size, Starts;
    assert Shape(l) == Shape(m) ==> Shape(Mapper4Log(l, g)) == Shape(Mapper4Log(m, h)) by {
      ShapesGrow();
    }
    assert Kept(Mapper4Log(l, g)) == Mapper4Log(Kept(l), g) by {
      KeptGrows();
    }
    assert Size(Mapper4Log(l, g)) == Size(l) + 7 by {
      SizesGrow();
    }
    if Starts(l, base) {
      StartsGrow(base);
    }
  }

  lemma HeaderLogged(l: Log, m: Log, f: Frame, g: Frame)
    ensures Shape(l) == Shape(m) ==> Shape(HeaderLog(l, f)) == Shape(HeaderLog(m, g))
    ensures Kept(HeaderLog(l, f)) == HeaderLog(Kept(l), f)
    ensures Size(HeaderLog(l, f)) == Size(l) + 12
  {
    ShapesGrow();
    KeptGrows();
    SizesGrow();
  }

  lemma MachineLogged(l: Log, m: Log, base: Log, a: Machine, b: Machine)
    requires SizedMachine(a) && SizedMachine(b)
    ensures Shape(l) == Shape(m) ==> Shape(MachineLog(l, a)) == Shape(MachineLog(m, b))
    ensures Kept(MachineLog(l, a)) == MachineLog(Kept(l), a)
    ensures Size(MachineLog(l, a)) == Size(l) + 6465
    ensures Starts(l, base) ==> Starts(MachineLog(l, a), base)
  {
    hide Log.Block, Shape, Kept, Size, Starts, CpuLog, PpuLog;
    ShapesGrow();
    KeptGrows();
    SizesGrow();
    StartsGrow(base);
    CpuLogged(l, m, base, a.cpu, b.cpu);
    var c := CpuLog(l, a.cpu).Block(a.ram).Block(a.vram).Block(a.palette).Block(a.oam);
    var d := CpuLog(m, b.cpu).Block(b.ram).Block(b.vram).Block(b.palette).Block(b.oam);
    PpuLogged(c, d, base, a.ppu, b.ppu);
  }

  lemma SoundLogged(l: Log, m: Log, base: Log, a: Sound, b: Sound)
    ensures Shape(l) == Shape(m) ==> Shape(SoundLog(l, a)) == Shape(SoundLog(m, b))
    ensures Kept(SoundLog(l, a)) == SoundLog(Kept(l), NarrowedSound(a))
    ensures Size(SoundLog(l, a)) == Size(l) + 118
    ensures Starts(l, base) ==> Starts(SoundLog(l, a), base)
  {
    hide Log.U8, Shape, Size, Starts, SequencerLog, PulseLog, TriangleLog, NoiseLog, DmcLog;
    ShapesGrow();
    SizesGrow();
    StartsGrow(base);
    var s, t := SequencerLog(l, a.sequencer), SequencerLog(m, b.sequencer);
    SequencerLogged(l, m, base, a.sequencer, b.sequencer);
    PulseLogged(s, t, base, a.pulse0, b.pulse0);
    var p, q := PulseLog(s, a.pulse0), PulseLog(t, b.pulse0);
    PulseLogged(p, q, base, a.pulse1, b.pulse1);
    var u, v := PulseLog(p, a.pulse1), PulseLog(q, b.pulse1);
    TriangleLogged(u, v, base, a.triangle, b.triangle);
    var w, x := TriangleLog(u, a.triangle), TriangleLog(v, b.triangle);
    NoiseLogged(w, x, base, a.noise, b.noise);
    DmcLogged(NoiseLog(w, a.noise), NoiseLog(x, b.noise), base, a.dmc, b.dmc);
    Powers();
    var d := DmcLog(NoiseLog(w, a.noise), a.dmc);
    KeptGrows();
    assert Kept(d.U32(a.sampleAcc).U32(a.outPos)) == Kept(d.U32(a.sampleAcc)).U32(a.outPos % Power(4));
  }

  lemma PadLogged(l: Log, m: Log, base: Log, a: Pad, b: Pad)
    ensures Shape(l) == Shape(m) ==> Shape(PadLog(l, a)) == Shape(PadLog(m, b))
    ensures Kept(PadLog(l, a)) == PadLog(Kept(l), NarrowedPad(a))
    ensures Size(PadLog(l, a)) == Size(l) + 3
    ensures Starts(l, base) ==> Starts(PadLog(l, a), base)
  {
    hide Shape, Size, Starts;
    ShapesGrow();
    SizesGrow();
    StartsGrow(base);
    KeptGrows();
    Powers();
    assert Kept(l.U8(a.buttons)) == Kept(l).U8(a.buttons % Power(1));
  }

  lemma CartLogged(l: Log, m: Log, base: Log, a: Cart, b: Cart, f: Word, g: Word)
    requires SizedCart(a) && SizedCart(b) && a.prgRam.Some? == b.prgRam.Some?
    ensures Shape(l) == Shape(m) ==> Shape(CartLog(l, a, f)) == Shape(CartLog(m, b, g))
    ensures Kept(CartLog(l, a, f)) == CartLog(Kept(l), a, f)
    ensures Size(CartLog(l, a, f)) == Size(l) + 30 + if a.prgRam.Some? then 0x2000 else 0
    ensures Starts(l, base) ==> Starts(CartLog(l, a, f), base)
  {
    hide Log.U8, Log.Block, Shape, Kept, Size, Starts, Mapper1Log, BanksLog, Mapper4Log;
    ShapesGrow();
    KeptGrows();
    SizesGrow();
    StartsGrow(base);
    Mapper1Logged(l, m, base, a.mapper1, b.mapper1);
    var s, t := Mapper1Log(l, a.mapper1).Block(a.mmc1Regs), Mapper1Log(m, b.mapper1).Block(b.mmc1Regs);
    BanksLogged(s, t, base, a.banks, b.banks);
    var u, v := BanksLog(s, a.banks).Block(a.mmc3Regs), BanksLog(t, b.banks).Block(b.mmc3Regs);
    Mapper4Logged(u, v, base, a.mapper4, b.mapper4);
  }

  /** Two machines with the same kind of cartridge have blobs of one shape, a fixed
      size and the header in front; the blob keeps all but what is narrowed. */
  lemma NesLogged(a: Nes, b: Nes, f: Frame, g: Frame)
    requires Sized(a) && Sized(b) && a.cart.prgRam.Some? == b.cart.prgRam.Some?
    ensures Shape(NesLog(a, f)) == Shape(NesLog(b, g))
    ensures Kept(NesLog(a, f)) == NesLog(Narrowed(a), f)
    ensures Size(NesLog(a, f)) == StateSize(a.cart.prgRam.Some?)
    ensures Starts(NesLog(a, f), HeaderLog(Start, f))
  {
    hide Log.U8, Log.Block, Shape, Size, Starts, HeaderLog, MachineLog, SoundLog, PadLog, CartLog, Kept;
    HeaderLogged(Start, Start, f, g);
    EmptyLog();
    var base := HeaderLog(Start, f);
    var l, m := base, HeaderLog(Start, g);
    StartsGrow(base);
    MachineLogged(l, m, base, a.machine, b.machine);
    l, m := MachineLog(l, a.machine), MachineLog(m, b.machine);
    SoundLogged(l, m, base, a.sound, b.sound);
    l, m := SoundLog(l, a.sound), SoundLog(m, b.sound);
    PadLogged(l, m, base, a.pad, b.pad);
    l, m := PadLog(l, a.pad), PadLog(m, b.pad);
    CartLogged(l, m, base, a.cart, b.cart, f.ramSize, g.ramSize);
    ShapesGrow();
    SizesGrow();
    KeptGrows();
  }

  lemma EmptyLog()
    ensures Size(Start) == 0 && Kept(Start) == Start
  {
  }

  lemma LogDetermines(a: Nes, b: Nes, f: Frame, g: Frame)
    requires NesLog(a, f) == NesLog(b, g)
    requires a.cart.prgRam.Some? == b.cart.prgRam.Some?
    ensures a == b && f == g
  {
  }

  // ---- what loading does ----------------------------------------------------

  /** The audio position is dropped when it is past the end of the buffer. */
  function ClampedSound(g: Sound, outCap: nat): Sound {
    if g.outPos > outCap then g.(outPos := 0) else g
  }

  function Clamped(n: Nes, outCap: nat): Nes {
    n.(sound := ClampedSound(n.sound, outCap))
  }

  lemma HeaderOnly(f: Frame, g: Frame)
    requires g == f.(ramSize := g.ramSize)
    ensures HeaderLog(Start, f) == HeaderLog(Start, g)
  {
  }

  /** `n` holds, field by field, what `blob` says; fields past its end are zero. */
  ghost predicate Restored(n: Nes, outCap: nat, blob: seq<Byte>) {
    exists raw: Nes, f: Frame ::
      Sized(raw) && raw.cart.prgRam.Some? == n.cart.prgRam.Some?
      && Parsed(NesLog(raw, f), blob) && n == Clamped(raw, outCap)
  }

  datatype Result = Ok | Invalid | NoRom | NoSpace | BadState

  predicate HeaderFits(blob: seq<Byte>)
    requires |blob| >= 12
  {
    FromLe(blob[..4]) == MAGIC && FromLe(blob[4..8]) == VERSION && FromLe(blob[8..12]) == CORE
  }

  /** The verdict on a blob, by its length and header. */
  function LoadResult(blob: seq<Byte>, hasRom: bool, hasRam: bool): Result {
    if blob == [] then Invalid
    else if |blob| < 12 then BadState
    else if !HeaderFits(blob) then BadState
    else if !hasRom then NoRom
    else if |blob| < StateSize(hasRam) then BadState
    else Ok
  }

  /** A blob leaves no choice about what is restored. */
  lemma RestoredUnique(m: Nes, n: Nes, outCap: nat, blob: seq<Byte>)
    requires Restored(m, outCap, blob) && Restored(n, outCap, blob)
    requires m.cart.prgRam.Some? == n.cart.prgRam.Some?
    ensures m == n
  {
    hide NesLog, Sized, Parsed;
    var a: Nes, f: Frame :| Sized(a) && a.cart.prgRam.Some? == m.cart.prgRam.Some?
      && Parsed(NesLog(a, f), blob) && m == Clamped(a, outCap);
    var b: Nes, g: Frame :| Sized(b) && b.cart.prgRam.Some? == n.cart.prgRam.Some?
      && Parsed(NesLog(b, g), blob) && n == Clamped(b, outCap);
    NesLogged(a, b, f, g);
    ParsedUnique(NesLog(a, f), NesLog(b, g), blob);
    LogDetermines(a, b, f, g);
  }

  lemma NarrowedTwice(n: Nes)
    ensures Narrowed(Narrowed(n)) == Narrowed(n) && (Sized(n) ==> Sized(Narrowed(n)))
  {
    ModuloSelf(n.pad.buttons % 0x100, 0x100);
    ModuloSelf(n.sound.outPos % 0x1_0000_0000, 0x1_0000_0000);
  }

  /** Loading a saved blob, whatever follows it, restores the narrowed state. */
  lemma LoadUndoesSave(n: Nes, m: Nes, outCap: nat, tail: seq<Byte>)
    requires Sized(n) && m.cart.prgRam.Some? == n.cart.prgRam.Some?
    requires Restored(m, outCap, Saved(n) + tail)
    ensures m == Clamped(Narrowed(n), outCap)
  {
    hide NesLog, Sized, Parsed;
    var raw: Nes, f: Frame :| Sized(raw) && raw.cart.prgRam.Some? == m.cart.prgRam.Some?
      && Parsed(NesLog(raw, f), Saved(n) + tail) && m == Clamped(raw, outCap);
    NarrowedTwice(n);
    NesLogged(Narrowed(n), raw, WRITTEN, f);
    ReadsBack(NesLog(Narrowed(n), WRITTEN), NesLog(raw, f), tail);
    LogDetermines(raw, Narrowed(n), f, WRITTEN);
  }

  /** The state survives a save and a load exactly when its buttons fit one byte
      and its audio position lies in the buffer. */
  lemma RoundTripIff(n: Nes, m: Nes, outCap: nat)
    requires Sized(n) && m.cart.prgRam.Some? == n.cart.prgRam.Some? && outCap < 0x1_0000_0000
    requires Restored(m, outCap, Saved(n))
    ensures m == n <==> n.pad.buttons < 0x100 && n.sound.outPos <= outCap
  {
    hide Sized, Restored, Saved;
    assert Saved(n) + [] == Saved(n);
    LoadUndoesSave(n, m, outCap, []);
    ModuloSelf(n.pad.buttons, 0x100);
    ModuloSelf(n.sound.outPos, 0x1_0000_0000);
  }

  /** Saving what was loaded from a blob of exact length gives the blob back exactly
      when its fixed words are those a save writes and its audio position was kept. */
  lemma ResaveIff(blob: seq<Byte>, raw: Nes, f: Frame, outCap: nat)
    requires Sized(raw) && Parsed(NesLog(raw, f), blob) && |blob| == StateSize(raw.cart.prgRam.Some?)
    ensures Saved(Clamped(raw, outCap)) == blob <==> f == WRITTEN && raw.sound.outPos <= outCap
  {
    hide NesLog, SizedMachine, SizedCart, Parsed, StateSize;
    var m := Clamped(raw, outCap);
    NesLogged(raw, raw, f, f);
    ParsedIsBlob(NesLog(raw, f), blob);
    LogDetermines(raw, Narrowed(raw), f, f);
    assert blob[..|blob|] == blob;
    if Saved(m) == blob {
      var n := Narrowed(m);
      NarrowedTwice(m);
      NesLogged(n, raw, WRITTEN, f);
      assert Encode(NesLog(n, WRITTEN)) + [] == blob;
      ReadsBack(NesLog(n, WRITTEN), NesLog(raw, f), []);
      LogDetermines(raw, n, f, WRITTEN);
      ModuloSelf(m.sound.outPos, 0x1_0000_0000);
    }
  }

  lemma ModuloSelf(x: nat, p: nat)
    requires p > 0
    ensures x % p == x <==> x < p
  {
    if x < p {
      DivModUnique(p, 0, x);
    }
  }

  /** A saved blob has its fixed length and is accepted, with or without more bytes
      after it; cut short anywhere it is rejected. */
  lemma SavedAccepted(n: Nes, tail: seq<Byte>, k: nat)
    requires Sized(n)
    ensures |Saved(n)| == StateSize(n.cart.prgRam.Some?)
    ensures LoadResult(Saved(n) + tail, true, n.cart.prgRam.Some?) == Ok
    ensures k < |Saved(n)| ==> LoadResult(Saved(n)[..k], true, n.cart.prgRam.Some?) in {Invalid, BadState}
  {
    hide NesLog, Sized, Starts;
    var base := HeaderLog(Start, WRITTEN);
    NarrowedTwice(n);
    NesLogged(Narrowed(n), Narrowed(n), WRITTEN, WRITTEN);
    assert Saved(n)[..12] == Encode(base) by {
      HeaderLogged(Start, Start, WRITTEN, WRITTEN);
      StartsMeans(NesLog(Narrowed(n), WRITTEN), base);
    }
    HeaderBytes();
    var b := Saved(n) + tail;
    assert b[..4] == Encode(base)[..4] && b[4..8] == Encode(base)[4..8] && b[8..12] == Encode(base)[8..12];
  }

  lemma StartsMeans(l: Log, base: Log)
    requires Starts(l, base)
    ensures Size(base) <= |Encode(l)| && Encode(l)[..Size(base)] == Encode(base)
  {
  }

  lemma HeaderBytes()
    ensures var h := Encode(HeaderLog(Start, WRITTEN));
      |h| == 12 && FromLe(h[..4]) == MAGIC && FromLe(h[4..8]) == VERSION && FromLe(h[8..12]) == CORE
  {
    hide Le, FromLe, Power;
    var a, b, c := Le(MAGIC, 4), Le(VERSION, 4), Le(CORE, 4);
    var h := Encode(HeaderLog(Start, WRITTEN));
    assert h == a + b + c;
    assert h[..4] == a && h[4..8] == b && h[8..12] == c;
    Powers();
    ValueOfLe(MAGIC, 4);
    ValueOfLe(VERSION, 4);
    ValueOfLe(CORE, 4);
  }

  // ---- the bytes of the header ----------------------------------------------

  lemma FourLe(v: nat, a: Byte, b: Byte, c: Byte, d: Byte)
    requires v == a + 0x100 * b + 0x10000 * c + 0x1000000 * d
    ensures Le(v, 4) == [a, b, c, d]
  {
    var x, y, z: int := b + 0x100 * c + 0x10000 * d, c + 0x100 * d, d;
    DivModUnique(0x100, x, a);
    DivModUnique(0x100, y, b);
    DivModUnique(0x100, z, c);
    DivModUnique(0x100, 0, d);
    assert Le(z, 1) == [d];
    assert Le(y, 2) == [c] + Le(z, 1);
    assert Le(x, 3) == [b] + Le(y, 2);
    assert Le(v, 4) == [a] + Le(x, 3);
  }

  /** Saved blobs begin with the bytes of EMUF and the numbers 1 and 2; a blob is
      accepted exactly if it begins so, is long enough and a cartridge is loaded. */
  lemma VerdictByBytes(n: Nes, blob: seq<Byte>, hasRom: bool, hasRam: bool)
    requires Sized(n)
    ensures |Saved(n)| >= 12 && Saved(n)[..12] == [0x45, 0x4D, 0x55, 0x46, 1, 0, 0, 0, 2, 0, 0, 0]
    ensures LoadResult(blob, hasRom, hasRam) ==
      if blob == [] then Invalid
      else if |blob| < 12 || blob[..12] != [0x45, 0x4D, 0x55, 0x46, 1, 0, 0, 0, 2, 0, 0, 0] then BadState
      else if !hasRom then NoRom
      else if |blob| < (if hasRam then 14828 else 6636) then BadState
      else Ok
  {
    hide NesLog, Sized, Starts, Le, FromLe;
    MagicBytes();
    SavedStart(n);
    if |blob| >= 12 {
      HeaderByBytes(blob);
    }
  }

  lemma MagicBytes()
    ensures Le(MAGIC, 4) == [0x45, 0x4D, 0x55, 0x46] && Le(VERSION, 4) == [1, 0, 0, 0] && Le(CORE, 4) == [2, 0, 0, 0]
    ensures FromLe([0x45, 0x4D, 0x55, 0x46]) == MAGIC && FromLe([1, 0, 0, 0]) == VERSION && FromLe([2, 0, 0, 0]) == CORE
  {
    hide Le, FromLe, Power;
    FourLe(MAGIC, 0x45, 0x4D, 0x55, 0x46);
    FourLe(VERSION, 1, 0, 0, 0);
    FourLe(CORE, 2, 0, 0, 0);
    Powers();
    ValueOfLe(MAGIC, 4);
    ValueOfLe(VERSION, 4);
    ValueOfLe(CORE, 4);
  }

  lemma SavedStart(n: Nes)
    requires Sized(n)
    ensures |Saved(n)| >= 12 && Saved(n)[..12] == Le(MAGIC, 4) + Le(VERSION, 4) + Le(CORE, 4)
  {
    hide NesLog, Sized, Starts, Le;
    var base := HeaderLog(Start, WRITTEN);
    NarrowedTwice(n);
    NesLogged(Narrowed(n), Narrowed(n), WRITTEN, WRITTEN);
    HeaderLogged(Start, Start, WRITTEN, WRITTEN);
    StartsMeans(NesLog(Narrowed(n), WRITTEN), base);
    assert Encode(base) == Le(MAGIC, 4) + Le(VERSION, 4) + Le(CORE, 4);
  }

  lemma HeaderByBytes(blob: seq<Byte>)
    requires |blob| >= 12
    ensures HeaderFits(blob) <==> blob[..12] == [0x45, 0x4D, 0x55, 0x46, 1, 0, 0, 0, 2, 0, 0, 0]
  {
    hide Le, FromLe;
    MagicBytes();
    var a, b, c := blob[..4], blob[4..8], blob[8..12];
    LeOfFromLe(a);
    LeOfFromLe(b);
    LeOfFromLe(c);
    assert blob[..12] == a + b + c;
    var h: seq<Byte> := [0x45, 0x4D, 0x55, 0x46, 1, 0, 0, 0, 2, 0, 0, 0];
    assert h[..4] == [0x45, 0x4D, 0x55, 0x46] && h[4..8] == [1, 0, 0, 0] && h[8..12] == [2, 0, 0, 0];
    assert blob[..12] == h ==> a == h[..4] && b == h[4..8] && c == h[8..12] by {
      assert a == blob[..12][..4] && b == blob[..12][4..8] && c == blob[..12][8..12];
    }
    assert a + b + c == h <== a == h[..4] && b == h[4..8] && c == h[8..12];
  }
}
