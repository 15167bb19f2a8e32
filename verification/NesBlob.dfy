/** The bytes of an NES save state, one after the other. */
module NesBlob {
  import opened Words
  import opened StateIo
  import opened NesState

  function Two(v: Half): (b: seq<Byte>)
    ensures |b| == 2
  {
    [v % 0x100, v / 0x100]
  }

  function Four(v: Word): (b: seq<Byte>)
    ensures |b| == 4
  {
    [v % 0x100, v / 0x100 % 0x100, v / 0x10000 % 0x100, v / 0x1000000]
  }

  lemma EncodesGrow()
    ensures forall l: Log, v: Byte {:trigger Encode(l.U8(v))} :: Encode(l.U8(v)) == Encode(l) + [v]
    ensures forall l: Log, v: Half {:trigger Encode(l.U16(v))} :: Encode(l.U16(v)) == Encode(l) + Two(v)
    ensures forall l: Log, v: Word {:trigger Encode(l.U32(v))} :: Encode(l.U32(v)) == Encode(l) + Four(v)
    ensures forall l: Log, b: seq<Byte> {:trigger Encode(l.Block(b))} :: Encode(l.Block(b)) == Encode(l) + b
  {
    hide Le;
    forall v: Byte
      ensures Le(v, 1) == [v]
    {
      LeOfByte(v);
    }
    forall v: Half
      ensures Le(v, 2) == Two(v)
    {
      TwoLe(v);
    }
    forall v: Word
      ensures Le(v, 4) == Four(v)
    {
      FourParts(v);
    }
  }

  lemma TwoLe(v: Half)
    ensures Le(v, 2) == Two(v)
  {
    DivModUnique(0x100, 0, v / 0x100);
    assert Le(v / 0x100, 1) == [v / 0x100];
  }

  lemma FourParts(v: Word)
    ensures Le(v, 4) == Four(v)
  {
    var x := v / 0x100;
    var y := x / 0x100;
    FourLe(v, v % 0x100, x % 0x100, y % 0x100, y / 0x100);
  }

  function CpuBytes(g: Cpu): seq<Byte> {
    [g.a, g.x, g.y, g.s, g.p] + Two(g.pc) + [g.nmiPending, g.irqLine] + Four(g.dmaStall)
  }

  function PpuBytes(g: Ppu): seq<Byte> {
    ([g.ctrl, g.mask, g.status, g.oamAddr, g.openBus] + Two(g.v) + Two(g.t) + [g.fineX])
    + ([g.w, g.readBuffer] + Two(g.scanline) + Two(g.dot) + [g.oddFrame, g.vblankEvent, g.nmiLine,
       g.nmiOutPrev])
  }

  function SequencerBytes(g: Sequencer): seq<Byte> {
    Four(g.frameCycles) + Four(g.frameStep) + [g.mode5, g.irqInhibit, g.frameIrq]
  }

  function PulseBytes(g: Pulse): seq<Byte> {
    ([g.enabled, g.duty, g.dutyPos] + Two(g.timer) + Two(g.period) + [g.lenCounter, g.lenEnable, g.envVolume,
     g.envPeriod, g.envTimer])
    + ([g.envDirection, g.volume, g.constantVolume, g.sweepEnable, g.sweepPeriod, g.sweepTimer, g.sweepNegate,
       g.sweepShift, g.sweepReload] + Two(g.freq) + [g.dac])
  }

  function TriangleBytes(g: Triangle): seq<Byte> {
    [g.enabled] + Two(g.timer) + Two(g.period) + [g.seqPos, g.lenCounter, g.lenEnable, g.linearCounter,
    g.linearReload, g.linearCtrl, g.linearReloadFlag]
  }

  function NoiseBytes(g: Noise): seq<Byte> {
    ([g.enabled] + Two(g.timer) + Two(g.period) + Two(g.lfsr) + [g.mode, g.lenCounter, g.lenEnable])
    + ([g.envVolume, g.envPeriod, g.envTimer, g.envDirection, g.volume, g.constantVolume, g.dac])
  }

  function DmcBytes(g: Dmc): seq<Byte> {
    ([g.enabled, g.irqEnable, g.loop] + Two(g.rate) + Two(g.timer) + [g.outputLevel] + Two(g.sampleAddr) +
     Two(g.sampleLen))
    + (Two(g.bytesRemaining) + Two(g.addrCounter) + [g.sampleBuffer, g.bufferEmpty, g.shift, g.bitsRemaining,
       g.silence, g.irqFlag])
  }

  function Mapper1Bytes(g: Mapper1): seq<Byte> {
    [g.mapper, g.mirroring, g.mmc1Shift, g.mmc1ShiftCount]
  }

  function BanksBytes(g: Banks): seq<Byte> {
    [g.prgBank, g.chrBank, g.mmc3RegSelect]
  }

  function Mapper4Bytes(g: Mapper4): seq<Byte> {
    [g.irqLatch, g.irqCounter, g.irqReloadPending, g.irqEnable, g.irqAsserted, g.a12Prev, g.chrRam]
  }

  lemma CpuEncoded(l: Log, g: Cpu)
    ensures Encode(CpuLog(l, g)) == Encode(l) + CpuBytes(g)
  {
    hide Encode, Log.U8, Log.U16, Log.U32, Two, Four;
    EncodesGrow();
  }

  lemma PpuFirst(l: Log, g: Ppu)
    ensures var m :=
      l.U8(g.ctrl).U8(g.mask).U8(g.status).U8(g.oamAddr).U8(g.openBus).U16(g.v).U16(g.t).U8(g.fineX);
      Encode(m) == Encode(l)
        + ([g.ctrl, g.mask, g.status, g.oamAddr, g.openBus] + Two(g.v) + Two(g.t) + [g.fineX])
  {
    hide Encode, Log.U8, Log.U16, Log.U32, Two, Four;
    EncodesGrow();
  }

  lemma PpuRest(l: Log, g: Ppu)
    ensures var m :=
      l.U8(g.w).U8(g.readBuffer).U16(g.scanline).U16(g.dot).U8(g.oddFrame).U8(g.vblankEvent).U8(g.nmiLine)
        .U8(g.nmiOutPrev);
      Encode(m) == Encode(l)
        + ([g.w, g.readBuffer] + Two(g.scanline) + Two(g.dot) + [g.oddFrame, g.vblankEvent, g.nmiLine,
           g.nmiOutPrev])
  {
    hide Encode, Log.U8, Log.U16, Log.U32, Two, Four;
    EncodesGrow();
  }

  lemma PpuEncoded(l: Log, g: Ppu)
    ensures Encode(PpuLog(l, g)) == Encode(l) + PpuBytes(g)
  {
    hide Encode, Log.U8, Log.U16, Log.U32, Two, Four;
    var m :=
      l.U8(g.ctrl).U8(g.mask).U8(g.status).U8(g.oamAddr).U8(g.openBus).U16(g.v).U16(g.t).U8(g.fineX);
    PpuFirst(l, g);
    PpuRest(m, g);
  }

  lemma SequencerEncoded(l: Log, g: Sequencer)
    ensures Encode(SequencerLog(l, g)) == Encode(l) + SequencerBytes(g)
  {
    hide Encode, Log.U8, Log.U16, Log.U32, Two, Four;
    EncodesGrow();
  }

  lemma PulseFirst(l: Log, g: Pulse)
    ensures var m :=
      l.U8(g.enabled).U8(g.duty).U8(g.dutyPos).U16(g.timer).U16(g.period).U8(g.lenCounter).U8(g.lenEnable)
        .U8(g.envVolume).U8(g.envPeriod).U8(g.envTimer);
      Encode(m) == Encode(l)
        + ([g.enabled, g.duty, g.dutyPos] + Two(g.timer) + Two(g.period) + [g.lenCounter, g.lenEnable,
           g.envVolume, g.envPeriod, g.envTimer])
  {
    hide Encode, Log.U8, Log.U16, Log.U32, Two, Four;
    EncodesGrow();
  }

  lemma PulseRest(l: Log, g: Pulse)
    ensures var m :=
      l.U8(g.envDirection).U8(g.volume).U8(g.constantVolume).U8(g.sweepEnable).U8(g.sweepPeriod)
        .U8(g.sweepTimer).U8(g.sweepNegate).U8(g.sweepShift).U8(g.sweepReload).U16(g.freq).U8(g.dac);
      Encode(m) == Encode(l)
        + ([g.envDirection, g.volume, g.constantVolume, g.sweepEnable, g.sweepPeriod, g.sweepTimer,
           g.sweepNegate, g.sweepShift, g.sweepReload] + Two(g.freq) + [g.dac])
  {
    hide Encode, Log.U8, Log.U16, Log.U32, Two, Four;
    EncodesGrow();
  }

  lemma PulseEncoded(l: Log, g: Pulse)
    ensures Encode(PulseLog(l, g)) == Encode(l) + PulseBytes(g)
  {
    hide Encode, Log.U8, Log.U16, Log.U32, Two, Four;
    var m :=
      l.U8(g.enabled).U8(g.duty).U8(g.dutyPos).U16(g.timer).U16(g.period).U8(g.lenCounter).U8(g.lenEnable)
        .U8(g.envVolume).U8(g.envPeriod).U8(g.envTimer);
    PulseFirst(l, g);
    PulseRest(m, g);
  }

  lemma TriangleEncoded(l: Log, g: Triangle)
    ensures Encode(TriangleLog(l, g)) == Encode(l) + TriangleBytes(g)
  {
    hide Encode, Log.U8, Log.U16, Log.U32, Two, Four;
    EncodesGrow();
  }

  lemma NoiseFirst(l: Log, g: Noise)
    ensures var m :=
      l.U8(g.enabled).U16(g.timer).U16(g.period).U16(g.lfsr).U8(g.mode).U8(g.lenCounter).U8(g.lenEnable);
      Encode(m) == Encode(l)
        + ([g.enabled] + Two(g.timer) + Two(g.period) + Two(g.lfsr) + [g.mode, g.lenCounter, g.lenEnable])
  {
    hide Encode, Log.U8, Log.U16, Log.U32, Two, Four;
    EncodesGrow();
  }

  lemma NoiseRest(l: Log, g: Noise)
    ensures var m :=
      l.U8(g.envVolume).U8(g.envPeriod).U8(g.envTimer).U8(g.envDirection).U8(g.volume).U8(g.constantVolume)
        .U8(g.dac);
      Encode(m) == Encode(l)
        + ([g.envVolume, g.envPeriod, g.envTimer, g.envDirection, g.volume, g.constantVolume, g.dac])
  {
    hide Encode, Log.U8, Log.U16, Log.U32, Two, Four;
    EncodesGrow();
  }

  lemma NoiseEncoded(l: Log, g: Noise)
    ensures Encode(NoiseLog(l, g)) == Encode(l) + NoiseBytes(g)
  {
    hide Encode, Log.U8, Log.U16, Log.U32, Two, Four;
    var m :=
      l.U8(g.enabled).U16(g.timer).U16(g.period).U16(g.lfsr).U8(g.mode).U8(g.lenCounter).U8(g.lenEnable);
    NoiseFirst(l, g);
    NoiseRest(m, g);
  }

  lemma DmcFirst(l: Log, g: Dmc)
    ensures var m :=
      l.U8(g.enabled).U8(g.irqEnable).U8(g.loop).U16(g.rate).U16(g.timer).U8(g.outputLevel).U16(g.sampleAddr)
        .U16(g.sampleLen);
      Encode(m) == Encode(l)
        + ([g.enabled, g.irqEnable, g.loop] + Two(g.rate) + Two(g.timer) + [g.outputLevel] + Two(g.sampleAddr)
           + Two(g.sampleLen))
  {
    hide Encode, Log.U8, Log.U16, Log.U32, Two, Four;
    EncodesGrow();
  }

  lemma DmcRest(l: Log, g: Dmc)
    ensures var m :=
      l.U16(g.bytesRemaining).U16(g.addrCounter).U8(g.sampleBuffer).U8(g.bufferEmpty).U8(g.shift)
        .U8(g.bitsRemaining).U8(g.silence).U8(g.irqFlag);
      Encode(m) == Encode(l)
        + (Two(g.bytesRemaining) + Two(g.addrCounter) + [g.sampleBuffer, g.bufferEmpty, g.shift,
           g.bitsRemaining, g.silence, g.irqFlag])
  {
    hide Encode, Log.U8, Log.U16, Log.U32, Two, Four;
    EncodesGrow();
  }

  lemma DmcEncoded(l: Log, g: Dmc)
    ensures Encode(DmcLog(l, g)) == Encode(l) + DmcBytes(g)
  {
    hide Encode, Log.U8, Log.U16, Log.U32, Two, Four;
    var m :=
      l.U8(g.enabled).U8(g.irqEnable).U8(g.loop).U16(g.rate).U16(g.timer).U8(g.outputLevel).U16(g.sampleAddr)
        .U16(g.sampleLen);
    DmcFirst(l, g);
    DmcRest(m, g);
  }

  lemma Mapper1Encoded(l: Log, g: Mapper1)
    ensures Encode(Mapper1Log(l, g)) == Encode(l) + Mapper1Bytes(g)
  {
    hide Encode, Log.U8, Log.U16, Log.U32, Two, Four;
    EncodesGrow();
  }

  lemma BanksEncoded(l: Log, g: Banks)
    ensures Encode(BanksLog(l, g)) == Encode(l) + BanksBytes(g)
  {
    hide Encode, Log.U8, Log.U16, Log.U32, Two, Four;
    EncodesGrow();
  }

  lemma Mapper4Encoded(l: Log, g: Mapper4)
    ensures Encode(Mapper4Log(l, g)) == Encode(l) + Mapper4Bytes(g)
  {
    hide Encode, Log.U8, Log.U16, Log.U32, Two, Four;
    EncodesGrow();
  }

  function MachineBytes(g: Machine): seq<Byte> {
    CpuBytes(g.cpu) + g.ram + g.vram + g.palette + g.oam + PpuBytes(g.ppu)
  }

  /** Of the audio position a blob holds the low 32 bits. */
  function SoundBytes(g: Sound): seq<Byte> {
    SequencerBytes(g.sequencer) + PulseBytes(g.pulse0) + PulseBytes(g.pulse1) + TriangleBytes(g.triangle)
    + NoiseBytes(g.noise) + DmcBytes(g.dmc) + Four(g.sampleAcc) + Four(g.outPos % 0x1_0000_0000)
  }

  /** Of the buttons a blob holds the low byte. */
  function PadBytes(g: Pad): seq<Byte> {
    [g.buttons % 0x100, g.shift, g.strobe]
  }

  /** The work RAM's size field reads 2000h with or without it. */
  function CartBytes(g: Cart): seq<Byte> {
    Mapper1Bytes(g.mapper1) + g.mmc1Regs + BanksBytes(g.banks) + g.mmc3Regs + Mapper4Bytes(g.mapper4)
    + [0, 0x20, 0, 0] + if g.prgRam.Some? then g.prgRam.value else []
  }

  lemma MachineEncoded(l: Log, g: Machine)
    ensures Encode(MachineLog(l, g)) == Encode(l) + MachineBytes(g)
  {
    hide Encode, Log.Block, CpuLog, PpuLog, CpuBytes, PpuBytes;
    var c := CpuLog(l, g.cpu);
    CpuEncoded(l, g.cpu);
    EncodesGrow();
    PpuEncoded(c.Block(g.ram).Block(g.vram).Block(g.palette).Block(g.oam), g.ppu);
  }

  lemma SoundEncoded(l: Log, g: Sound)
    ensures Encode(SoundLog(l, NarrowedSound(g))) == Encode(l) + SoundBytes(g)
  {
    hide Encode, Log.U32, SequencerLog, PulseLog, TriangleLog, NoiseLog, DmcLog;
    hide SequencerBytes, PulseBytes, TriangleBytes, NoiseBytes, DmcBytes, Four;
    var a := SequencerLog(l, g.sequencer);
    var b := PulseLog(a, g.pulse0);
    var c := PulseLog(b, g.pulse1);
    var d := TriangleLog(c, g.triangle);
    var e := NoiseLog(d, g.noise);
    SequencerEncoded(l, g.sequencer);
    PulseEncoded(a, g.pulse0);
    PulseEncoded(b, g.pulse1);
    TriangleEncoded(c, g.triangle);
    NoiseEncoded(d, g.noise);
    DmcEncoded(e, g.dmc);
    EncodesGrow();
  }

  lemma PadEncoded(l: Log, g: Pad)
    ensures Encode(PadLog(l, NarrowedPad(g))) == Encode(l) + PadBytes(g)
  {
    hide Encode, Log.U8;
    EncodesGrow();
  }

  lemma CartEncoded(l: Log, g: Cart)
    ensures Encode(CartLog(l, g, 0x2000)) == Encode(l) + CartBytes(g)
  {
    hide Encode, Log.U32, Log.Block, Mapper1Log, BanksLog, Mapper4Log, Mapper1Bytes, BanksBytes, Mapper4Bytes;
    var a := Mapper1Log(l, g.mapper1).Block(g.mmc1Regs);
    var b := BanksLog(a, g.banks).Block(g.mmc3Regs);
    Mapper1Encoded(l, g.mapper1);
    BanksEncoded(a, g.banks);
    Mapper4Encoded(b, g.mapper4);
    EncodesGrow();
    assert Four(0x2000) == [0, 0x20, 0, 0];
  }

  /** Every byte of a save: the header, then the machine, the sound unit, the
      controller port and the cartridge, and the cycle count, all numbers low byte
      first. */
  lemma SavedBytes(n: Nes)
    ensures Saved(n) == [0x45, 0x4D, 0x55, 0x46, 1, 0, 0, 0, 2, 0, 0, 0]
      + MachineBytes(n.machine) + SoundBytes(n.sound) + PadBytes(n.pad) + CartBytes(n.cart)
      + Four(n.totalCycles % 0x1_0000_0000) + Four(n.totalCycles / 0x1_0000_0000)
  {
    hide Encode, Log.U8, Log.U32, Log.U64, MachineLog, SoundLog, PadLog, CartLog, Four, Le;
    hide MachineBytes, SoundBytes, PadBytes, CartBytes, NarrowedSound, NarrowedPad;
    var h := HeaderLog(Start, WRITTEN);
    var m := MachineLog(h, n.machine);
    var s := SoundLog(m, NarrowedSound(n.sound));
    var p := PadLog(s, NarrowedPad(n.pad));
    HeaderEncoded();
    MachineEncoded(h, n.machine);
    SoundEncoded(m, n.sound);
    PadEncoded(s, n.pad);
    CartEncoded(p, n.cart);
    LongEncoded(CartLog(p, n.cart, 0x2000), n.totalCycles);
  }

  lemma HeaderEncoded()
    ensures Encode(HeaderLog(Start, WRITTEN)) == [0x45, 0x4D, 0x55, 0x46, 1, 0, 0, 0, 2, 0, 0, 0]
  {
    hide Le;
    MagicBytes();
    assert Encode(HeaderLog(Start, WRITTEN)) == Le(MAGIC, 4) + Le(VERSION, 4) + Le(CORE, 4);
  }

  lemma LongEncoded(l: Log, v: Long)
    ensures Encode(l.U64(v)) == Encode(l) + Four(v % 0x1_0000_0000) + Four(v / 0x1_0000_0000)
  {
    hide Le, Four, Power;
    var lo, hi := v % 0x1_0000_0000, v / 0x1_0000_0000;
    Powers();
    LeJoin(lo, hi, 4, 4);
    FourParts(lo);
    FourParts(hi);
    assert Encode(l.U64(v)) == Encode(l) + Le(v, 8);
    assert Encode(l) + (Le(lo, 4) + Le(hi, 4)) == Encode(l) + Le(lo, 4) + Le(hi, 4);
  }
}
