/** The NES core's save-state entry points, over the machine's own fields. */
module NesCore {
  import opened Words
  import opened StateIo
  import opened NesState

  class Core {
    var cpu: Cpu
    const ram: array<Byte>
    const vram: array<Byte>
    const palette: array<Byte>
    const oam: array<Byte>
    var ppu: Ppu
    var sound: Sound
    const outCap: nat
    var pad: Pad
    var mapper1: Mapper1
    const mmc1Regs: array<Byte>
    var banks: Banks
    const mmc3Regs: array<Byte>
    var mapper4: Mapper4
    const prgRam: array?<Byte>
    var hasRom: bool
    var totalCycles: Long

    ghost function Memories(): (m: set<object>) {
      {ram, vram, palette, oam, mmc1Regs, mmc3Regs} + if prgRam == null then {} else {prgRam}
    }

    /** The memories have their sizes and do not share storage. */
    ghost predicate Valid() {
      && ram.Length == 0x800 && vram.Length == 0x1000 && palette.Length == 32 && oam.Length == 256
      && mmc1Regs.Length == 4 && mmc3Regs.Length == 8 && (prgRam != null ==> prgRam.Length == 0x2000)
      && ram != vram && ram != palette && ram != oam && ram != mmc1Regs && ram != mmc3Regs && ram != prgRam
      && vram != palette && vram != oam && vram != mmc1Regs && vram != mmc3Regs && vram != prgRam
      && palette != oam && palette != mmc1Regs && palette != mmc3Regs && palette != prgRam
      && oam != mmc1Regs && oam != mmc3Regs && oam != prgRam
      && mmc1Regs != mmc3Regs && mmc1Regs != prgRam && mmc3Regs != prgRam
    }

    ghost function MachineState(): Machine
      reads this`cpu, this`ppu, ram, vram, palette, oam
    {
      Machine(cpu, ram[..], vram[..], palette[..], oam[..], ppu)
    }

    ghost function CartState(): Cart
      reads this`mapper1, this`banks, this`mapper4, mmc1Regs, mmc3Regs, prgRam
    {
      Cart(mapper1, mmc1Regs[..], banks, mmc3Regs[..], mapper4,
        if prgRam == null then None else Some(prgRam[..]))
    }

    ghost function State(): (n: Nes)
      reads this, Memories()
    {
      Nes(MachineState(), sound, pad, CartState(), totalCycles)
    }

    // ---- saving -------------------------------------------------------------

    static method SaveCpu(w: Writer, g: Cpu)
      requires w.Valid()
      modifies w`pos, w`overflow, w`log, w.buf
      ensures w.Valid() && w.log == CpuLog(old(w.log), g)
    {
      hide Writer.Valid;
      w.U8(g.a);
      w.U8(g.x);
      w.U8(g.y);
      w.U8(g.s);
      w.U8(g.p);
      w.U16(g.pc);
      w.U8(g.nmiPending);
      w.U8(g.irqLine);
      w.U32(g.dmaStall);
    }

    static method SavePpu(w: Writer, g: Ppu)
      requires w.Valid()
      modifies w`pos, w`overflow, w`log, w.buf
      ensures w.Valid() && w.log == PpuLog(old(w.log), g)
    {
      hide Writer.Valid;
      w.U8(g.ctrl);
      w.U8(g.mask);
      w.U8(g.status);
      w.U8(g.oamAddr);
      w.U8(g.openBus);
      w.U16(g.v);
      w.U16(g.t);
      w.U8(g.fineX);
      w.U8(g.w);
      w.U8(g.readBuffer);
      w.U16(g.scanline);
      w.U16(g.dot);
      w.U8(g.oddFrame);
      w.U8(g.vblankEvent);
      w.U8(g.nmiLine);
      w.U8(g.nmiOutPrev);
    }

    static method SaveSequencer(w: Writer, g: Sequencer)
      requires w.Valid()
      modifies w`pos, w`overflow, w`log, w.buf
      ensures w.Valid() && w.log == SequencerLog(old(w.log), g)
    {
      hide Writer.Valid;
      w.U32(g.frameCycles);
      w.U32(g.frameStep);
      w.U8(g.mode5);
      w.U8(g.irqInhibit);
      w.U8(g.frameIrq);
    }

    static method SavePulse(w: Writer, g: Pulse)
      requires w.Valid()
      modifies w`pos, w`overflow, w`log, w.buf
      ensures w.Valid() && w.log == PulseLog(old(w.log), g)
    {
      hide Writer.Valid;
      w.U8(g.enabled);
      w.U8(g.duty);
      w.U8(g.dutyPos);
      w.U16(g.timer);
      w.U16(g.period);
      w.U8(g.lenCounter);
      w.U8(g.lenEnable);
      w.U8(g.envVolume);
      w.U8(g.envPeriod);
      w.U8(g.envTimer);
      w.U8(g.envDirection);
      w.U8(g.volume);
      w.U8(g.constantVolume);
      w.U8(g.sweepEnable);
      w.U8(g.sweepPeriod);
      w.U8(g.sweepTimer);
      w.U8(g.sweepNegate);
      w.U8(g.sweepShift);
      w.U8(g.sweepReload);
      w.U16(g.freq);
      w.U8(g.dac);
    }

    static method SaveTriangle(w: Writer, g: Triangle)
      requires w.Valid()
      modifies w`pos, w`overflow, w`log, w.buf
      ensures w.Valid() && w.log == TriangleLog(old(w.log), g)
    {
      hide Writer.Valid;
      w.U8(g.enabled);
      w.U16(g.timer);
      w.U16(g.period);
      w.U8(g.seqPos);
      w.U8(g.lenCounter);
      w.U8(g.lenEnable);
      w.U8(g.linearCounter);
      w.U8(g.linearReload);
      w.U8(g.linearCtrl);
      w.U8(g.linearReloadFlag);
    }

    static method SaveNoise(w: Writer, g: Noise)
      requires w.Valid()
      modifies w`pos, w`overflow, w`log, w.buf
      ensures w.Valid() && w.log == NoiseLog(old(w.log), g)
    {
      hide Writer.Valid;
      w.U8(g.enabled);
      w.U16(g.timer);
      w.U16(g.period);
      w.U16(g.lfsr);
      w.U8(g.mode);
      w.U8(g.lenCounter);
      w.U8(g.lenEnable);
      w.U8(g.envVolume);
      w.U8(g.envPeriod);
      w.U8(g.envTimer);
      w.U8(g.envDirection);
      w.U8(g.volume);
      w.U8(g.constantVolume);
      w.U8(g.dac);
    }

    static method SaveDmc(w: Writer, g: Dmc)
      requires w.Valid()
      modifies w`pos, w`overflow, w`log, w.buf
      ensures w.Valid() && w.log == DmcLog(old(w.log), g)
    {
      hide Writer.Valid;
      w.U8(g.enabled);
      w.U8(g.irqEnable);
      w.U8(g.loop);
      w.U16(g.rate);
      w.U16(g.timer);
      w.U8(g.outputLevel);
      w.U16(g.sampleAddr);
      w.U16(g.sampleLen);
      w.U16(g.bytesRemaining);
      w.U16(g.addrCounter);
      w.U8(g.sampleBuffer);
      w.U8(g.bufferEmpty);
      w.U8(g.shift);
      w.U8(g.bitsRemaining);
      w.U8(g.silence);
      w.U8(g.irqFlag);
    }

    static method SaveMapper1(w: Writer, g: Mapper1)
      requires w.Valid()
      modifies w`pos, w`overflow, w`log, w.buf
      ensures w.Valid() && w.log == Mapper1Log(old(w.log), g)
    {
      hide Writer.Valid;
      w.U8(g.mapper);
      w.U8(g.mirroring);
      w.U8(g.mmc1Shift);
      w.U8(g.mmc1ShiftCount);
    }

    static method SaveBanks(w: Writer, g: Banks)
      requires w.Valid()
      modifies w`pos, w`overflow, w`log, w.buf
      ensures w.Valid() && w.log == BanksLog(old(w.log), g)
    {
      hide Writer.Valid;
      w.U8(g.prgBank);
      w.U8(g.chrBank);
      w.U8(g.mmc3RegSelect);
    }

    static method SaveMapper4(w: Writer, g: Mapper4)
      requires w.Valid()
      modifies w`pos, w`overflow, w`log, w.buf
      ensures w.Valid() && w.log == Mapper4Log(old(w.log), g)
    {
      hide Writer.Valid;
      w.U8(g.irqLatch);
      w.U8(g.irqCounter);
      w.U8(g.irqReloadPending);
      w.U8(g.irqEnable);
      w.U8(g.irqAsserted);
      w.U8(g.a12Prev);
      w.U8(g.chrRam);
    }

    method SaveMachine(w: Writer)
      requires Valid() && w.Valid() && (w.buf != null ==> w.buf !in Memories())
      modifies w`pos, w`overflow, w`log, w.buf
      ensures w.Valid() && w.log == MachineLog(old(w.log), MachineState())
    {
      hide Writer.Valid, CpuLog, PpuLog, Log.Block;
      SaveCpu(w, cpu);
      w.Block(ram);
      w.Block(vram);
      w.Block(palette);
      w.Block(oam);
      SavePpu(w, ppu);
    }

    method SaveSound(w: Writer)
      requires Valid() && w.Valid() && (w.buf != null ==> w.buf !in Memories())
      modifies w`pos, w`overflow, w`log, w.buf
      ensures w.Valid() && w.log == SoundLog(old(w.log), NarrowedSound(sound))
    {
      hide Writer.Valid, SequencerLog, PulseLog, TriangleLog, NoiseLog, DmcLog, Log.U32;
      SaveSequencer(w, sound.sequencer);
      SavePulse(w, sound.pulse0);
      SavePulse(w, sound.pulse1);
      SaveTriangle(w, sound.triangle);
      SaveNoise(w, sound.noise);
      SaveDmc(w, sound.dmc);
      w.U32(sound.sampleAcc);
      w.U32(sound.outPos % 0x1_0000_0000);
    }

    method SavePad(w: Writer)
      requires Valid() && w.Valid() && (w.buf != null ==> w.buf !in Memories())
      modifies w`pos, w`overflow, w`log, w.buf
      ensures w.Valid() && w.log == PadLog(old(w.log), NarrowedPad(pad))
    {
      hide Writer.Valid, Log.U8;
      w.U8(pad.buttons % 0x100);
      w.U8(pad.shift);
      w.U8(pad.strobe);
    }

    method SaveCart(w: Writer)
      requires Valid() && w.Valid() && (w.buf != null ==> w.buf !in Memories())
      modifies w`pos, w`overflow, w`log, w.buf
      ensures w.Valid() && w.log == CartLog(old(w.log), CartState(), 0x2000)
    {
      hide Writer.Valid, Mapper1Log, BanksLog, Mapper4Log, Log.Block, Log.U32;
      SaveMapper1(w, mapper1);
      w.Block(mmc1Regs);
      SaveBanks(w, banks);
      w.Block(mmc3Regs);
      SaveMapper4(w, mapper4);
      w.U32(0x2000);
      if prgRam != null {
        w.Block(prgRam);
      }
    }

    /** Every field in order; the machine is only read. */
    method Serialize(w: Writer)
      requires Valid() && w.Valid() && (w.buf != null ==> w.buf !in Memories())
      requires w.log == Start
      modifies w`pos, w`overflow, w`log, w.buf
      ensures w.Valid() && w.log == NesLog(Narrowed(State()), WRITTEN)
    {
      hide Writer.Valid, MachineLog, SoundLog, PadLog, CartLog, Log.U32, Log.U64, MachineState, CartState;
      w.U32(MAGIC);
      w.U32(VERSION);
      w.U32(CORE);
      SaveMachine(w);
      SaveSound(w);
      SavePad(w);
      SaveCart(w);
      w.U64(totalCycles);
    }

    /** The count-only pass. */
    method Size() returns (size: nat)
      requires Valid()
      ensures size == |Saved(State())| == StateSize(prgRam != null)
    {
      hide NesLog, Narrowed;
      var w := new Writer(null, 0);
      Serialize(w);
      size := w.pos;
      SavedAccepted(State(), [], 0);
    }

    /** Refused with the buffer untouched, or the whole blob at its start. */
    method SaveState(buf: array?<Byte>, cap: nat) returns (r: Result)
      requires Valid() && (buf != null ==> cap <= buf.Length && buf !in Memories())
      modifies buf
      ensures r == if buf == null then Invalid else if !hasRom then NoRom
        else if cap < StateSize(prgRam != null) then NoSpace else Ok
      ensures buf != null && r != Ok ==> buf[..] == old(buf[..])
      ensures r == Ok ==> buf[..] == Saved(State()) + old(buf[StateSize(prgRam != null)..])
    {
      hide NesLog, Narrowed;
      if buf == null {
        return Invalid;
      }
      if !hasRom {
        return NoRom;
      }
      var needed := Size();
      if cap < needed {
        return NoSpace;
      }
      var w := new Writer(buf, cap);
      Serialize(w);
      if w.overflow {
        return NoSpace;
      }
      return Ok;
    }

    // ---- loading ------------------------------------------------------------

    static method LoadCpu(r: Reader) returns (g: Cpu)
      requires r.Valid()
      modifies r
      ensures r.Valid() && r.log == CpuLog(old(r.log), g)
    {
      hide Reader.Valid;
      var a := r.U8();
      var x := r.U8();
      var y := r.U8();
      var s := r.U8();
      var p := r.U8();
      var pc := r.U16();
      var nmiPending := r.U8();
      var irqLine := r.U8();
      var dmaStall := r.U32();
      g := Cpu(
        a, x, y, s, p, pc, nmiPending, irqLine, dmaStall);
    }

    static method LoadPpu(r: Reader) returns (g: Ppu)
      requires r.Valid()
      modifies r
      ensures r.Valid() && r.log == PpuLog(old(r.log), g)
    {
      hide Reader.Valid;
      var ctrl := r.U8();
      var mask := r.U8();
      var status := r.U8();
      var oamAddr := r.U8();
      var openBus := r.U8();
      var v := r.U16();
      var t := r.U16();
      var fineX := r.U8();
      var w := r.U8();
      var readBuffer := r.U8();
      var scanline := r.U16();
      var dot := r.U16();
      var oddFrame := r.U8();
      var vblankEvent := r.U8();
      var nmiLine := r.U8();
      var nmiOutPrev := r.U8();
      g := Ppu(
        ctrl, mask, status, oamAddr, openBus, v, t, fineX, w, readBuffer, scanline, dot, oddFrame,
        vblankEvent, nmiLine, nmiOutPrev);
    }

    static method LoadSequencer(r: Reader) returns (g: Sequencer)
      requires r.Valid()
      modifies r
      ensures r.Valid() && r.log == SequencerLog(old(r.log), g)
    {
      hide Reader.Valid;
      var frameCycles := r.U32();
      var frameStep := r.U32();
      var mode5 := r.U8();
      var irqInhibit := r.U8();
      var frameIrq := r.U8();
      g := Sequencer(
        frameCycles, frameStep, mode5, irqInhibit, frameIrq);
    }

    static method LoadPulse(r: Reader) returns (g: Pulse)
      requires r.Valid()
      modifies r
      ensures r.Valid() && r.log == PulseLog(old(r.log), g)
    {
      hide Reader.Valid;
      var enabled := r.U8();
      var duty := r.U8();
      var dutyPos := r.U8();
      var timer := r.U16();
      var period := r.U16();
      var lenCounter := r.U8();
      var lenEnable := r.U8();
      var envVolume := r.U8();
      var envPeriod := r.U8();
      var envTimer := r.U8();
      var envDirection := r.U8();
      var volume := r.U8();
      var constantVolume := r.U8();
      var sweepEnable := r.U8();
      var sweepPeriod := r.U8();
      var sweepTimer := r.U8();
      var sweepNegate := r.U8();
      var sweepShift := r.U8();
      var sweepReload := r.U8();
      var freq := r.U16();
      var dac := r.U8();
      g := Pulse(
        enabled, duty, dutyPos, timer, period, lenCounter, lenEnable, envVolume, envPeriod,
        envTimer, envDirection, volume, constantVolume, sweepEnable, sweepPeriod, sweepTimer,
        sweepNegate, sweepShift, sweepReload, freq, dac);
    }

    static method LoadTriangle(r: Reader) returns (g: Triangle)
      requires r.Valid()
      modifies r
      ensures r.Valid() && r.log == TriangleLog(old(r.log), g)
    {
      hide Reader.Valid;
      var enabled := r.U8();
      var timer := r.U16();
      var period := r.U16();
      var seqPos := r.U8();
      var lenCounter := r.U8();
      var lenEnable := r.U8();
      var linearCounter := r.U8();
      var linearReload := r.U8();
      var linearCtrl := r.U8();
      var linearReloadFlag := r.U8();
      g := Triangle(
        enabled, timer, period, seqPos, lenCounter, lenEnable, linearCounter, linearReload,
        linearCtrl, linearReloadFlag);
    }

    static method LoadNoise(r: Reader) returns (g: Noise)
      requires r.Valid()
      modifies r
      ensures r.Valid() && r.log == NoiseLog(old(r.log), g)
    {
      hide Reader.Valid;
      var enabled := r.U8();
      var timer := r.U16();
      var period := r.U16();
      var lfsr := r.U16();
      var mode := r.U8();
      var lenCounter := r.U8();
      var lenEnable := r.U8();
      var envVolume := r.U8();
      var envPeriod := r.U8();
      var envTimer := r.U8();
      var envDirection := r.U8();
      var volume := r.U8();
      var constantVolume := r.U8();
      var dac := r.U8();
      g := Noise(
        enabled, timer, period, lfsr, mode, lenCounter, lenEnable, envVolume, envPeriod, envTimer,
        envDirection, volume, constantVolume, dac);
    }

    static method LoadDmc(r: Reader) returns (g: Dmc)
      requires r.Valid()
      modifies r
      ensures r.Valid() && r.log == DmcLog(old(r.log), g)
    {
      hide Reader.Valid;
      var enabled := r.U8();
      var irqEnable := r.U8();
      var loop := r.U8();
      var rate := r.U16();
      var timer := r.U16();
      var outputLevel := r.U8();
      var sampleAddr := r.U16();
      var sampleLen := r.U16();
      var bytesRemaining := r.U16();
      var addrCounter := r.U16();
      var sampleBuffer := r.U8();
      var bufferEmpty := r.U8();
      var shift := r.U8();
      var bitsRemaining := r.U8();
      var silence := r.U8();
      var irqFlag := r.U8();
      g := Dmc(
        enabled, irqEnable, loop, rate, timer, outputLevel, sampleAddr, sampleLen, bytesRemaining,
        addrCounter, sampleBuffer, bufferEmpty, shift, bitsRemaining, silence, irqFlag);
    }

    static method LoadMapper1(r: Reader) returns (g: Mapper1)
      requires r.Valid()
      modifies r
      ensures r.Valid() && r.log == Mapper1Log(old(r.log), g)
    {
      hide Reader.Valid;
      var mapper := r.U8();
      var mirroring := r.U8();
      var mmc1Shift := r.U8();
      var mmc1ShiftCount := r.U8();
      g := Mapper1(
        mapper, mirroring, mmc1Shift, mmc1ShiftCount);
    }

    static method LoadBanks(r: Reader) returns (g: Banks)
      requires r.Valid()
      modifies r
      ensures r.Valid() && r.log == BanksLog(old(r.log), g)
    {
      hide Reader.Valid;
      var prgBank := r.U8();
      var chrBank := r.U8();
      var mmc3RegSelect := r.U8();
      g := Banks(
        prgBank, chrBank, mmc3RegSelect);
    }

    static method LoadMapper4(r: Reader) returns (g: Mapper4)
      requires r.Valid()
      modifies r
      ensures r.Valid() && r.log == Mapper4Log(old(r.log), g)
    {
      hide Reader.Valid;
      var irqLatch := r.U8();
      var irqCounter := r.U8();
      var irqReloadPending := r.U8();
      var irqEnable := r.U8();
      var irqAsserted := r.U8();
      var a12Prev := r.U8();
      var chrRam := r.U8();
      g := Mapper4(
        irqLatch, irqCounter, irqReloadPending, irqEnable, irqAsserted, a12Prev, chrRam);
    }

    method LoadMachine(r: Reader)
      requires Valid() && r.Valid() && r.buf !in Memories()
      modifies r, this`cpu, this`ppu, ram, vram, palette, oam
      ensures r.Valid() && r.log == MachineLog(old(r.log), MachineState())
    {
      hide Reader.Valid, CpuLog, PpuLog, Log.Block;
      cpu := LoadCpu(r);
      r.Block(ram);
      r.Block(vram);
      r.Block(palette);
      r.Block(oam);
      ppu := LoadPpu(r);
    }

    method LoadSound(r: Reader)
      requires r.Valid()
      modifies r, this`sound
      ensures r.Valid() && r.log == SoundLog(old(r.log), sound)
    {
      hide Reader.Valid, SequencerLog, PulseLog, TriangleLog, NoiseLog, DmcLog, Log.U32;
      var s := LoadSequencer(r);
      var p0 := LoadPulse(r);
      var p1 := LoadPulse(r);
      var t := LoadTriangle(r);
      var n := LoadNoise(r);
      var d := LoadDmc(r);
      var acc := r.U32();
      var pos := r.U32();
      sound := Sound(s, p0, p1, t, n, d, acc, pos);
    }

    method LoadPad(r: Reader)
      requires r.Valid()
      modifies r, this`pad
      ensures r.Valid() && r.log == PadLog(old(r.log), pad)
    {
      hide Reader.Valid, Log.U8;
      var buttons := r.U8();
      var shift := r.U8();
      var strobe := r.U8();
      pad := Pad(buttons, shift, strobe);
    }

    method LoadCart(r: Reader) returns (ghost ramSize: Word)
      requires Valid() && r.Valid() && r.buf !in Memories()
      modifies r, this`mapper1, this`banks, this`mapper4, mmc1Regs, mmc3Regs, prgRam
      ensures r.Valid() && r.log == CartLog(old(r.log), CartState(), ramSize)
    {
      hide Reader.Valid, Mapper1Log, BanksLog, Mapper4Log, Log.Block, Log.U32;
      mapper1 := LoadMapper1(r);
      r.Block(mmc1Regs);
      banks := LoadBanks(r);
      r.Block(mmc3Regs);
      mapper4 := LoadMapper4(r);
      var size := r.U32();
      ramSize := size;
      if prgRam != null {
        r.Block(prgRam);
      }
    }

    /** The header is skipped. */
    method LoadFront(r: Reader) returns (ghost asRead: Sound, ghost f: Frame)
      requires Valid() && r.Valid() && r.log == Start && r.buf !in Memories()
      modifies r, this`cpu, this`ppu, this`sound, ram, vram, palette, oam
      ensures r.Valid() && r.log == SoundLog(MachineLog(HeaderLog(Start, f), MachineState()), asRead)
      ensures sound == ClampedSound(asRead, outCap)
    {
      hide Reader.Valid, MachineLog, SoundLog, Log.U32, MachineState;
      var magic := r.U32();
      var version := r.U32();
      var core := r.U32();
      f := Frame(magic, version, core, 0);
      LoadMachine(r);
      LoadSound(r);
      asRead := sound;
      if sound.outPos > outCap {
        sound := sound.(outPos := 0);
      }
    }

    method LoadBack(r: Reader) returns (ghost ramSize: Word)
      requires Valid() && r.Valid() && r.buf !in Memories()
      modifies r, this`pad, this`totalCycles, this`mapper1, this`banks, this`mapper4, mmc1Regs, mmc3Regs, prgRam
      ensures r.Valid()
      ensures r.log == CartLog(PadLog(old(r.log), pad), CartState(), ramSize).U64(totalCycles)
    {
      hide Reader.Valid, PadLog, CartLog, Log.U64, CartState;
      LoadPad(r);
      ramSize := LoadCart(r);
      totalCycles := r.U64();
    }

    /** Every field in order; an audio position past the end of the buffer is
        dropped. `raw` is the state as read. */
    method Deserialize(r: Reader) returns (ghost raw: Nes, ghost f: Frame)
      requires Valid() && r.Valid() && r.log == Start && r.buf !in Memories()
      modifies r, this, Memories()
      ensures r.Valid() && r.log == NesLog(raw, f) && State() == Clamped(raw, outCap)
      ensures hasRom == old(hasRom)
    {
      hide Reader.Valid, MachineLog, SoundLog, PadLog, CartLog, HeaderLog, Log.U64, MachineState, CartState;
      ghost var asRead, front := LoadFront(r);
      ghost var ramSize := LoadBack(r);
      f := front.(ramSize := ramSize);
      raw := State().(sound := asRead);
      HeaderOnly(f, front);
    }

    /** A little-endian word at the start of `buf` from `at`. */
    static method WordAt(buf: array<Byte>, at: nat) returns (v: Word)
      requires at + 4 <= buf.Length
      ensures v == FromLe(buf[at..at + 4])
    {
      v := Join(Join(buf[at], buf[at + 1], 0x100), Join(buf[at + 2], buf[at + 3], 0x100), 0x10000);
      assert buf[at..at + 4] == [buf[at], buf[at + 1], buf[at + 2], buf[at + 3]];
      FromLeOfFour(buf[at], buf[at + 1], buf[at + 2], buf[at + 3]);
    }

    static method HeaderMatches(buf: array<Byte>, size: nat) returns (fits: bool)
      requires 12 <= size <= buf.Length
      ensures fits == HeaderFits(buf[..size])
    {
      ghost var blob := buf[..size];
      assert blob[..4] == buf[0..4] && blob[4..8] == buf[4..8] && blob[8..12] == buf[8..12];
      var magic := WordAt(buf, 0);
      var version := WordAt(buf, 4);
      var core := WordAt(buf, 8);
      fits := magic == MAGIC && version == VERSION && core == CORE;
    }

    /** The verdict follows from the blob's length and header. A blob refused for
        either leaves the machine alone; one refused because it ends early has
        been restored with zeroes past its end. */
    method LoadState(buf: array?<Byte>, size: nat) returns (r: Result)
      requires Valid() && (buf != null ==> size <= buf.Length && buf !in Memories())
      modifies this, Memories()
      ensures buf == null ==> r == Invalid
      ensures buf != null ==> r == LoadResult(old(buf[..size]), old(hasRom), prgRam != null)
      ensures buf == null || size < 12 || !HeaderFits(old(buf[..size])) || !old(hasRom) ==> State() == old(State())
      ensures buf != null && size >= 12 && HeaderFits(old(buf[..size])) && old(hasRom) ==>
        Restored(State(), outCap, old(buf[..size]))
    {
      hide NesLog, HeaderFits, Parsed;
      if buf == null || size == 0 {
        return Invalid;
      }
      if size < 12 {
        return BadState;
      }
      var fits := HeaderMatches(buf, size);
      if !fits {
        return BadState;
      }
      if !hasRom {
        return NoRom;
      }
      var reader := new Reader(buf, size);
      ghost var raw, f := Deserialize(reader);
      NesLogged(raw, raw, f, f);
      if reader.bad {
        return BadState;
      }
      return Ok;
    }
  }

  lemma FromLeOfFour(a: Byte, b: Byte, c: Byte, d: Byte)
    ensures FromLe([a, b, c, d]) == Join(Join(a, b, 0x100), Join(c, d, 0x100), 0x10000)
    ensures Join(Join(a, b, 0x100), Join(c, d, 0x100), 0x10000) < 0x1_0000_0000
  {
    assert [d][1..] == [] && [c, d][1..] == [d] && [b, c, d][1..] == [c, d] && [a, b, c, d][1..] == [b, c, d];
    assert FromLe([d]) == d;
    assert FromLe([c, d]) == c + 0x100 * d;
    assert FromLe([b, c, d]) == b + 0x100 * FromLe([c, d]);
  }
}
