/** The CPU core's mutable state: registers, banks and memory updated in place, each
    routine proved to compute its specification. */
module GbaCore {
  import opened Words
  import opened GbaMemory
  import Banks = GbaCpu
  import Irq = GbaIrq
  import Block = GbaBlock

  class Core {
    const bus: Bus
    const r: array<Word>
    const bankR13: array<Word>
    const bankR14: array<Word>
    const bankR8Fiq: array<Word>
    const spsr: array<Word>
    var cpsr: Word
    var mode: Byte
    var biosDispatch: bool
    var mem: Memory

    ghost predicate Valid()
      reads this
    {
      && r.Length == 16 && bankR13.Length == 6 && bankR14.Length == 6 && bankR8Fiq.Length == 5 && spsr.Length == 7
      && bankR13 != bankR14
    }

    ghost function Cpu(): (c: Banks.Cpu)
      reads this, r, bankR13, bankR14, bankR8Fiq, spsr
      requires Valid()
      ensures c.Valid()
    {
      Banks.Cpu(r[..], cpsr, bankR13[..], bankR14[..], bankR8Fiq[..], spsr[..], mode, biosDispatch)
    }

    /** Power-on: supervisor mode with the documented stack pointers. */
    constructor (bus: Bus, mem: Memory)
      ensures Valid() && this.bus == bus && this.mem == mem
      ensures fresh(r) && fresh(bankR13) && fresh(bankR14) && fresh(bankR8Fiq) && fresh(spsr)
      ensures Cpu().mode == Cpu().cpsr % 0x20 && Banks.BankIndex(Cpu().mode) == 3
      ensures Banks.View(Cpu()).banks[0].r13 == 0x03007F00 && Banks.View(Cpu()).banks[2].r13 == 0x03007FA0
      ensures Banks.View(Cpu()).banks[3].r13 == 0x03007FE0
    {
      this.bus, this.mem := bus, mem;
      r := new Word[16](i => if i == 13 then 0x03007FE0 else if i == 15 then 0x08000000 else 0);
      bankR13 := new Word[6](i => if i == 0 then 0x03007F00 else if i == 2 then 0x03007FA0
                                  else if i == 3 then 0x03007FE0 else 0);
      bankR14 := new Word[6](_ => 0);
      bankR8Fiq := new Word[5](_ => 0);
      spsr := new Word[7](_ => 0);
      cpsr, mode, biosDispatch := 0xD3, Banks.MODE_SVC, false;
    }

    /** The live registers of bank `b` into the arrays. */
    method SaveBank(b: nat)
      requires Valid() && b < 6
      modifies bankR13, bankR14, bankR8Fiq, spsr
      ensures bankR13[..] == old(bankR13[..])[b := r[13]] && bankR14[..] == old(bankR14[..])[b := r[14]]
      ensures spsr[..] == old(spsr[..])[b := old(spsr[6])]
      ensures bankR8Fiq[..] == if b == 1 then r[8..13] else old(bankR8Fiq[..])
    {
      bankR13[b] := r[13];
      bankR14[b] := r[14];
      spsr[b] := spsr[6];
      if b == 1 {
        forall i | 0 <= i < 5 {
          bankR8Fiq[i] := r[8 + i];
        }
      }
    }

    /** The arrays' registers of bank `b` into the live set. */
    method LoadBank(b: nat)
      requires Valid() && b < 6
      modifies r, spsr
      ensures r[..] == (if b == 1 then old(r[..8]) + bankR8Fiq[..] else old(r[..13]))
                       + [bankR13[b], bankR14[b], old(r[15])]
      ensures spsr[..] == old(spsr[..])[6 := old(spsr[b])]
    {
      r[13] := bankR13[b];
      r[14] := bankR14[b];
      spsr[6] := spsr[b];
      if b == 1 {
        forall i | 0 <= i < 5 {
          r[8 + i] := bankR8Fiq[i];
        }
      }
    }

    method SetMode(newMode: Byte)
      requires Valid()
      modifies this`mode, this`cpsr, r, bankR13, bankR14, bankR8Fiq, spsr
      ensures Valid() && Cpu() == Banks.SetMode(old(Cpu()), newMode)
    {
      var oldB := Banks.BankIndex(mode);
      var newB := Banks.BankIndex(newMode);
      mode := newMode;
      cpsr := Banks.WithMode(cpsr, newMode);
      if oldB == newB {
        return;
      }
      SaveBank(oldB);
      LoadBank(newB);
    }

    method Exception(vector: Word, newMode: Byte, lrOffset: Word, saveSpsr: bool)
      requires Valid()
      modifies this`mode, this`cpsr, r, bankR13, bankR14, bankR8Fiq, spsr
      ensures Valid() && Cpu() == Banks.Exception(old(Cpu()), vector, newMode, lrOffset, saveSpsr)
    {
      hide Banks.SetMode, Banks.OrBit, Banks.ClearBit, Plus, AlignDown;
      var oldCpsr := cpsr;
      var lr := Plus(r[15], lrOffset);
      SetMode(newMode);
      if saveSpsr {
        spsr[6] := oldCpsr;
      }
      r[14] := lr;
      cpsr := Banks.OrBit(cpsr, Banks.FLAG_I);
      cpsr := Banks.ClearBit(cpsr, Banks.FLAG_T);
      r[15] := AlignDown(vector);
    }

    /** Pushes one word, stack pointer first. */
    method Push(sp: Word, v: Word) returns (sp2: Word)
      modifies this`mem
      ensures sp2 == Plus(sp, -4) && mem == Write32(bus, old(mem), sp2, v)
    {
      sp2 := Plus(sp, -4);
      mem := Write32(bus, mem, sp2, v);
    }

    method PushFrame(sp0: Word, pc: Word) returns (sp: Word)
      requires Valid() && r[15] == pc
      modifies this`mem
      ensures sp == Plus(sp0, -24)
      ensures mem == Irq.StoreDown(bus, old(mem), Irq.FrameBase(sp0), Irq.Frame(Cpu()), 6)
    {
      ghost var m0, base, frame := mem, Irq.FrameBase(sp0), Irq.Frame(Cpu());
      PushAddresses(sp0);
      sp := Push(sp0, Plus(pc, 4));
      sp := Push(sp, r[12]);
      sp := Push(sp, r[3]);
      sp := Push(sp, r[2]);
      sp := Push(sp, r[1]);
      sp := Push(sp, r[0]);
      StoreDownUnrolled(bus, m0, base, frame);
    }

    /** Interrupt entry; without an installed handler the interrupt stays pending. */
    method IrqDispatch()
      requires Valid()
      modifies this, r, bankR13, bankR14, bankR8Fiq, spsr
      ensures Valid() && Irq.Gba(Cpu(), mem) == Irq.Dispatch(bus, old(Irq.Gba(Cpu(), mem)))
    {
      hide Read32, Banks.SetMode, Irq.StoreDown, Irq.EnterHandler, Plus, Irq.FrameBase;
      var handler := Read32(bus, mem, Irq.HANDLER);
      if handler == 0 {
        return;
      }
      var nextPc := r[15];
      var oldCpsr := cpsr;
      Banks.SetModeSelectsBank(Cpu(), Banks.MODE_IRQ);
      SetMode(Banks.MODE_IRQ);
      var sp := PushFrame(r[13], nextPc);
      EnterHandler(sp, oldCpsr, handler);
    }

    /** IRQ-mode registers at the handler's first instruction. */
    method EnterHandler(sp: Word, oldCpsr: Word, handler: Word)
      requires Valid() && sp == Plus(r[13], -24)
      modifies this`cpsr, this`biosDispatch, r, spsr
      ensures Valid() && Cpu() == Irq.EnterHandler(old(Cpu()), oldCpsr, handler)
    {
      hide Irq.IrqCpsr, Banks.OrBit, Banks.ClearBit, Plus;
      spsr[6] := oldCpsr;
      cpsr := Irq.IrqCpsr(oldCpsr);
      r[13] := sp;
      r[14] := 0;
      biosDispatch := true;
      cpsr := if handler % 2 == 1 then Banks.OrBit(Banks.ClearBit(cpsr, Banks.FLAG_T), Banks.FLAG_T)
              else Banks.ClearBit(cpsr, Banks.FLAG_T);
      r[15] := handler / 2 * 2;
    }

    method PopFrame()
      requires Valid()
      modifies r
      ensures r[..] == Irq.PoppedRegs(bus, mem, old(r[..]))
    {
      hide Read32, WordAddr, Plus;
      ghost var regs := r[..];
      var sp := r[13];
      var ret := Read32(bus, mem, WordAddr(sp, 5));
      r[0] := Read32(bus, mem, sp);
      r[1] := Read32(bus, mem, WordAddr(sp, 1));
      r[2] := Read32(bus, mem, WordAddr(sp, 2));
      r[3] := Read32(bus, mem, WordAddr(sp, 3));
      r[12] := Read32(bus, mem, WordAddr(sp, 4));
      r[13] := Plus(sp, 24);
      r[15] := Plus(ret, -4);
      assert r[..] == regs[0 := r[0]][1 := r[1]][2 := r[2]][3 := r[3]][12 := r[12]][13 := r[13]][15 := r[15]];
      assert r[4..12] == regs[4..12];
    }

    /** Return from the handler to the interrupted program. */
    method IrqReturn()
      requires Valid()
      modifies this, r, bankR13, bankR14, bankR8Fiq, spsr
      ensures Valid() && Irq.Gba(Cpu(), mem) == Irq.Return(bus, old(Irq.Gba(Cpu(), mem)))
    {
      hide Banks.SetMode, Irq.PoppedRegs;
      PopFrame();
      biosDispatch := false;
      cpsr := spsr[6];
      SetMode(cpsr % 0x20);
    }

    method CountListed(list: Block.RegList) returns (count: nat)
      ensures count == Block.Count(list, 16)
    {
      count := 0;
      var i := 0;
      while i < 16
        invariant 0 <= i <= 16 && count == Block.Count(list, i)
      {
        if list[i] {
          count := count + 1;
        }
        i := i + 1;
      }
    }

    method BlockStore(rn: nat, list: Block.RegList, up: bool, pre: bool, writeback: bool)
      requires Valid() && rn < 16
      modifies this`mem, r
      ensures (mem, r[..]) == Block.Stm(bus, old(mem), old(r[..]), rn, list, up, pre, writeback)
    {
      hide Write32, Wrap;
      ghost var regs: Block.Regs := r[..];
      var count := CountListed(list);
      var base := r[rn];
      ghost var start := Block.Start(base, count, up, pre);
      var addr := Wrap(Block.Start(base, count, up, pre));
      var i := 0;
      while i < 16
        invariant 0 <= i <= 16 && r[..] == regs
        invariant addr == WordAddr(start, Block.Count(list, i))
        invariant mem == Block.StoreRegs(bus, old(mem), start, regs, list, i)
      {
        if list[i] {
          var v := if i == 15 then Plus(r[15], 4) else r[i];
          mem := Write32(bus, mem, addr, v);
          WrapAdd(start + 4 * Block.Count(list, i), 4);
          addr := Plus(addr, 4);
        }
        i := i + 1;
      }
      if writeback {
        r[rn] := Block.WrittenBack(base, count, up);
      }
    }

    method BlockLoad(rn: nat, list: Block.RegList, up: bool, pre: bool, writeback: bool)
      requires Valid() && rn < 16
      modifies r
      ensures r[..] == Block.Ldm(bus, mem, old(r[..]), rn, list, up, pre, writeback)
    {
      hide Read32, Wrap;
      ghost var regs: Block.Regs := r[..];
      var count := CountListed(list);
      var base := r[rn];
      ghost var start := Block.Start(base, count, up, pre);
      var addr := Wrap(Block.Start(base, count, up, pre));
      var loadedPc := r[15];
      var i := 0;
      while i < 16
        invariant 0 <= i <= 16
        invariant addr == WordAddr(start, Block.Count(list, i))
        invariant r[..] == Block.LoadRegs(bus, mem, start, regs, list, i)[15 := r[15]] && r[15] == regs[15]
        invariant loadedPc == Block.LoadRegs(bus, mem, start, regs, list, i)[15]
      {
        if list[i] {
          var v := Read32(bus, mem, AlignDown(addr));
          if i == 15 {
            loadedPc := v;
          } else {
            r[i] := v;
          }
          WrapAdd(start + 4 * Block.Count(list, i), 4);
          addr := Plus(addr, 4);
        }
        i := i + 1;
      }
      Block.LoadGives(bus, mem, start, regs, list, 16, 15);
      if list[15] {
        r[15] := AlignDown(loadedPc);
        return;
      }
      if writeback && !list[rn] {
        r[rn] := Block.WrittenBack(base, count, up);
      }
    }
  }

  lemma PushAddresses(sp: Word)
    ensures var p5 := Plus(sp, -4);
      var p4 := Plus(p5, -4);
      var p3 := Plus(p4, -4);
      var p2 := Plus(p3, -4);
      var p1 := Plus(p2, -4);
      var p0 := Plus(p1, -4);
      var base := Irq.FrameBase(sp);
      && p0 == Plus(sp, -24)
      && [p0, p1, p2, p3, p4, p5] == [WordAddr(base, 0), WordAddr(base, 1), WordAddr(base, 2), WordAddr(base, 3),
                                      WordAddr(base, 4), WordAddr(base, 5)]
  {
    hide Wrap;
    WrapAdd(sp - 4, -4);
    WrapAdd(sp - 8, -4);
    WrapAdd(sp - 12, -4);
    WrapAdd(sp - 16, -4);
    WrapAdd(sp - 20, -4);
  }

  lemma StoreDownUnrolled(bus: Bus, m: Memory, base: int, vals: seq<Word>)
    requires |vals| == 6
    ensures var m5 := Write32(bus, m, WordAddr(base, 5), vals[5]);
      var m4 := Write32(bus, m5, WordAddr(base, 4), vals[4]);
      var m3 := Write32(bus, m4, WordAddr(base, 3), vals[3]);
      var m2 := Write32(bus, m3, WordAddr(base, 2), vals[2]);
      var m1 := Write32(bus, m2, WordAddr(base, 1), vals[1]);
      Irq.StoreDown(bus, m, base, vals, 6) == Write32(bus, m1, WordAddr(base, 0), vals[0])
  {
    hide Write32, WordAddr;
    var m5 := Write32(bus, m, WordAddr(base, 5), vals[5]);
    var m4 := Write32(bus, m5, WordAddr(base, 4), vals[4]);
    var m3 := Write32(bus, m4, WordAddr(base, 3), vals[3]);
    var m2 := Write32(bus, m3, WordAddr(base, 2), vals[2]);
    var m1 := Write32(bus, m2, WordAddr(base, 1), vals[1]);
    assert Irq.StoreDown(bus, m5, base, vals, 5) == Irq.StoreDown(bus, m4, base, vals, 4);
    assert Irq.StoreDown(bus, m3, base, vals, 3) == Irq.StoreDown(bus, m2, base, vals, 2);
    assert Irq.StoreDown(bus, m1, base, vals, 1) == Write32(bus, m1, WordAddr(base, 0), vals[0]);
  }
}
