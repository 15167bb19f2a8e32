/** The emulated BIOS interrupt path: entry through the handler pointer in work RAM,
    and the return when the handler branches to address zero. */
module GbaIrq {
  import opened Words
  import opened GbaMemory
  import opened GbaCpu

  datatype Gba = Gba(cpu: Cpu, mem: Memory)

  const HANDLER: Word := 0x03007FFC
  const FRAME_WORDS := 6

  /** Six words below a stack pointer; negative if that is below address zero. */
  function FrameBase(sp: Word): int {
    sp - 24
  }

  /** The CPSR during the handler: T cleared, I set and the IRQ mode number OR-ed
      into the mode field. */
  function IrqCpsr(cpsr: Word): Word {
    OrBit(OrBit(OrBit(ClearBit(cpsr, FLAG_T), FLAG_I), 0x10), 2)
  }

  /** Stores vals[n-1], ..., vals[0] at falling addresses; vals[k] ends 4k bytes
      above `base`. */
  function StoreDown(bus: Bus, m: Memory, base: int, vals: seq<Word>, n: nat): Memory
    requires n <= |vals|
    decreases n
  {
    if n == 0 then m
    else
      var m1 := Write32(bus, m, WordAddr(base, n - 1), vals[n - 1]);
      StoreDown(bus, m1, base, vals, n - 1)
  }

  /** The saved registers in address order, above the new stack pointer. */
  function Frame(c: Cpu): (f: seq<Word>)
    requires c.Valid()
    ensures |f| == FRAME_WORDS
  {
    [c.r[0], c.r[1], c.r[2], c.r[3], c.r[12], Plus(c.r[15], 4)]
  }

  function EnterHandler(c: Cpu, saved: Word, handler: Word): (c2: Cpu)
    requires c.Valid()
    ensures c2.Valid()
  {
    c.(r := c.r[13 := Plus(c.r[13], -24)][14 := 0][15 := handler / 2 * 2],
       spsr := c.spsr[SPSR_VIEW := saved],
       cpsr := if handler % 2 == 1 then OrBit(ClearBit(IrqCpsr(saved), FLAG_T), FLAG_T)
               else ClearBit(IrqCpsr(saved), FLAG_T),
       biosDispatch := true)
  }

  function Dispatch(bus: Bus, g: Gba): (g2: Gba)
    requires g.cpu.Valid()
    ensures g2.cpu.Valid()
  {
    var handler := Read32(bus, g.mem, HANDLER);
    if handler == 0 then g
    else
      var c := SetMode(g.cpu, MODE_IRQ);
      Gba(EnterHandler(c, g.cpu.cpsr, handler),
          StoreDown(bus, g.mem, FrameBase(c.r[13]), Frame(c), FRAME_WORDS))
  }

  /** The registers after the frame has been popped. */
  function PoppedRegs(bus: Bus, m: Memory, r: seq<Word>): (r2: seq<Word>)
    requires |r| == 16
    ensures |r2| == 16
  {
    var sp := r[13];
    [Read32(bus, m, sp), Read32(bus, m, WordAddr(sp, 1)), Read32(bus, m, WordAddr(sp, 2)),
     Read32(bus, m, WordAddr(sp, 3))]
    + r[4..12]
    + [Read32(bus, m, WordAddr(sp, 4)), Plus(sp, 24), r[14], Plus(Read32(bus, m, WordAddr(sp, 5)), -4)]
  }

  function Return(bus: Bus, g: Gba): (g2: Gba)
    requires g.cpu.Valid()
    ensures g2.cpu.Valid()
  {
    var c := g.cpu;
    var d := c.(r := PoppedRegs(bus, g.mem, c.r), biosDispatch := false, cpsr := c.spsr[SPSR_VIEW]);
    Gba(SetMode(d, d.cpsr % 0x20), g.mem)
  }

  // ---- the stack frame ------------------------------------------------------

  ghost predicate FrameInRam(base: int) {
    forall k :: 0 <= k < FRAME_WORDS ==> RamWord(WordAddr(base, k))
  }

  /** The pushed values are all there afterwards, at their own addresses. */
  lemma {:induction false} FrameStored(bus: Bus, m: Memory, base: int, vals: seq<Word>, n: nat, k: nat)
    requires n <= |vals| == FRAME_WORDS && k < FRAME_WORDS && FrameInRam(base)
    ensures Read32(bus, StoreDown(bus, m, base, vals, n), WordAddr(base, k))
         == if k < n then vals[k] else Read32(bus, m, WordAddr(base, k))
    decreases n
  {
    hide Read32, Write32, WordAddr, RamWord;
    if n > 0 {
      var m1 := Write32(bus, m, WordAddr(base, n - 1), vals[n - 1]);
      FrameStored(bus, m1, base, vals, n - 1, k);
      assert RamWord(WordAddr(base, n - 1)) && RamWord(WordAddr(base, k));
      if k == n - 1 {
        WordRoundTrip(bus, m, WordAddr(base, k), vals[k]);
      } else if k >= n {
        WordFrame(bus, m, base, n - 1, k, vals[n - 1]);
      }
    }
  }

  /** Address arithmetic from the moved stack pointer. */
  lemma FromStackPointer(sp: Word, k: int)
    ensures WordAddr(Plus(sp, -24), k) == WordAddr(FrameBase(sp), k)
    ensures Plus(Plus(sp, -24), 24) == sp
    ensures WordAddr(Plus(sp, -24), 0) == Plus(sp, -24)
  {
    hide Wrap;
    WrapAdd(sp - 24, 4 * k);
    WrapAdd(sp - 24, 24);
    WrapAdd(sp - 24, 0);
    WrapSmall(sp);
  }

  // ---- transparency ---------------------------------------------------------

  /** What a handler entered in `entry` and finished in `exit` has to leave alone:
      r4-r11, its stack pointer and frame, IRQ mode and the saved SPSR, and the
      interrupted mode's bank `b`. */
  ghost predicate HandlerKeeps(bus: Bus, entry: Gba, exit: Gba, b: nat)
    requires entry.cpu.Valid() && exit.cpu.Valid() && b < 6
  {
    && exit.cpu.r[4..12] == entry.cpu.r[4..12]
    && exit.cpu.r[13] == entry.cpu.r[13]
    && BankIndex(exit.cpu.mode) == 2
    && exit.cpu.spsr[SPSR_VIEW] == entry.cpu.spsr[SPSR_VIEW]
    && BankOf(exit.cpu, b) == BankOf(entry.cpu, b)
    && (b == 1 ==> exit.cpu.fiqR8 == entry.cpu.fiqR8)
    && forall k :: 0 <= k < FRAME_WORDS ==>
         Read32(bus, exit.mem, WordAddr(exit.cpu.r[13], k)) == Read32(bus, entry.mem, WordAddr(entry.cpu.r[13], k))
  }

  /** The state that the interrupted program is entitled to find unchanged. */
  ghost predicate SameProgramState(c: Cpu, d: Cpu)
    requires c.Valid() && d.Valid()
  {
    d.r == c.r && d.cpsr == c.cpsr && d.mode == c.mode && d.spsr[SPSR_VIEW] == c.spsr[SPSR_VIEW]
  }

  /** The frame pushed on entry is what a well-behaved handler leaves for Return. */
  lemma FrameSurvives(bus: Bus, g: Gba, exit: Gba, k: nat)
    requires g.cpu.Valid() && exit.cpu.Valid() && k < FRAME_WORDS
    requires Read32(bus, g.mem, HANDLER) != 0
    requires FrameInRam(FrameBase(SetMode(g.cpu, MODE_IRQ).r[13]))
    requires HandlerKeeps(bus, Dispatch(bus, g), exit, BankIndex(g.cpu.mode))
    ensures Read32(bus, exit.mem, WordAddr(exit.cpu.r[13], k)) == Frame(SetMode(g.cpu, MODE_IRQ))[k]
  {
    hide Read32, WordAddr, RamWord, SetMode, IrqCpsr, OrBit, ClearBit;
    var c := SetMode(g.cpu, MODE_IRQ);
    FromStackPointer(c.r[13], k);
    FrameStored(bus, g.mem, FrameBase(c.r[13]), Frame(c), FRAME_WORDS, k);
  }

  /** Entry keeps r0-r12 and every bank but IRQ's. */
  lemma EntryKeeps(c0: Cpu, handler: Word)
    requires c0.Valid() && BankIndex(c0.mode) != 2
    ensures var c := SetMode(c0, MODE_IRQ);
      var e := EnterHandler(c, c0.cpsr, handler);
      && c.r[..13] == e.r[..13] == c0.r[..13] && c.r[15] == c0.r[15] && BankIndex(e.mode) == 2
      && (forall b: nat :: b < 6 && b != 2 ==> BankOf(e, b) == BankOf(c0, b))
      && c.r[13] == BankOf(c0, 2).r13
      && (BankIndex(c0.mode) == 1 ==> e.fiqR8 == c0.r[8..13])
      && e.spsr[SPSR_VIEW] == c0.cpsr && e.r[13] == Plus(c.r[13], -24)
  {
    hide SetMode, WithMode, IrqCpsr, OrBit, ClearBit;
    var c := SetMode(c0, MODE_IRQ);
    var e := EnterHandler(c, c0.cpsr, handler);
    SetModeSelectsBank(c0, MODE_IRQ);
    forall b: nat | b < 6
      ensures BankOf(c, b) == BankOf(c0, b)
    {
      assert View(c).banks[b] == View(c0).banks[b];
    }
    assert c.r[..13] == c.r[..8] + c.r[8..13] && c0.r[..13] == c0.r[..8] + c0.r[8..13];
    forall b: nat | b < 6 && b != 2
      ensures BankOf(e, b) == BankOf(c, b)
    {
    }
  }

  /** The return puts the frame back and makes bank `b` visible. */
  lemma ReturnRestores(bus: Bus, x: Gba, b: nat, low: seq<Word>, pc: Word)
    requires x.cpu.Valid() && BankIndex(x.cpu.mode) == 2
    requires b != 2 && b == BankIndex(x.cpu.spsr[SPSR_VIEW] % 0x20)
    requires |low| == 13 && x.cpu.r[4..12] == low[4..12] && (b == 1 ==> x.cpu.fiqR8 == low[8..13])
    requires forall k :: 0 <= k < FRAME_WORDS ==>
      Read32(bus, x.mem, WordAddr(x.cpu.r[13], k)) == [low[0], low[1], low[2], low[3], low[12], Plus(pc, 4)][k]
    ensures var d, bank := Return(bus, x).cpu, BankOf(x.cpu, b);
      && d.r == low + [bank.r13, bank.r14, pc]
      && d.cpsr == x.cpu.spsr[SPSR_VIEW] && d.mode == d.cpsr % 0x20
      && d.spsr[SPSR_VIEW] == bank.spsr && !d.biosDispatch
      && BankOf(d, 2).r13 == Plus(x.cpu.r[13], 24)
  {
    hide SetMode, WithMode, Read32, WordAddr, Plus, BankIndex, Return;
    var c, sp := x.cpu, x.cpu.r[13];
    var d := c.(r := [low[0], low[1], low[2], low[3]] + c.r[4..12] + [low[12], Plus(sp, 24), c.r[14], pc],
                biosDispatch := false, cpsr := c.spsr[SPSR_VIEW]);
    ReturnPops(bus, x, low, pc);
    var e := SetMode(d, d.cpsr % 0x20);
    SetModeSelectsBank(d, d.cpsr % 0x20);
    SameMode(d.cpsr);
    assert View(e).banks[b] == View(d).banks[b] && View(e).banks[2] == View(d).banks[2];
    assert BankOf(d, b) == BankOf(c, b);
    RestoredRegisters(c.r, low, Plus(sp, 24), pc);
    assert e.r == e.r[..8] + e.r[8..13] + [e.r[13], e.r[14], e.r[15]];
    assert low == low[..8] + low[8..13];
  }

  lemma ReturnPops(bus: Bus, x: Gba, low: seq<Word>, pc: Word)
    requires x.cpu.Valid() && |low| == 13
    requires forall k :: 0 <= k < FRAME_WORDS ==>
      Read32(bus, x.mem, WordAddr(x.cpu.r[13], k)) == [low[0], low[1], low[2], low[3], low[12], Plus(pc, 4)][k]
    ensures var c, sp := x.cpu, x.cpu.r[13];
      var d := c.(r := [low[0], low[1], low[2], low[3]] + c.r[4..12] + [low[12], Plus(sp, 24), c.r[14], pc],
                  biosDispatch := false, cpsr := c.spsr[SPSR_VIEW]);
      Return(bus, x) == Gba(SetMode(d, d.cpsr % 0x20), x.mem)
  {
    hide SetMode, Read32, WordAddr, Plus;
    SpAddress(x.cpu.r[13]);
    ReturnAddress(pc);
  }

  lemma RestoredRegisters(r: seq<Word>, low: seq<Word>, sp: Word, pc: Word)
    requires |r| == 16 && |low| == 13 && r[4..12] == low[4..12]
    ensures var d := [low[0], low[1], low[2], low[3]] + r[4..12] + [low[12], sp, r[14], pc];
      d[..8] == low[..8] && d[8..13] == low[8..13] && d[13] == sp && d[14] == r[14] && d[15] == pc
  {
    assert [low[0], low[1], low[2], low[3]] + low[4..12] + [low[12]] == low;
  }

  lemma SpAddress(sp: Word)
    ensures WordAddr(sp, 0) == sp
  {
  }

  lemma ReturnAddress(pc: Word)
    ensures Plus(Plus(pc, 4), -4) == pc
  {
    WrapAdd(pc + 4, -4);
  }

  lemma SameMode(cpsr: Word)
    ensures WithMode(cpsr, cpsr % 0x20) == cpsr
  {
  }

  /** Interrupt transparency: from any mode but IRQ, entry, a well-behaved handler
      and the return leave r0-r15, CPSR, mode and SPSR view exactly as they were,
      and the IRQ stack pointer back where it was. */
  lemma InterruptTransparent(bus: Bus, g: Gba, exit: Gba)
    requires g.cpu.Valid() && exit.cpu.Valid()
    requires BankIndex(g.cpu.mode) != 2 && g.cpu.mode == g.cpu.cpsr % 0x20
    requires Read32(bus, g.mem, HANDLER) != 0
    requires FrameInRam(FrameBase(SetMode(g.cpu, MODE_IRQ).r[13]))
    requires HandlerKeeps(bus, Dispatch(bus, g), exit, BankIndex(g.cpu.mode))
    ensures SameProgramState(g.cpu, Return(bus, exit).cpu)
    ensures !Return(bus, exit).cpu.biosDispatch
    ensures BankOf(Return(bus, exit).cpu, 2).r13 == BankOf(g.cpu, 2).r13
  {
    hide Read32, RamWord, Write32, WordAddr, StoreDown, SetMode, EnterHandler, Return, FrameInRam;
    var c0 := g.cpu;
    var c := SetMode(c0, MODE_IRQ);
    var b, low := BankIndex(c0.mode), c0.r[..13];
    EntryKeeps(c0, Read32(bus, g.mem, HANDLER));
    forall k: nat | k < FRAME_WORDS
      ensures Read32(bus, exit.mem, WordAddr(exit.cpu.r[13], k))
           == [low[0], low[1], low[2], low[3], low[12], Plus(c0.r[15], 4)][k]
    {
      FrameSurvives(bus, g, exit, k);
      assert c.r[..13] == low;
    }
    assert exit.cpu.r[4..12] == low[4..12] by {
      assert Dispatch(bus, g).cpu.r[4..12] == Dispatch(bus, g).cpu.r[..13][4..12];
    }
    ReturnRestores(bus, exit, b, low, c0.r[15]);
    FromStackPointer(c.r[13], 0);
    assert c0.r == low + [c0.r[13], c0.r[14], c0.r[15]];
  }

  // ---- the entry as the program sees it -------------------------------------

  /** The IRQ stack pointer, wherever it is kept. */
  function IrqStack(c: Cpu): Word
    requires c.Valid()
  {
    if c.mode == 0x12 then c.r[13] else c.bankR13[2]
  }

  /** The handler's status register: I and the two bits of the IRQ mode number are
      set, T is the handler pointer's bit 0, and all other bits are as they were. */
  lemma EntryStatus(bus: Bus, g: Gba)
    requires g.cpu.Valid() && Read32(bus, g.mem, 0x03007FFC) != 0
    ensures var v, was, h := Dispatch(bus, g).cpu.cpsr, g.cpu.cpsr, Read32(bus, g.mem, 0x03007FFC);
      && v / 0x100 == was / 0x100 && v / 0x80 % 2 == 1 && v / 0x40 % 2 == was / 0x40 % 2
      && v / 0x20 % 2 == h % 2 && v / 0x10 % 2 == 1 && v / 4 % 4 == was / 4 % 4
      && v / 2 % 2 == 1 && v % 2 == was % 2
  {
    hide Read32, SetMode, StoreDown, OrBit, ClearBit;
    var p := PsrOf(g.cpu.cpsr);
    var q := p.(t := 0).(i := 1).(m4 := 1).(m1 := 1);
    PsrFields(p);
    PsrBits(p);
    PsrBits(p.(t := 0));
    PsrBits(p.(t := 0).(i := 1));
    PsrBits(p.(t := 0).(i := 1).(m4 := 1));
    PsrBits(q);
    PsrFields(q);
    PsrFields(q.(t := 1));
  }

  /** The handler is entered: at the address the pointer word holds, its bit 0
      cleared, in IRQ mode with the old status register saved, the return address
      zero and the IRQ stack six words lower; r0-r12 are as they were. Without a
      pointer nothing happens. */
  lemma HandlerEntered(bus: Bus, g: Gba)
    requires g.cpu.Valid()
    ensures var d, h := Dispatch(bus, g).cpu, Read32(bus, g.mem, 0x03007FFC);
      if h == 0 then Dispatch(bus, g) == g
      else
        && d.r[15] == h - h % 2 && d.r[14] == 0 && d.r[13] == (IrqStack(g.cpu) - 24) % 0x1_0000_0000
        && d.r[..13] == g.cpu.r[..13]
        && d.mode == 0x12 && d.spsr[6] == g.cpu.cpsr && d.biosDispatch
  {
    hide Read32, StoreDown, IrqCpsr, OrBit, ClearBit, WithMode, SetMode;
    SetModeSelectsBank(g.cpu, MODE_IRQ);
    var c := SetMode(g.cpu, MODE_IRQ);
    assert c.r[..13] == c.r[..8] + c.r[8..13] && g.cpu.r[..13] == g.cpu.r[..8] + g.cpu.r[8..13];
    IrqStackVisible(g.cpu);
  }

  /** The interrupted program's registers are on the IRQ stack: r0-r3, r12 and the
      address four past the next instruction, in rising order. */
  lemma FramePushed(bus: Bus, g: Gba, base: int)
    requires g.cpu.Valid() && Read32(bus, g.mem, 0x03007FFC) != 0
    requires base == IrqStack(g.cpu) - 24 && FrameInRam(base)
    ensures FrameWords(bus, Dispatch(bus, g).mem, base)
         == [g.cpu.r[0], g.cpu.r[1], g.cpu.r[2], g.cpu.r[3], g.cpu.r[12], Plus(g.cpu.r[15], 4)]
  {
    hide Read32, StoreDown, FrameInRam, SetMode, WithMode, EnterHandler;
    SetModeSelectsBank(g.cpu, MODE_IRQ);
    var c, m := SetMode(g.cpu, MODE_IRQ), Dispatch(bus, g).mem;
    IrqStackVisible(g.cpu);
    forall k: nat | k < 6
      ensures FrameWords(bus, m, base)[k] == Frame(c)[k]
    {
      FrameStored(bus, g.mem, base, Frame(c), 6, k);
    }
    assert c.r[12] == c.r[8..13][4] == g.cpu.r[12];
    assert c.r[0] == c.r[..8][0] && c.r[1] == c.r[..8][1] && c.r[2] == c.r[..8][2] && c.r[3] == c.r[..8][3];
  }

  /** The six words from address `base` on. */
  function FrameWords(bus: Bus, m: Memory, base: int): (f: seq<Word>)
    ensures |f| == 6
  {
    seq(6, k => Read32(bus, m, WordAddr(base, k)))
  }

  lemma IrqStackVisible(c0: Cpu)
    requires c0.Valid()
    ensures SetMode(c0, MODE_IRQ).r[13] == IrqStack(c0)
  {
    hide WithMode;
  }

  /** The mode field during the handler agrees with the mode the core is in only if
      the interrupted mode's number has no bit outside IRQ's: the entry ORs the two.
      From system mode the field reads 1Fh while the core runs in IRQ mode. */
  lemma HandlerModeField(bus: Bus, g: Gba)
    requires g.cpu.Valid() && Read32(bus, g.mem, HANDLER) != 0
    ensures var d := Dispatch(bus, g).cpu;
      d.cpsr % 0x20 == d.mode <==> g.cpu.cpsr % 0x20 in {0, 2, 0x10, 0x12}
  {
    hide Read32, Dispatch;
    EntryStatus(bus, g);
    HandlerEntered(bus, g);
    IrqModeField(Dispatch(bus, g).cpu.cpsr, g.cpu.cpsr);
  }

  lemma IrqModeField(v: Word, was: Word)
    requires v / 0x10 % 2 == 1 && v / 4 % 4 == was / 4 % 4 && v / 2 % 2 == 1 && v % 2 == was % 2
    ensures v % 0x20 == 0x12 <==> was % 0x20 in {0, 2, 0x10, 0x12}
  {
    FieldDigits(v);
    FieldDigits(was);
  }

  lemma FieldDigits(v: Word)
    ensures v % 0x20 == 0x10 * (v / 0x10 % 2) + 4 * (v / 4 % 4) + 2 * (v / 2 % 2) + v % 2
  {
    var p := PsrOf(v);
    PsrFields(p);
  }
}
