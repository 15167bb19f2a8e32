/** The ARM7TDMI's banked registers as the core keeps them: one live set in r13, r14
    and the SPSR view, the inactive banks in arrays. The specification is a flat
    file with one r13, r14 and SPSR per bank. */
module GbaCpu {
  import opened Words

  const MODE_FIQ: Byte := 0x11
  const MODE_IRQ: Byte := 0x12
  const MODE_SVC: Byte := 0x13
  const MODE_ABT: Byte := 0x17
  const MODE_UND: Byte := 0x1B

  const SPSR_VIEW := 6

  datatype Cpu = Cpu(r: seq<Word>, cpsr: Word, bankR13: seq<Word>, bankR14: seq<Word>, fiqR8: seq<Word>,
                     spsr: seq<Word>, mode: Byte, biosDispatch: bool)
  {
    predicate Valid() {
      |r| == 16 && |bankR13| == 6 && |bankR14| == 6 && |fiqR8| == 5 && |spsr| == 7
    }
  }

  function BankIndex(mode: Byte): (b: nat)
    ensures b < 6
  {
    if mode == MODE_FIQ then 1
    else if mode == MODE_IRQ then 2
    else if mode == MODE_SVC then 3
    else if mode == MODE_ABT then 4
    else if mode == MODE_UND then 5
    else 0
  }

  /** Five modes have registers of their own; all others share one set. */
  lemma BanksApart(m: Byte, n: Byte)
    ensures BankIndex(m) == BankIndex(n)
       <==> m == n || (m !in {0x11, 0x12, 0x13, 0x17, 0x1B} && n !in {0x11, 0x12, 0x13, 0x17, 0x1B})
    ensures BankIndex(m) == 1 <==> m == 0x11
  {
  }

  /** The CPSR with its five mode bits replaced. */
  function WithMode(cpsr: Word, mode: Byte): (v: Word)
    ensures v / 0x20 == cpsr / 0x20 && v % 0x20 == mode % 0x20
  {
    cpsr - cpsr % 0x20 + mode % 0x20
  }

  lemma WithModeTwice(cpsr: Word, m: Byte, n: Byte)
    ensures WithMode(WithMode(cpsr, m), n) == WithMode(cpsr, n)
  {
  }

  function SetMode(c: Cpu, mode: Byte): (c2: Cpu)
    requires c.Valid()
    ensures c2.Valid()
  {
    var o, n := BankIndex(c.mode), BankIndex(mode);
    var d := c.(mode := mode, cpsr := WithMode(c.cpsr, mode));
    if o == n then d
    else
      var bank13, bank14, spsr := c.bankR13[o := c.r[13]], c.bankR14[o := c.r[14]], c.spsr[o := c.spsr[SPSR_VIEW]];
      var fiq := if o == 1 then c.r[8..13] else c.fiqR8;
      var low := if n == 1 then c.r[..8] + fiq else c.r[..13];
      d.(bankR13 := bank13, bankR14 := bank14, fiqR8 := fiq,
         spsr := spsr[SPSR_VIEW := spsr[n]],
         r := low + [bank13[n], bank14[n], c.r[15]])
  }

  // ---- the flat file --------------------------------------------------------

  /** One bank's private registers. */
  datatype Bank = Bank(r13: Word, r14: Word, spsr: Word)

  /** All banks and which of them is visible. */
  datatype Flat = Flat(current: nat, banks: seq<Bank>)

  function BankOf(c: Cpu, b: nat): Bank
    requires c.Valid() && b < 6
  {
    if b == BankIndex(c.mode) then Bank(c.r[13], c.r[14], c.spsr[SPSR_VIEW])
    else Bank(c.bankR13[b], c.bankR14[b], c.spsr[b])
  }

  function View(c: Cpu): (f: Flat)
    requires c.Valid()
    ensures |f.banks| == 6 && f.current == BankIndex(c.mode) < 6
  {
    Flat(BankIndex(c.mode), seq(6, b requires 0 <= b < 6 => BankOf(c, b)))
  }

  /** A mode switch moves values between the live set and the arrays, but in the
      flat file it only selects another bank. r0-r7 and r15 stay; r8-r12 do too
      unless the switch enters FIQ mode, which brings in FIQ's own copies. */
  lemma SetModeSelectsBank(c: Cpu, mode: Byte)
    requires c.Valid()
    ensures View(SetMode(c, mode)) == View(c).(current := BankIndex(mode))
    ensures var d := SetMode(c, mode);
      && d.cpsr == WithMode(c.cpsr, mode) && d.mode == mode && d.biosDispatch == c.biosDispatch
      && d.r[..8] == c.r[..8] && d.r[15] == c.r[15]
      && d.r[8..13] == (if BankIndex(mode) == 1 && BankIndex(c.mode) != 1 then c.fiqR8 else c.r[8..13])
      && d.fiqR8 == (if BankIndex(c.mode) == 1 && BankIndex(mode) != 1 then c.r[8..13] else c.fiqR8)
  {
    var d := SetMode(c, mode);
    forall b: nat | b < 6
      ensures BankOf(d, b) == BankOf(c, b)
    {
    }
  }

  // ---- any sequence of switches and writes ----------------------------------

  datatype Op =
    | Switch(mode: Byte)
    | WriteR13(v: Word)
    | WriteR14(v: Word)
    | WriteSpsr(v: Word)

  function Step(c: Cpu, op: Op): (c2: Cpu)
    requires c.Valid()
    ensures c2.Valid()
  {
    match op
    case Switch(mode) => SetMode(c, mode)
    case WriteR13(v) => c.(r := c.r[13 := v])
    case WriteR14(v) => c.(r := c.r[14 := v])
    case WriteSpsr(v) => c.(spsr := c.spsr[SPSR_VIEW := v])
  }

  function FlatStep(f: Flat, op: Op): (f2: Flat)
    requires |f.banks| == 6 && f.current < 6
    ensures |f2.banks| == 6 && f2.current < 6
  {
    var b := f.banks[f.current];
    match op
    case Switch(mode) => f.(current := BankIndex(mode))
    case WriteR13(v) => f.(banks := f.banks[f.current := b.(r13 := v)])
    case WriteR14(v) => f.(banks := f.banks[f.current := b.(r14 := v)])
    case WriteSpsr(v) => f.(banks := f.banks[f.current := b.(spsr := v)])
  }

  function RunOps(c: Cpu, ops: seq<Op>): (c2: Cpu)
    requires c.Valid()
    ensures c2.Valid()
    decreases |ops|
  {
    if ops == [] then c else RunOps(Step(c, ops[0]), ops[1..])
  }

  function FlatRun(f: Flat, ops: seq<Op>): Flat
    requires |f.banks| == 6 && f.current < 6
    decreases |ops|
  {
    if ops == [] then f else FlatRun(FlatStep(f, ops[0]), ops[1..])
  }

  lemma StepRefines(c: Cpu, op: Op)
    requires c.Valid()
    ensures View(Step(c, op)) == FlatStep(View(c), op)
  {
    var d := Step(c, op);
    if op.Switch? {
      SetModeSelectsBank(c, op.mode);
    } else {
      forall b: nat | b < 6
        ensures BankOf(d, b) == FlatStep(View(c), op).banks[b]
      {
      }
    }
  }

  /** Over every sequence of mode switches and register writes the banked core and
      the flat file agree. */
  lemma {:induction false} BankingRefinesFlatFile(c: Cpu, ops: seq<Op>)
    requires c.Valid()
    ensures View(RunOps(c, ops)) == FlatRun(View(c), ops)
    decreases |ops|
  {
    if ops != [] {
      StepRefines(c, ops[0]);
      BankingRefinesFlatFile(Step(c, ops[0]), ops[1..]);
    }
  }

  /** Switching away and back brings every r13, r14 and SPSR back, and r8-r12 too
      unless FIQ's copies were brought in from outside FIQ mode: the other modes'
      r8-r12 have no place to be saved in. */
  lemma SwitchAndBack(c: Cpu, away: Byte)
    requires c.Valid()
    ensures var d := SetMode(SetMode(c, away), c.mode);
      && View(d) == View(c) && d.mode == c.mode && d.cpsr == WithMode(c.cpsr, c.mode)
      && d.r[..8] == c.r[..8] && d.r[13..] == c.r[13..]
      && (d.r == c.r <==> BankIndex(away) != 1 || BankIndex(c.mode) == 1 || c.fiqR8 == c.r[8..13])
  {
    hide SetMode, WithMode;
    var m := SetMode(c, away);
    WithModeTwice(c.cpsr, away, c.mode);
    SetModeSelectsBank(c, away);
    SetModeSelectsBank(m, c.mode);
    var d := SetMode(m, c.mode);
    assert View(d).banks[View(d).current] == View(c).banks[View(c).current];
    assert BankOf(d, BankIndex(c.mode)) == BankOf(c, BankIndex(c.mode));
    assert d.r == d.r[..8] + d.r[8..13] + d.r[13..] && c.r == c.r[..8] + c.r[8..13] + c.r[13..];
    assert d.r[13..] == [d.r[13], d.r[14], d.r[15]] && c.r[13..] == [c.r[13], c.r[14], c.r[15]];
  }

  // ---- exceptions -----------------------------------------------------------

  const FLAG_I := 0x80
  const FLAG_T := 0x20

  function BitSet(v: Word, bit: int): bool
    requires bit > 0
  {
    v / bit % 2 == 1
  }

  /** v | bit, for a single bit of a word. */
  function OrBit(v: Word, bit: int): Word
    requires bit in {2, 0x10, FLAG_T, FLAG_I}
  {
    if BitSet(v, bit) then v else v + bit
  }

  function ClearBit(v: Word, bit: int): Word
    requires bit in {2, 0x10, FLAG_T, FLAG_I}
  {
    if BitSet(v, bit) then v - bit else v
  }

  /** The status register's low byte, field by field: I, F, T, and the mode number as
      bits 4, 3-2, 1 and 0. */
  datatype Psr = Psr(high: nat, i: nat, f: nat, t: nat, m4: nat, m32: nat, m1: nat, m0: nat)
  {
    predicate Valid() {
      high < 0x1000000 && i < 2 && f < 2 && t < 2 && m4 < 2 && m32 < 4 && m1 < 2 && m0 < 2
    }

    function ModeField(): (m: nat)
      requires Valid()
      ensures m < 0x20
    {
      0x10 * m4 + 4 * m32 + 2 * m1 + m0
    }

    function Value(): Word
      requires Valid()
    {
      0x100 * high + 0x80 * i + 0x40 * f + 0x20 * t + ModeField()
    }
  }

  lemma PsrFields(p: Psr)
    requires p.Valid()
    ensures var v := p.Value();
      && v / 0x100 == p.high && v / 0x80 % 2 == p.i && v / 0x40 % 2 == p.f && v / 0x20 % 2 == p.t
      && v % 0x20 == p.ModeField()
      && v / 0x10 % 2 == p.m4 && v / 4 % 4 == p.m32 && v / 2 % 2 == p.m1 && v % 2 == p.m0
  {
    var g, e := 2 * p.high + p.i, 4 * p.high + 2 * p.i + p.f;
    var d := 2 * e + p.t;
    var c := 2 * d + p.m4;
    var b := 4 * c + p.m32;
    var a := 2 * b + p.m1;
    DivModUnique(2, a, p.m0);
    DivModUnique(4, b, 2 * p.m1 + p.m0);
    DivModUnique(0x10, c, 4 * p.m32 + 2 * p.m1 + p.m0);
    DivModUnique(0x20, d, p.ModeField());
    DivModUnique(0x40, e, 0x20 * p.t + p.ModeField());
    DivModUnique(0x80, g, 0x40 * p.f + 0x20 * p.t + p.ModeField());
    DivModUnique(0x100, p.high, 0x80 * p.i + 0x40 * p.f + 0x20 * p.t + p.ModeField());
    LowDigits(p, a, b, c, d, e, g);
  }

  lemma LowDigits(p: Psr, a: int, b: int, c: int, d: int, e: int, g: int)
    requires p.Valid()
    requires a == 2 * b + p.m1 && b == 4 * c + p.m32 && c == 2 * d + p.m4
    requires d == 2 * e + p.t && e == 2 * g + p.f && g == 2 * p.high + p.i
    ensures g % 2 == p.i && e % 2 == p.f && d % 2 == p.t && c % 2 == p.m4 && b % 4 == p.m32 && a % 2 == p.m1
  {
    LastDigit(2, p.high, p.i);
    LastDigit(2, g, p.f);
    LastDigit(2, e, p.t);
    LastDigit(2, d, p.m4);
    LastDigit(4, c, p.m32);
    LastDigit(2, b, p.m1);
  }

  lemma LastDigit(w: int, q: int, r: int)
    requires 0 <= r < w
    ensures (w * q + r) % w == r
  {
    DivModUnique(w, q, r);
  }

  lemma PsrOf(v: Word) returns (p: Psr)
    ensures p.Valid() && p.Value() == v
  {
    var a := v / 2;
    var b := a / 2;
    var c := b / 4;
    var d := c / 2;
    var e := d / 2;
    var g := e / 2;
    p := Psr(g / 2, g % 2, e % 2, d % 2, c % 2, b % 4, a % 2, v % 2);
  }

  lemma PsrBits(p: Psr)
    requires p.Valid()
    ensures OrBit(p.Value(), FLAG_I) == p.(i := 1).Value() && ClearBit(p.Value(), FLAG_T) == p.(t := 0).Value()
    ensures OrBit(p.Value(), FLAG_T) == p.(t := 1).Value()
    ensures OrBit(p.Value(), 0x10) == p.(m4 := 1).Value() && OrBit(p.Value(), 2) == p.(m1 := 1).Value()
  {
    PsrFields(p);
  }

  function Exception(c: Cpu, vector: Word, mode: Byte, lrOffset: Word, saveSpsr: bool): (c2: Cpu)
    requires c.Valid()
    ensures c2.Valid()
  {
    var lr := Plus(c.r[15], lrOffset);
    var d := SetMode(c, mode);
    var e := if saveSpsr then d.(spsr := d.spsr[SPSR_VIEW := c.cpsr]) else d;
    e.(r := e.r[14 := lr][15 := AlignDown(vector)], cpsr := ClearBit(OrBit(e.cpsr, FLAG_I), FLAG_T))
  }

  /** An exception writes the return address and, when asked, the old CPSR into the
      bank it enters, and no other bank. */
  lemma ExceptionFlat(c: Cpu, vector: Word, mode: Byte, lrOffset: Word, saveSpsr: bool)
    requires c.Valid()
    ensures var d, b, f := Exception(c, vector, mode, lrOffset, saveSpsr), BankIndex(mode), View(c);
      View(d) == Flat(b, f.banks[b := Bank(f.banks[b].r13, Plus(c.r[15], lrOffset),
                                           if saveSpsr then c.cpsr else f.banks[b].spsr)])
  {
    var d, b := Exception(c, vector, mode, lrOffset, saveSpsr), BankIndex(mode);
    SetModeSelectsBank(c, mode);
    var s := SetMode(c, mode);
    forall x: nat | x < 6
      ensures BankOf(s, x) == View(c).banks[x]
    {
      assert View(s).banks[x] == View(c).banks[x];
    }
  }

  /** What the program sees at an exception's vector: the aligned vector in the PC, the
      return address in r14, interrupts off, ARM state, the new mode, the other status
      bits and r0-r7 as they were, and the old status register in the SPSR if asked. */
  lemma ExceptionEntered(c: Cpu, vector: Word, mode: Byte, lrOffset: Word, saveSpsr: bool)
    requires c.Valid()
    ensures var d := Exception(c, vector, mode, lrOffset, saveSpsr);
      && d.r[15] == vector - vector % 4 && d.r[14] == (c.r[15] + lrOffset) % 0x1_0000_0000
      && d.cpsr / 0x80 % 2 == 1 && d.cpsr / 0x20 % 2 == 0
      && d.cpsr / 0x100 == c.cpsr / 0x100 && d.cpsr / 0x40 % 2 == c.cpsr / 0x40 % 2
      && d.cpsr % 0x20 == mode % 0x20 && d.mode == mode
      && d.r[..8] == c.r[..8] && (saveSpsr ==> d.spsr[6] == c.cpsr)
  {
    hide SetMode, WithMode, OrBit, ClearBit;
    SetModeSelectsBank(c, mode);
    var p := PsrOf(c.cpsr);
    var q := PsrOf(SetMode(c, mode).cpsr);
    PsrFields(p);
    PsrFields(q);
    HighFields(p, q);
    PsrBits(q);
    PsrBits(q.(i := 1));
    PsrFields(q.(i := 1).(t := 0));
  }

  lemma HighFields(p: Psr, q: Psr)
    requires p.Valid() && q.Valid() && p.Value() / 0x20 == q.Value() / 0x20
    ensures p.high == q.high && p.f == q.f
  {
    DivModUnique(0x20, 8 * p.high + 4 * p.i + 2 * p.f + p.t, p.ModeField());
    DivModUnique(0x20, 8 * q.high + 4 * q.i + 2 * q.f + q.t, q.ModeField());
  }
}
