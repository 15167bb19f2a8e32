/** The two processors' decimal instructions, on their own registers and memory. */
module BcdCores {
  import opened Words
  import opened Bcd

  /** The 68000 as far as ABCD and SBCD reach: registers, work RAM and flags. */
  datatype State68 = State68(d: seq<Word>, a: seq<Word>, ram: seq<Byte>, x: Bit, c: Bit, z: bool)

  predicate Sized(s: State68) {
    |s.d| == 8 && |s.a| == 8 && |s.ram| == 0x10000
  }

  /** Work RAM answers to the top two megabytes of the 24-bit bus. */
  predicate InRam(addr: Word) {
    addr % 0x1000000 >= 0xE00000
  }

  function Cell(addr: Word): (i: nat)
    ensures i < 0x10000
  {
    addr % 0x10000
  }

  function Read8(ram: seq<Byte>, device: Word -> Byte, addr: Word): Byte
    requires |ram| == 0x10000
  {
    if InRam(addr) then ram[Cell(addr)] else device(addr % 0x1000000)
  }

  function Write8(ram: seq<Byte>, addr: Word, v: Byte): (r: seq<Byte>)
    requires |ram| == 0x10000
    ensures |r| == 0x10000
  {
    if InRam(addr) then ram[Cell(addr) := v] else ram
  }

  function LowByte(v: Word): Byte {
    v % 0x100
  }

  function WithLowByte(v: Word, b: Byte): Word {
    v - v % 0x100 + b
  }

  function OpOf(subtract: bool): Op {
    if subtract then Sbcd68 else Abcd68
  }

  function Flagged(s: State68, res: Byte, carry: Bit): State68 {
    s.(x := carry, c := carry, z := s.z && res == 0)
  }

  /** Data registers: Dx takes Dx with Dy. */
  function RegisterForm(s: State68, rx: nat, ry: nat, subtract: bool): (t: State68)
    requires Sized(s) && rx < 8 && ry < 8
    ensures Sized(t)
  {
    var (res, carry) := OpOf(subtract).Apply(LowByte(s.d[rx]), LowByte(s.d[ry]), s.x);
    Flagged(s.(d := s.d[rx := WithLowByte(s.d[rx], res)]), res, carry)
  }

  /** Both address registers step down, the source's first. */
  function MemoryForm(s: State68, rx: nat, ry: nat, subtract: bool, device: Word -> Byte): (t: State68)
    requires Sized(s) && rx < 8 && ry < 8
    ensures Sized(t)
  {
    var a1 := s.a[ry := Plus(s.a[ry], -1)];
    var b := Read8(s.ram, device, a1[ry]);
    var a2 := a1[rx := Plus(a1[rx], -1)];
    var (res, carry) := OpOf(subtract).Apply(Read8(s.ram, device, a2[rx]), b, s.x);
    Flagged(s.(a := a2, ram := Write8(s.ram, a2[rx], res)), res, carry)
  }

  class M68k {
    const d: array<Word>
    const a: array<Word>
    const ram: array<Byte>
    var x: Bit
    var c: Bit
    var z: bool
    /** What every other bus address reads as. */
    const device: Word -> Byte

    ghost predicate Valid() {
      d.Length == 8 && a.Length == 8 && ram.Length == 0x10000 && d != a
    }

    ghost function State(): (s: State68)
      reads this, d, a, ram
    {
      State68(d[..], a[..], ram[..], x, c, z)
    }

    constructor (device: Word -> Byte)
      ensures Valid() && fresh(d) && fresh(a) && fresh(ram) && this.device == device
    {
      d := new Word[8](_ => 0);
      a := new Word[8](_ => 0);
      ram := new Byte[0x10000](_ => 0);
      x, c, z := 0, 0, false;
      this.device := device;
    }

    method OpBcd(rx: nat, ry: nat, mem: bool, subtract: bool)
      requires Valid() && rx < 8 && ry < 8
      modifies this, d, a, ram
      ensures !mem ==> State() == RegisterForm(old(State()), rx, ry, subtract)
      ensures mem ==> State() == MemoryForm(old(State()), rx, ry, subtract, device)
    {
      hide Abcd, Sbcd, InRam, Cell;
      var left, right;
      if mem {
        a[ry] := Plus(a[ry], -1);
        right := Read(a[ry]);
        a[rx] := Plus(a[rx], -1);
        left := Read(a[rx]);
      } else {
        left := LowByte(d[rx]);
        right := LowByte(d[ry]);
      }
      var res, carry := Digits(left, right, x, subtract);
      if res != 0 {
        z := false;
      }
      x, c := carry, carry;
      if mem {
        if InRam(a[rx]) {
          ram[Cell(a[rx])] := res;
        }
      } else {
        d[rx] := WithLowByte(d[rx], res);
      }
    }

    method Read(addr: Word) returns (v: Byte)
      requires Valid()
      ensures v == Read8(ram[..], device, addr)
    {
      v := if InRam(addr) then ram[Cell(addr)] else device(addr % 0x1000000);
    }

    /** The two nibbles in turn. */
    static method Digits(left: Byte, right: Byte, xin: Bit, subtract: bool) returns (res: Byte, carry: Bit)
      ensures (res, carry) == OpOf(subtract).Apply(left, right, xin)
    {
      hide Hi, Lo;
      var lo: int := Lo(left);
      var hi: int := Hi(left);
      if !subtract {
        lo := lo + Lo(right) + xin;
        if lo > 9 {
          lo := lo + 6;
        }
        hi := hi + Hi(right) + if lo > 15 then 1 else 0;
        LoCases(lo);
        carry := if hi > 9 then 1 else 0;
        if carry == 1 {
          hi := hi - 10;
        }
      } else {
        lo := lo - Lo(right) - xin;
        hi := hi - Hi(right);
        if lo < 0 {
          lo := lo + 10;
          hi := hi - 1;
        }
        carry := if hi < 0 then 1 else 0;
        if carry == 1 {
          hi := hi + 10;
        }
      }
      LoCases(hi);
      LoCases(lo);
      res := 16 * Lo(hi) + Lo(lo);
    }
  }

  /** The register form, field by field: the low byte and the flags of its result, the
      rest of the register and of the state as before. Z is only ever cleared. */
  lemma RegisterFormFields(s: State68, rx: nat, ry: nat, subtract: bool)
    requires Sized(s) && rx < 8 && ry < 8
    ensures var t, l, r := RegisterForm(s, rx, ry, subtract), s.d[rx] % 0x100, s.d[ry] % 0x100;
      var (res, carry) := if subtract then Sbcd(l, r, s.x) else Abcd(l, r, s.x);
      && t.d[rx] % 0x100 == res && t.d[rx] / 0x100 == s.d[rx] / 0x100
      && (forall k :: 0 <= k < 8 && k != rx ==> t.d[k] == s.d[k])
      && t.a == s.a && t.ram == s.ram
      && t.x == carry && t.c == carry && (t.z <==> s.z && res == 0)
  {
    hide Sbcd, Abcd;
    var l, r := s.d[rx] % 0x100, s.d[ry] % 0x100;
    LowByteReplaced(s.d[rx], (if subtract then Sbcd(l, r, s.x) else Abcd(l, r, s.x)).0);
  }

  lemma LowByteReplaced(v: Word, b: Byte)
    ensures WithLowByte(v, b) % 0x100 == b && WithLowByte(v, b) / 0x100 == v / 0x100
  {
    DivModUnique(0x100, v / 0x100, b);
  }

  /** The memory form, field by field: the source address steps down first, then the
      destination's, so that one register used as both takes the byte one below it as
      source and the next as destination; an address is a work RAM cell if its low 24
      bits are E00000h or more, and other destinations lose the result. */
  lemma MemoryFormFields(s: State68, rx: nat, ry: nat, subtract: bool, device: Word -> Byte,
                         from: Word, to: Word, l: Byte, r: Byte)
    requires Sized(s) && rx < 8 && ry < 8
    requires from == Plus(s.a[ry], -1) && to == Plus(s.a[rx], if rx == ry then -2 else -1)
    requires r == if from % 0x1000000 >= 0xE00000 then s.ram[from % 0x10000] else device(from % 0x1000000)
    requires l == if to % 0x1000000 >= 0xE00000 then s.ram[to % 0x10000] else device(to % 0x1000000)
    ensures var t := MemoryForm(s, rx, ry, subtract, device);
      var (res, carry) := if subtract then Sbcd(l, r, s.x) else Abcd(l, r, s.x);
      && t.ram == (if to % 0x1000000 >= 0xE00000 then s.ram[to % 0x10000 := res] else s.ram)
      && t.a[rx] == to && (rx != ry ==> t.a[ry] == from)
      && (forall k :: 0 <= k < 8 && k != rx && k != ry ==> t.a[k] == s.a[k])
      && t.d == s.d && t.x == carry && t.c == carry && (t.z <==> s.z && res == 0)
  {
    hide Sbcd, Abcd, Plus;
    TwoBelow(s.a[ry]);
  }

  lemma TwoBelow(v: Word)
    ensures Plus(Plus(v, -1), -1) == Plus(v, -2)
  {
    WrapAdd(v - 1, -1);
  }

  // ---- decimal numbers in memory --------------------------------------------

  /** The `n` bytes below index `end`, the nearest first. */
  function Below(ram: seq<Byte>, end: nat, n: nat): (s: seq<Byte>)
    requires n <= end <= |ram|
    ensures |s| == n
  {
    seq(n, i requires 0 <= i < n => ram[end - 1 - i])
  }

  /** `n` memory forms in a row. */
  function Repeated(s: State68, rx: nat, ry: nat, subtract: bool, device: Word -> Byte, n: nat): (t: State68)
    requires Sized(s) && rx < 8 && ry < 8
    ensures Sized(t)
    decreases n
  {
    if n == 0 then s else Repeated(MemoryForm(s, rx, ry, subtract, device), rx, ry, subtract, device, n - 1)
  }

  /** Stepping an address down `n` times visits the work RAM cells below `end`. */
  predicate AtCells(addr: Word, end: nat, n: nat)
    decreases n
  {
    n <= end <= 0x10000
    && (n > 0 ==> InRam(Plus(addr, -1)) && Cell(Plus(addr, -1)) == end - 1 && AtCells(Plus(addr, -1), end - 1, n - 1))
  }

  lemma MemoryStep(s: State68, rx: nat, ry: nat, subtract: bool, device: Word -> Byte, p: nat, q: nat)
    requires Sized(s) && rx < 8 && ry < 8 && rx != ry && 0 < p <= 0x10000 && 0 < q <= 0x10000
    requires InRam(Plus(s.a[rx], -1)) && Cell(Plus(s.a[rx], -1)) == p - 1
    requires InRam(Plus(s.a[ry], -1)) && Cell(Plus(s.a[ry], -1)) == q - 1
    ensures var (b, carry) := OpOf(subtract).Apply(s.ram[p - 1], s.ram[q - 1], s.x);
      MemoryForm(s, rx, ry, subtract, device) ==
        s.(a := s.a[ry := Plus(s.a[ry], -1)][rx := Plus(s.a[rx], -1)], ram := s.ram[p - 1 := b],
           x := carry, c := carry, z := s.z && b == 0)
  {
    hide Cell, InRam, Plus, Op.Apply;
  }

  predicate AllZero(s: seq<Byte>) {
    forall i :: 0 <= i < |s| ==> s[i] == 0
  }

  lemma AllZeroCons(b: Byte, s: seq<Byte>)
    ensures AllZero([b] + s) <==> b == 0 && AllZero(s)
    ensures AllZero([])
  {
    if AllZero([b] + s) {
      assert ([b] + s)[0] == b;
      assert forall i :: 0 <= i < |s| ==> s[i] == ([b] + s)[i + 1];
    }
  }

  lemma ChainUnfolds(op: Op, xs: seq<Byte>, ys: seq<Byte>, x: Bit)
    requires |xs| == |ys|
    ensures xs == [] ==> Chain(op, xs, ys, x) == ([], x)
    ensures xs != [] ==>
      var (b, carry) := op.Apply(xs[0], ys[0], x);
      var (rest, out) := Chain(op, xs[1..], ys[1..], carry);
      Chain(op, xs, ys, x) == ([b] + rest, out)
  {
  }

  lemma BelowStep(ram: seq<Byte>, v: Byte, p: nat, q: nat, n: nat)
    requires 0 < n <= p <= |ram| && n <= q <= |ram| && (p + n <= q || q + n <= p)
    ensures Below(ram[p - 1 := v], p - 1, n - 1) == Below(ram, p, n)[1..]
    ensures Below(ram[p - 1 := v], q - 1, n - 1) == Below(ram, q, n)[1..]
    ensures Below(ram, p, n)[0] == ram[p - 1] && Below(ram, q, n)[0] == ram[q - 1]
  {
  }

  lemma BelowJoin(ram: seq<Byte>, p: nat, n: nat)
    requires 0 < n <= p <= |ram|
    ensures Below(ram, p, n) == [ram[p - 1]] + Below(ram, p - 1, n - 1)
  {
  }

  /** From `s` to `t` the `n` bytes below `p` became the chain of themselves with
      those below `q`; X is its carry, Z says whether all of it is zero, and no
      other byte changed. */
  predicate Summed(s: State68, t: State68, op: Op, p: nat, q: nat, n: nat)
    requires Sized(s) && Sized(t) && n <= p <= 0x10000 && n <= q <= 0x10000
  {
    var (r, out) := Chain(op, Below(s.ram, p, n), Below(s.ram, q, n), s.x);
    && Below(t.ram, p, n) == r && t.x == out && (t.z <==> s.z && AllZero(r))
    && (forall j :: 0 <= j < 0x10000 && !(p - n <= j < p) ==> t.ram[j] == s.ram[j])
  }

  lemma SummedStep(s: State68, u: State68, t: State68, op: Op, p: nat, q: nat, n: nat)
    requires Sized(s) && Sized(u) && Sized(t) && 0 < n <= p <= 0x10000 && n <= q <= 0x10000
    requires p + n <= q || q + n <= p
    requires var (b, carry) := op.Apply(s.ram[p - 1], s.ram[q - 1], s.x);
      u.ram == s.ram[p - 1 := b] && u.x == carry && u.z == (s.z && b == 0)
    requires Summed(u, t, op, p - 1, q - 1, n - 1)
    ensures Summed(s, t, op, p, q, n)
  {
    hide Op.Apply, AllZero, Below, Chain;
    var xs, ys := Below(s.ram, p, n), Below(s.ram, q, n);
    var (b, carry) := op.Apply(s.ram[p - 1], s.ram[q - 1], s.x);
    ChainUnfolds(op, xs, ys, s.x);
    BelowStep(s.ram, b, p, q, n);
    BelowJoin(t.ram, p, n);
    AllZeroCons(b, Chain(op, xs[1..], ys[1..], carry).0);
  }

  /** The memory forms, as a program chains them over two separate fields of `n`
      bytes, compute the chain in place. */
  lemma {:induction false} MemoryChain(s: State68, rx: nat, ry: nat, subtract: bool, device: Word -> Byte,
      p: nat, q: nat, n: nat)
    requires Sized(s) && rx < 8 && ry < 8 && rx != ry
    requires AtCells(s.a[rx], p, n) && AtCells(s.a[ry], q, n) && (p + n <= q || q + n <= p)
    ensures Summed(s, Repeated(s, rx, ry, subtract, device, n), OpOf(subtract), p, q, n)
    decreases n
  {
    if n == 0 {
      AllZeroCons(0, []);
    } else {
      hide MemoryForm, InRam, Cell, Plus, Op.Apply, OpOf, Summed;
      MemoryStep(s, rx, ry, subtract, device, p, q);
      var u := MemoryForm(s, rx, ry, subtract, device);
      MemoryChain(u, rx, ry, subtract, device, p - 1, q - 1, n - 1);
      SummedStep(s, u, Repeated(s, rx, ry, subtract, device, n), OpOf(subtract), p, q, n);
    }
  }

  /** Decimal numbers in memory: a program of memory forms leaves their sum or
      difference modulo 100^n in place of the first, and in X whether it carried or
      borrowed out; the addresses are n lower. */
  lemma FieldArithmetic(s: State68, rx: nat, ry: nat, subtract: bool, device: Word -> Byte, p: nat, q: nat, n: nat)
    requires Sized(s) && rx < 8 && ry < 8 && rx != ry
    requires AtCells(s.a[rx], p, n) && AtCells(s.a[ry], q, n) && (p + n <= q || q + n <= p)
    requires n <= p <= 0x10000 && n <= q <= 0x10000
    requires AllDecimal(Below(s.ram, p, n)) && AllDecimal(Below(s.ram, q, n))
    ensures var t := Repeated(s, rx, ry, subtract, device, n);
      var u, v := Number(Below(s.ram, p, n)), Number(Below(s.ram, q, n));
      var total := if subtract then u - v - s.x else u + v + s.x;
      && AllDecimal(Below(t.ram, p, n)) && Number(Below(t.ram, p, n)) == total % Hundreds(n)
      && (t.x == 1 <==> if subtract then total < 0 else total >= Hundreds(n))
      && t.a == s.a[rx := Plus(s.a[rx], -(n as int))][ry := Plus(s.a[ry], -(n as int))]
      && t.d == s.d && (n > 0 ==> t.c == t.x)
  {
    hide Repeated, Chain, Number, AllDecimal, Below, AtCells, AllZero, Plus, Hundreds;
    MemoryChain(s, rx, ry, subtract, device, p, q, n);
    RepeatedRest(s, rx, ry, subtract, device, n);
    ChainDecimal(OpOf(subtract), Below(s.ram, p, n), Below(s.ram, q, n), s.x);
  }

  lemma {:induction false} RepeatedRest(s: State68, rx: nat, ry: nat, subtract: bool, device: Word -> Byte, n: nat)
    requires Sized(s) && rx < 8 && ry < 8 && rx != ry
    ensures var t := Repeated(s, rx, ry, subtract, device, n);
      && t.a == s.a[rx := Plus(s.a[rx], -(n as int))][ry := Plus(s.a[ry], -(n as int))]
      && t.d == s.d && (n > 0 ==> t.c == t.x)
    decreases n
  {
    hide Op.Apply, Read8, Write8, OpOf;
    PlusNone(s.a[rx]);
    PlusNone(s.a[ry]);
    if n > 0 {
      var u := MemoryForm(s, rx, ry, subtract, device);
      RepeatedRest(u, rx, ry, subtract, device, n - 1);
      PlusOneMore(s.a[rx], n);
      PlusOneMore(s.a[ry], n);
      hide Plus;
    }
  }

  lemma PlusNone(v: Word)
    ensures Plus(v, 0) == v
  {
  }

  lemma PlusOneMore(v: Word, n: nat)
    ensures Plus(Plus(v, -1), 1 - n as int) == Plus(v, -(n as int))
  {
    WrapAdd(v - 1, 1 - n as int);
  }

  // ---- decimal numbers in registers -----------------------------------------

  /** Destination and source of one register form. */
  type Pair = p: (nat, nat) | p.0 < 8 && p.1 < 8 witness (0, 0)

  /** No destination is used again. */
  predicate Separate(pairs: seq<Pair>) {
    forall i, j :: 0 <= i < j < |pairs| ==> pairs[i].0 != pairs[j].0 && pairs[i].0 != pairs[j].1
  }

  /** The register forms of a program, lowest byte first. */
  function RegisterForms(s: State68, pairs: seq<Pair>, subtract: bool): (t: State68)
    requires Sized(s)
    ensures Sized(t)
    decreases |pairs|
  {
    if pairs == [] then s
    else RegisterForms(RegisterForm(s, pairs[0].0, pairs[0].1, subtract), pairs[1..], subtract)
  }

  function Destinations(d: seq<Word>, pairs: seq<Pair>): (b: seq<Byte>)
    requires |d| == 8
    ensures |b| == |pairs|
  {
    seq(|pairs|, i requires 0 <= i < |pairs| => LowByte(d[pairs[i].0]))
  }

  function Sources(d: seq<Word>, pairs: seq<Pair>): (b: seq<Byte>)
    requires |d| == 8
    ensures |b| == |pairs|
  {
    seq(|pairs|, i requires 0 <= i < |pairs| => LowByte(d[pairs[i].1]))
  }

  /** The registers `t` are `s` with the bytes r as the low bytes of the destinations. */
  predicate Holds(t: seq<Word>, s: seq<Word>, pairs: seq<Pair>, r: seq<Byte>)
    requires |t| == |s| == 8 && |r| == |pairs|
  {
    && (forall i :: 0 <= i < |pairs| ==> t[pairs[i].0] == WithLowByte(s[pairs[i].0], r[i]))
    && (forall k :: 0 <= k < 8 && (forall i :: 0 <= i < |pairs| ==> pairs[i].0 != k) ==> t[k] == s[k])
  }

  lemma FirstPair(d: seq<Word>, pairs: seq<Pair>, v: Word)
    requires |d| == 8 && pairs != [] && Separate(pairs)
    ensures var e := d[pairs[0].0 := v];
      && Separate(pairs[1..])
      && Destinations(e, pairs[1..]) == Destinations(d, pairs)[1..] && Sources(e, pairs[1..]) == Sources(d, pairs)[1..]
      && Destinations(d, pairs)[0] == LowByte(d[pairs[0].0]) && Sources(d, pairs)[0] == LowByte(d[pairs[0].1])
  {
    assert forall i :: 0 <= i < |pairs| - 1 ==> pairs[1..][i] == pairs[i + 1];
  }

  lemma HoldsMore(t: seq<Word>, d: seq<Word>, pairs: seq<Pair>, b: Byte, r: seq<Byte>)
    requires |t| == |d| == 8 && pairs != [] && Separate(pairs) && |r| == |pairs| - 1
    requires Holds(t, d[pairs[0].0 := WithLowByte(d[pairs[0].0], b)], pairs[1..], r)
    ensures Holds(t, d, pairs, [b] + r)
  {
    hide WithLowByte;
    var e := d[pairs[0].0 := WithLowByte(d[pairs[0].0], b)];
    forall i | 0 <= i < |pairs|
      ensures t[pairs[i].0] == WithLowByte(d[pairs[i].0], ([b] + r)[i])
    {
      if i > 0 {
        assert pairs[1..][i - 1] == pairs[i];
      }
    }
    forall k | 0 <= k < 8 && forall i :: 0 <= i < |pairs| ==> pairs[i].0 != k
      ensures t[k] == d[k]
    {
      assert pairs[0].0 != k;
      forall i | 0 <= i < |pairs| - 1
        ensures pairs[1..][i].0 != k
      {
        assert pairs[1..][i] == pairs[i + 1];
      }
    }
  }

  /** A program's register forms over bytes kept in separate registers compute the
      chain: each destination's low byte becomes its byte of the result, X the carry,
      Z whether all of it is zero, and nothing else changes. */
  lemma {:induction false} RegisterChain(s: State68, pairs: seq<Pair>, subtract: bool)
    requires Sized(s) && Separate(pairs)
    ensures var t := RegisterForms(s, pairs, subtract);
      var (r, out) := Chain(OpOf(subtract), Destinations(s.d, pairs), Sources(s.d, pairs), s.x);
      && Holds(t.d, s.d, pairs, r) && t.x == out && (t.z <==> s.z && AllZero(r))
      && t.a == s.a && t.ram == s.ram && (pairs != [] ==> t.c == out)
    decreases |pairs|
  {
    ChainUnfolds(OpOf(subtract), Destinations(s.d, pairs), Sources(s.d, pairs), s.x);
    AllZeroCons(0, []);
    hide Separate, Destinations, Sources, Op.Apply, OpOf, AllZero, WithLowByte, LowByte, Chain;
    if pairs != [] {
      var rx, ry := pairs[0].0, pairs[0].1;
      var (b, carry) := OpOf(subtract).Apply(LowByte(s.d[rx]), LowByte(s.d[ry]), s.x);
      var u := RegisterForm(s, rx, ry, subtract);
      FirstPair(s.d, pairs, WithLowByte(s.d[rx], b));
      RegisterChain(u, pairs[1..], subtract);
      var r := Chain(OpOf(subtract), Destinations(u.d, pairs[1..]), Sources(u.d, pairs[1..]), u.x).0;
      hide Holds;
      HoldsMore(RegisterForms(s, pairs, subtract).d, s.d, pairs, b, r);
      AllZeroCons(b, r);
    }
  }

  // ---- the SM83 -------------------------------------------------------------

  class Sm83 {
    var a: Byte
    var f: Flags

    /** ADD or ADC: sets all flags and returns the sum. */
    method Add(x: Byte, b: Byte, carry: Bit) returns (res: Byte)
      modifies this`f
      ensures (res, f) == Add8(x, b, carry)
      ensures res + (if f.c then 0x100 else 0) == x + b + carry && (f.z <==> res == 0) && !f.n
      ensures f.h <==> x % 0x10 + b % 0x10 + carry >= 0x10
    {
      AddFlags(x, b, carry);
      var r := x as int + b as int + carry as int;
      res := Low8(r);
      f := Flags(false, false, false, false);
      if res == 0 {
        f := f.(z := true);
      }
      if Lo(x) + Lo(b) + carry > 15 {
        f := f.(h := true);
      }
      if r > 0xFF {
        f := f.(c := true);
      }
    }

    /** SUB, SBC and, without `keep`, CP. */
    method Sub(x: Byte, b: Byte, borrow: Bit, keep: bool) returns (res: Byte)
      modifies this
      ensures (res, f) == Sub8(x, b, borrow)
      ensures res - (if f.c then 0x100 else 0) == x - b - borrow && (f.z <==> res == 0) && f.n
      ensures f.h <==> x % 0x10 - b % 0x10 < borrow
      ensures a == if keep then res else old(a)
    {
      SubFlags(x, b, borrow);
      var r := x as int - b as int - borrow as int;
      res := Low8(r);
      f := Flags(false, true, false, false);
      if res == 0 {
        f := f.(z := true);
      }
      if Lo(x) - Lo(b) - borrow < 0 {
        f := f.(h := true);
      }
      if r < 0 {
        f := f.(c := true);
      }
      if keep {
        a := res;
      }
    }

    method Correct()
      modifies this
      ensures (a, f) == Daa(old(a), old(f))
    {
      hide Low8, Lo;
      var adjust: int := 0;
      var v: int := a;
      if !f.n {
        if f.h || Lo(a) > 9 {
          adjust := adjust + 6;
        }
        if f.c || a > 0x99 {
          adjust := adjust + 0x60;
          f := f.(c := true);
        }
        v := v + adjust;
      } else {
        if f.h {
          adjust := adjust + 6;
        }
        if f.c {
          adjust := adjust + 0x60;
        }
        v := v - adjust;
      }
      a := Low8(v);
      f := f.(h := false, z := a == 0);
    }

    /** The pair of instructions a program uses, and what it then holds. */
    method DecimalStep(b: Byte, subtract: bool, x: Bit) returns (carry: Bit)
      modifies this
      ensures (a, carry) == (if subtract then SubDaa else AddDaa).Apply(old(a), b, x)
    {
      if subtract {
        var r := Sub(a, b, x, true);
      } else {
        var r := Add(a, b, x);
        a := r;
      }
      Correct();
      carry := if f.c then 1 else 0;
    }
  }
}
