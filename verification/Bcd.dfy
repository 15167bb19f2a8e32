/** Packed-decimal arithmetic: the 68000's one-step ABCD and SBCD and the SM83's binary
    add or subtract followed by a correction, against decimal numbers. */
module Bcd {
  import opened Words

  type Bit = x: int | 0 <= x < 2

  function Hi(b: int): int {
    b / 16
  }

  function Lo(b: int): int {
    b % 16
  }

  function Low8(v: int): Byte {
    v % 0x100
  }

  predicate Decimal(b: Byte) {
    Hi(b) <= 9 && Lo(b) <= 9
  }

  function Value(b: Byte): int {
    10 * Hi(b) + Lo(b)
  }

  lemma Nibbles(b: Byte)
    ensures b == 16 * Hi(b) + Lo(b) && 0 <= Hi(b) < 16 && 0 <= Lo(b) < 16
  {
  }

  lemma Packed(h: int, l: int)
    requires 0 <= h < 16 && 0 <= l < 16
    ensures 0 <= 16 * h + l < 0x100 && Hi(16 * h + l) == h && Lo(16 * h + l) == l
  {
  }

  /** The low nibble of a sum or difference of a few digits. */
  lemma LoCases(v: int)
    ensures 0 <= Lo(v) < 16
    ensures -32 <= v < -16 ==> Lo(v) == v + 32
    ensures -16 <= v < 0 ==> Lo(v) == v + 16
    ensures 0 <= v < 16 ==> Lo(v) == v
    ensures 16 <= v < 32 ==> Lo(v) == v - 16
    ensures 32 <= v < 48 ==> Lo(v) == v - 32
  {
  }

  lemma Low8Cases(v: int)
    ensures -0x200 <= v < -0x100 ==> Low8(v) == v + 0x200
    ensures -0x100 <= v < 0 ==> Low8(v) == v + 0x100
    ensures 0 <= v < 0x100 ==> Low8(v) == v
    ensures 0x100 <= v < 0x200 ==> Low8(v) == v - 0x100
    ensures 0x200 <= v < 0x300 ==> Low8(v) == v - 0x200
  {
  }

  // ---- one byte on the 68000 ------------------------------------------------

  /** Destination plus source plus X: result and carry. */
  function Abcd(a: Byte, b: Byte, x: Bit): (r: (Byte, Bit)) {
    var sum := Lo(a) + Lo(b) + x;
    var lo := if sum > 9 then sum + 6 else sum;
    var hi := Hi(a) + Hi(b) + if lo > 15 then 1 else 0;
    var carry := if hi > 9 then 1 else 0;
    var top := if hi > 9 then hi - 10 else hi;
    hide Hi, Lo;
    LoCases(top);
    LoCases(lo);
    (16 * Lo(top) + Lo(lo), carry)
  }

  /** Destination minus source minus X. */
  function Sbcd(a: Byte, b: Byte, x: Bit): (r: (Byte, Bit)) {
    var diff := Lo(a) - Lo(b) - x;
    var lo := if diff < 0 then diff + 10 else diff;
    var hi := Hi(a) - Hi(b) - if diff < 0 then 1 else 0;
    var carry := if hi < 0 then 1 else 0;
    var top := if hi < 0 then hi + 10 else hi;
    hide Hi, Lo;
    LoCases(top);
    LoCases(lo);
    (16 * Lo(top) + Lo(lo), carry)
  }

  /** The nibbles of a 68000 sum. */
  lemma AbcdNibbles(a: Byte, b: Byte, x: Bit)
    ensures var sum := Lo(a) + Lo(b) + x;
      var hi := Hi(a) + Hi(b) + if sum > 9 then 1 else 0;
      var r := Abcd(a, b, x);
      && r.1 == (if hi > 9 then 1 else 0)
      && Hi(r.0) == Lo(if hi > 9 then hi - 10 else hi)
      && Lo(r.0) == Lo(if sum > 9 then sum + 6 else sum)
  {
    hide Hi, Lo;
    Nibbles(a);
    Nibbles(b);
    var sum := Lo(a) + Lo(b) + x;
    var hi := Hi(a) + Hi(b) + if sum > 9 then 1 else 0;
    LoCases(if hi > 9 then hi - 10 else hi);
    LoCases(if sum > 9 then sum + 6 else sum);
    Packed(Lo(if hi > 9 then hi - 10 else hi), Lo(if sum > 9 then sum + 6 else sum));
  }

  lemma SbcdNibbles(a: Byte, b: Byte, x: Bit)
    ensures var diff := Lo(a) - Lo(b) - x;
      var hi := Hi(a) - Hi(b) - if diff < 0 then 1 else 0;
      var r := Sbcd(a, b, x);
      && r.1 == (if hi < 0 then 1 else 0)
      && Hi(r.0) == Lo(if hi < 0 then hi + 10 else hi)
      && Lo(r.0) == Lo(if diff < 0 then diff + 10 else diff)
  {
    hide Hi, Lo;
    var diff := Lo(a) - Lo(b) - x;
    var hi := Hi(a) - Hi(b) - if diff < 0 then 1 else 0;
    LoCases(if hi < 0 then hi + 10 else hi);
    LoCases(if diff < 0 then diff + 10 else diff);
    Packed(Lo(if hi < 0 then hi + 10 else hi), Lo(if diff < 0 then diff + 10 else diff));
  }

  lemma AbcdDecimal(a: Byte, b: Byte, x: Bit)
    requires Decimal(a) && Decimal(b)
    ensures var (r, carry) := Abcd(a, b, x);
      Decimal(r) && Value(r) + 100 * carry == Value(a) + Value(b) + x
  {
    hide Hi, Lo, Abcd;
    Nibbles(a);
    Nibbles(b);
    AbcdNibbles(a, b, x);
    var sum := Lo(a) + Lo(b) + x;
    var hi := Hi(a) + Hi(b) + if sum > 9 then 1 else 0;
    LoCases(if hi > 9 then hi - 10 else hi);
    LoCases(if sum > 9 then sum + 6 else sum);
  }

  lemma SbcdDecimal(a: Byte, b: Byte, x: Bit)
    requires Decimal(a) && Decimal(b)
    ensures var (r, carry) := Sbcd(a, b, x);
      Decimal(r) && Value(r) - 100 * carry == Value(a) - Value(b) - x
  {
    hide Hi, Lo, Sbcd;
    Nibbles(a);
    Nibbles(b);
    SbcdNibbles(a, b, x);
    var diff := Lo(a) - Lo(b) - x;
    var hi := Hi(a) - Hi(b) - if diff < 0 then 1 else 0;
    LoCases(if hi < 0 then hi + 10 else hi);
    LoCases(if diff < 0 then diff + 10 else diff);
  }

  // ---- one byte on the SM83 -------------------------------------------------

  datatype Flags = Flags(z: bool, n: bool, h: bool, c: bool)

  function Add8(a: Byte, b: Byte, carry: Bit): (r: (Byte, Flags)) {
    var sum := a + b + carry;
    var res := Low8(sum);
    (res, Flags(res == 0, false, Lo(a) + Lo(b) + carry > 15, sum > 0xFF))
  }

  function Sub8(a: Byte, b: Byte, borrow: Bit): (r: (Byte, Flags)) {
    var diff: int := a - b - borrow;
    var res := Low8(diff);
    (res, Flags(res == 0, true, Lo(a) - Lo(b) - borrow < 0, diff < 0))
  }

  /** The correction after an addition or a subtraction. */
  function Daa(a: Byte, f: Flags): (r: (Byte, Flags)) {
    if !f.n then
      var high := f.c || a > 0x99;
      var adjust := (if f.h || Lo(a) > 9 then 6 else 0) + if high then 0x60 else 0;
      var res := Low8(a + adjust);
      (res, Flags(res == 0, false, false, high))
    else
      var adjust := (if f.h then 6 else 0) + if f.c then 0x60 else 0;
      var res := Low8(a - adjust);
      (res, Flags(res == 0, true, false, f.c))
  }

  function AddThenDaa(a: Byte, b: Byte, x: Bit): (r: (Byte, Bit)) {
    var (s, f) := Add8(a, b, x);
    var (res, g) := Daa(s, f);
    (res, if g.c then 1 else 0)
  }

  function SubThenDaa(a: Byte, b: Byte, x: Bit): (r: (Byte, Bit)) {
    var (s, f) := Sub8(a, b, x);
    var (res, g) := Daa(s, f);
    (res, if g.c then 1 else 0)
  }

  lemma ByteOfDigits(h: int, l: int)
    requires 0 <= l < 16 && -32 <= h < 48
    ensures Hi(Low8(16 * h + l)) == Lo(h) && Lo(Low8(16 * h + l)) == l
  {
    hide Hi, Lo, Low8;
    LoCases(h);
    Low8Cases(16 * h + l);
    if 0 <= h < 16 {
      Packed(h, l);
    } else if 16 <= h < 32 {
      Packed(h - 16, l);
    } else if 32 <= h {
      Packed(h - 32, l);
    } else if -16 <= h {
      Packed(h + 16, l);
    } else {
      Packed(h + 32, l);
    }
  }

  /** The nibbles of an SM83 sum after correction. */
  lemma AddThenDaaNibbles(a: Byte, b: Byte, x: Bit)
    ensures var sum := Lo(a) + Lo(b) + x;
      var h := Hi(a) + Hi(b) + if sum > 15 then 1 else 0;
      var high := h > 9 || (h == 9 && Lo(sum) > 9);
      var low := if sum > 9 then Lo(sum) + 6 else Lo(sum);
      var r := AddThenDaa(a, b, x);
      && r.1 == (if high then 1 else 0)
      && Lo(r.0) == Lo(low)
      && Hi(r.0) == Lo(Lo(h) + (if high then 6 else 0) + if low > 15 then 1 else 0)
  {
    hide Hi, Lo, Low8;
    Nibbles(a);
    Nibbles(b);
    var sum := Lo(a) + Lo(b) + x;
    var h := Hi(a) + Hi(b) + if sum > 15 then 1 else 0;
    LoCases(sum);
    LoCases(h);
    assert a + b + x == 16 * h + Lo(sum);
    ByteOfDigits(h, Lo(sum));
    var s: int := Low8(16 * h + Lo(sum));
    Nibbles(s);
    var high := h > 9 || (h == 9 && Lo(sum) > 9);
    var low := if sum > 9 then Lo(sum) + 6 else Lo(sum);
    LoCases(low);
    var top := Lo(h) + (if high then 6 else 0) + if low > 15 then 1 else 0;
    ByteOfDigits(top, Lo(low));
    assert high <==> 16 * h + Lo(sum) > 0xFF || s > 0x99;
    assert s + (if sum > 9 then 6 else 0) + (if high then 0x60 else 0) == 16 * top + Lo(low);
  }

  lemma SubThenDaaNibbles(a: Byte, b: Byte, x: Bit)
    ensures var diff := Lo(a) - Lo(b) - x;
      var h := Hi(a) - Hi(b) - if diff < 0 then 1 else 0;
      var low := if diff < 0 then Lo(diff) - 6 else Lo(diff);
      var r := SubThenDaa(a, b, x);
      && r.1 == (if h < 0 then 1 else 0)
      && Lo(r.0) == Lo(low)
      && Hi(r.0) == Lo(Lo(h) - (if h < 0 then 6 else 0) - if low < 0 then 1 else 0)
  {
    hide Hi, Lo, Low8;
    Nibbles(a);
    Nibbles(b);
    var diff := Lo(a) - Lo(b) - x;
    var h := Hi(a) - Hi(b) - if diff < 0 then 1 else 0;
    LoCases(diff);
    LoCases(h);
    assert a - b - x == 16 * h + Lo(diff);
    ByteOfDigits(h, Lo(diff));
    var s: int := Low8(16 * h + Lo(diff));
    Nibbles(s);
    var low := if diff < 0 then Lo(diff) - 6 else Lo(diff);
    LoCases(low);
    var top := Lo(h) - (if h < 0 then 6 else 0) - if low < 0 then 1 else 0;
    ByteOfDigits(top, Lo(low));
    assert s - (if diff < 0 then 6 else 0) - (if h < 0 then 0x60 else 0) == 16 * top + Lo(low);
  }

  /** The two cores add alike exactly while the low digits and the carry stay below
      26, decimal or not. */
  lemma CoresAddAlike(a: Byte, b: Byte, x: Bit)
    ensures AddThenDaa(a, b, x) == Abcd(a, b, x) <==> Lo(a) + Lo(b) + x < 26
    ensures Decimal(a) && Decimal(b) ==> Lo(a) + Lo(b) + x < 26
  {
    hide Hi, Lo, AddThenDaa, Abcd;
    AbcdNibbles(a, b, x);
    AddThenDaaNibbles(a, b, x);
    SameNibbles(Abcd(a, b, x).0, AddThenDaa(a, b, x).0);
    Nibbles(a);
    Nibbles(b);
    var sum := Lo(a) + Lo(b) + x;
    var h := Hi(a) + Hi(b) + if sum > 15 then 1 else 0;
    LoCases(sum);
    LoCases(h);
    var low := if sum > 9 then Lo(sum) + 6 else Lo(sum);
    LoCases(low);
    LoCases(if sum > 9 then sum + 6 else sum);
    var hi := Hi(a) + Hi(b) + if sum > 9 then 1 else 0;
    LoCases(if hi > 9 then hi - 10 else hi);
    var high := h > 9 || (h == 9 && Lo(sum) > 9);
    LoCases(Lo(h) + (if high then 6 else 0) + if low > 15 then 1 else 0);
  }

  lemma SameNibbles(r: Byte, s: Byte)
    ensures r == s <==> Hi(r) == Hi(s) && Lo(r) == Lo(s)
  {
    Nibbles(r);
    Nibbles(s);
  }

  /** They subtract alike exactly while the low digits need no second borrow. */
  lemma CoresSubtractAlike(a: Byte, b: Byte, x: Bit)
    ensures SubThenDaa(a, b, x) == Sbcd(a, b, x) <==> Lo(a) - Lo(b) - x >= -10
    ensures Decimal(a) && Decimal(b) ==> Lo(a) - Lo(b) - x >= -10
  {
    hide Hi, Lo, SubThenDaa, Sbcd;
    SbcdNibbles(a, b, x);
    SubThenDaaNibbles(a, b, x);
    SameNibbles(Sbcd(a, b, x).0, SubThenDaa(a, b, x).0);
    Nibbles(a);
    Nibbles(b);
    var diff := Lo(a) - Lo(b) - x;
    var h := Hi(a) - Hi(b) - if diff < 0 then 1 else 0;
    LoCases(diff);
    LoCases(h);
    var low := if diff < 0 then Lo(diff) - 6 else Lo(diff);
    LoCases(low);
    LoCases(if diff < 0 then diff + 10 else diff);
    LoCases(if h < 0 then h + 10 else h);
    LoCases(Lo(h) - (if h < 0 then 6 else 0) - if low < 0 then 1 else 0);
  }

  // ---- the SM83's flags -----------------------------------------------------

  /** A binary sum: nine bits of it in the byte and C, Z for a zero byte, H for a carry
      out of the low nibble. */
  lemma AddFlags(a: Byte, b: Byte, x: Bit)
    ensures var (r, f) := Add8(a, b, x);
      && r + (if f.c then 0x100 else 0) == a + b + x
      && (f.z <==> r == 0) && !f.n && (f.h <==> a % 0x10 + b % 0x10 + x >= 0x10)
  {
    hide Lo;
    Low8Cases(a + b + x);
    LowDigit(a);
    LowDigit(b);
  }

  lemma LowDigit(b: Byte)
    ensures Lo(b) == b % 0x10
  {
  }

  lemma SubFlags(a: Byte, b: Byte, x: Bit)
    ensures var (r, f) := Sub8(a, b, x);
      && r - (if f.c then 0x100 else 0) == a - b - x
      && (f.z <==> r == 0) && f.n && (f.h <==> a % 0x10 - b % 0x10 < x)
  {
    hide Lo;
    Low8Cases(a - b - x);
    LowDigit(a);
    LowDigit(b);
  }

  /** A correction by itself: how far the byte moves modulo 256, and the flags. */
  lemma DaaFlags(a: Byte, f: Flags, r: Byte, g: Flags)
    requires (r, g) == Daa(a, f)
    ensures g.n == f.n && !g.h && (g.z <==> r == 0) && (g.c <==> f.c || (!f.n && a >= 0x9A))
    ensures var d := (if g.c then 0x60 else 0) + if f.h || (!f.n && a % 0x10 >= 10) then 6 else 0;
      r == a + (if f.n then -d else d) || r == a + (if f.n then 0x100 - d else d - 0x100)
  {
    hide Lo;
    LowDigit(a);
    var d := (if g.c then 0x60 else 0) + if f.h || (!f.n && a % 0x10 >= 10) then 6 else 0;
    Low8Cases(if f.n then a - d else a + d);
  }

  // ---- numbers of many bytes ------------------------------------------------

  datatype Op = Abcd68 | Sbcd68 | AddDaa | SubDaa {
    predicate Subtracts() {
      Sbcd68? || SubDaa?
    }

    function Apply(a: Byte, b: Byte, x: Bit): (Byte, Bit) {
      match this
      case Abcd68 => Abcd(a, b, x)
      case Sbcd68 => Sbcd(a, b, x)
      case AddDaa => AddThenDaa(a, b, x)
      case SubDaa => SubThenDaa(a, b, x)
    }
  }

  predicate AllDecimal(s: seq<Byte>) {
    forall i :: 0 <= i < |s| ==> Decimal(s[i])
  }

  /** The decimal number of packed bytes, lowest byte first. */
  function Number(s: seq<Byte>): int {
    if s == [] then 0 else Value(s[0]) + 100 * Number(s[1..])
  }

  function Hundreds(n: nat): (p: nat)
    ensures p > 0
  {
    if n == 0 then 1 else 100 * Hundreds(n - 1)
  }

  /** One operation per byte, the carry handed on. */
  function Chain(op: Op, xs: seq<Byte>, ys: seq<Byte>, x: Bit): (r: (seq<Byte>, Bit))
    requires |xs| == |ys|
    ensures |r.0| == |xs|
    decreases |xs|
  {
    if xs == [] then ([], x)
    else
      var (b, carry) := op.Apply(xs[0], ys[0], x);
      var (rest, out) := Chain(op, xs[1..], ys[1..], carry);
      ([b] + rest, out)
  }

  /** One byte of any of the four operations, on decimal bytes. */
  lemma ByteDecimal(op: Op, a: Byte, b: Byte, x: Bit)
    requires Decimal(a) && Decimal(b)
    ensures var (r, carry) := op.Apply(a, b, x);
      Decimal(r) && if op.Subtracts() then Value(r) - 100 * carry == Value(a) - Value(b) - x
        else Value(r) + 100 * carry == Value(a) + Value(b) + x
  {
    hide Abcd, Sbcd, AddThenDaa, SubThenDaa, Decimal, Value;
    if op.Subtracts() {
      SbcdDecimal(a, b, x);
      CoresSubtractAlike(a, b, x);
    } else {
      AbcdDecimal(a, b, x);
      CoresAddAlike(a, b, x);
    }
  }

  lemma {:induction false} NumberBelow(s: seq<Byte>)
    requires AllDecimal(s)
    ensures 0 <= Number(s) < Hundreds(|s|)
    decreases |s|
  {
    if s != [] {
      NumberBelow(s[1..]);
      assert Decimal(s[0]);
      Nibbles(s[0]);
    }
  }

  lemma {:induction false} NumberInjective(s: seq<Byte>, t: seq<Byte>)
    requires |s| == |t| && AllDecimal(s) && AllDecimal(t) && Number(s) == Number(t)
    ensures s == t
    decreases |s|
  {
    hide Hi, Lo;
    if s != [] {
      assert Decimal(s[0]) && Decimal(t[0]);
      Nibbles(s[0]);
      Nibbles(t[0]);
      assert Value(s[0]) == Value(t[0]) && Number(s[1..]) == Number(t[1..]);
      NumberInjective(s[1..], t[1..]);
      assert s == [s[0]] + s[1..] && t == [t[0]] + t[1..];
    }
  }

  /** A chain keeps bytes decimal and balances: what left as carry or came in as
      borrow is worth 100 to the length. */
  lemma {:induction false} ChainBalances(op: Op, xs: seq<Byte>, ys: seq<Byte>, x: Bit)
    requires |xs| == |ys| && AllDecimal(xs) && AllDecimal(ys)
    ensures var (r, out) := Chain(op, xs, ys, x);
      AllDecimal(r)
      && if op.Subtracts() then Number(r) - Hundreds(|xs|) * out == Number(xs) - Number(ys) - x
         else Number(r) + Hundreds(|xs|) * out == Number(xs) + Number(ys) + x
    decreases |xs|
  {
    hide Decimal, Value, Op.Apply, Op.Subtracts;
    if xs != [] {
      var (b, carry) := op.Apply(xs[0], ys[0], x);
      ByteDecimal(op, xs[0], ys[0], x);
      ChainBalances(op, xs[1..], ys[1..], carry);
      var (rest, out) := Chain(op, xs[1..], ys[1..], carry);
      assert ([b] + rest)[1..] == rest;
      assert 100 * (Hundreds(|xs| - 1) * out) == Hundreds(|xs|) * out;
    }
  }

  /** A chain of additions is the decimal sum modulo 100^n with its carry, a chain of
      subtractions the decimal difference with its borrow. */
  lemma ChainDecimal(op: Op, xs: seq<Byte>, ys: seq<Byte>, x: Bit)
    requires |xs| == |ys| && AllDecimal(xs) && AllDecimal(ys)
    ensures var (r, out) := Chain(op, xs, ys, x);
      var p := Hundreds(|xs|);
      var total := if op.Subtracts() then Number(xs) - Number(ys) - x else Number(xs) + Number(ys) + x;
      AllDecimal(r) && Number(r) == total % p
      && (out == 1 <==> if op.Subtracts() then total < 0 else total >= p)
  {
    hide Chain, Number, AllDecimal, Op.Subtracts, Hundreds;
    var (r, out) := Chain(op, xs, ys, x);
    ChainBalances(op, xs, ys, x);
    NumberBelow(r);
    NumberBelow(xs);
    NumberBelow(ys);
    var p := Hundreds(|xs|);
    var carry: int := out;
    DivModUnique(p, if op.Subtracts() then -carry else carry, Number(r));
    assert out == 0 || out == 1;
  }

  /** Subtracting again gives back what was added to, and the carry as borrow; and
      the other way round. */
  lemma ChainUndone(op: Op, undo: Op, xs: seq<Byte>, ys: seq<Byte>, x: Bit)
    requires |xs| == |ys| && AllDecimal(xs) && AllDecimal(ys)
    requires op.Subtracts() != undo.Subtracts()
    ensures Chain(undo, Chain(op, xs, ys, x).0, ys, x) == (xs, Chain(op, xs, ys, x).1)
  {
    hide Chain, Number, AllDecimal, Op.Subtracts, Hundreds;
    var (r, out) := Chain(op, xs, ys, x);
    ChainBalances(op, xs, ys, x);
    var (s, back) := Chain(undo, r, ys, x);
    ChainBalances(undo, r, ys, x);
    NumberBelow(s);
    NumberBelow(xs);
    var p := Hundreds(|xs|);
    assert Number(s) - Number(xs) == (if undo.Subtracts() then p * back - p * out else p * out - p * back);
    NumberInjective(s, xs);
  }

  /** The SM83's chains are the 68000's on decimal bytes. */
  lemma {:induction false} ChainsAlike(xs: seq<Byte>, ys: seq<Byte>, x: Bit)
    requires |xs| == |ys| && AllDecimal(xs) && AllDecimal(ys)
    ensures Chain(AddDaa, xs, ys, x) == Chain(Abcd68, xs, ys, x)
    ensures Chain(SubDaa, xs, ys, x) == Chain(Sbcd68, xs, ys, x)
    decreases |xs|
  {
    hide Decimal, Abcd, Sbcd, AddThenDaa, SubThenDaa;
    if xs != [] {
      CoresAddAlike(xs[0], ys[0], x);
      CoresSubtractAlike(xs[0], ys[0], x);
      ChainsAlike(xs[1..], ys[1..], Abcd(xs[0], ys[0], x).1);
      ChainsAlike(xs[1..], ys[1..], Sbcd(xs[0], ys[0], x).1);
    }
  }
}
