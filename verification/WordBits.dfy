/** Names for the bit operations on a 32-bit word and the laws they obey, so that
    other proofs can leave the bits alone. */
module WordBits {
  function Mix(a: bv32, b: bv32): bv32 {
    a ^ b
  }

  function Half(v: bv32): bv32 {
    v >> 1
  }

  predicate Odd(v: bv32) {
    v & 1 == 1
  }

  function Not(v: bv32): bv32 {
    !v
  }

  function Bit(b: bool): bv32 {
    if b then 1 else 0
  }

  function LowByte(v: bv32): bv32 {
    v & 0xFF
  }

  function NextByte(v: bv32): bv32 {
    v >> 8
  }

  function Nibble(v: bv32): bv32 {
    v >> 4
  }

  function AboveByte(v: bv32): bv32 {
    v & 0xFFFFFF00
  }

  function Push(p: bv32, b: bool): bv32 {
    (p << 1) | Bit(b)
  }

  predicate Within(p: bv32, q: bv32) {
    p & q == p
  }

  lemma PushAnd(p: bv32, q: bv32, b: bv32)
    requires b == 0 || b == 1
    ensures ((p << 1) | b) & ((q << 1) | 1) == ((p & q) << 1) | b
  {
  }

  lemma ShiftBack(c: bv32)
    ensures c & 1 == 0 ==> (c >> 1) & 0x80000000 == 0 && (c >> 1) << 1 == c
    ensures c & 1 != 0 ==> ((c >> 1) ^ 0xEDB88320) & 0x80000000 != 0
    ensures c & 1 != 0 ==> ((((c >> 1) ^ 0xEDB88320) ^ 0xEDB88320) << 1) | 1 == c
    ensures c & 1 == 0 || c & 1 == 1
  {
  }

  lemma SplitLowByte(c: bv32, v: bv32)
    ensures c ^ v == (c ^ (v & 0xFF)) ^ (v & 0xFFFFFF00)
    ensures (v & 0xFFFFFF00) & 0xF == 0
    ensures ((v & 0xFFFFFF00) >> 4) & 0xF == 0
    ensures ((v & 0xFFFFFF00) >> 4) >> 4 == v >> 8
  {
  }

  lemma ShiftInOne(p: bv32)
    requires p & 0x7FFFFFFF == p
    ensures ((p << 1) | 1) >> 1 == p && ((p << 1) | 1) & 1 == 1 && (p << 1) | 1 != 0
  {
  }

  lemma ShiftInZero(p: bv32)
    requires p & 0x7FFFFFFF == p
    ensures ((p << 1) | 0) >> 1 == p && ((p << 1) | 0) & 1 == 0 && (p != 0 ==> (p << 1) | 0 != 0)
  {
  }

  lemma MixIs(a: bv32, b: bv32)
    ensures Mix(a, b) == a ^ b
  {
  }

  lemma OddMix(a: bv32, b: bv32)
    ensures Odd(Mix(a, b)) == (Odd(a) != Odd(b))
  {
  }

  lemma HalfMix(a: bv32, b: bv32)
    ensures Half(Mix(a, b)) == Mix(Half(a), Half(b))
  {
  }

  lemma MixParts(a: bv32, b: bv32)
    ensures Odd(Mix(a, b)) == (Odd(a) != Odd(b))
    ensures Half(Mix(a, b)) == Mix(Half(a), Half(b))
  {
    hide Mix, Odd, Half;
    OddMix(a, b);
    HalfMix(a, b);
  }

  lemma MixComm(a: bv32, b: bv32)
    ensures Mix(a, b) == Mix(b, a)
  {
  }

  lemma MixAssoc(a: bv32, b: bv32, c: bv32)
    ensures Mix(Mix(a, b), c) == Mix(a, Mix(b, c))
  {
  }

  lemma MixTwice(a: bv32, b: bv32)
    ensures Mix(a, Mix(a, b)) == b
  {
  }

  lemma MixOnes(a: bv32)
    ensures Mix(a, 0xFFFFFFFF) == Not(a) && Not(Not(a)) == a
  {
  }

  lemma MixGroup(a: bv32, b: bv32, x: bv32, y: bv32)
    ensures Mix(Mix(a, b), Mix(x, y)) == Mix(Mix(a, x), Mix(b, y))
  {
    hide Mix;
    calc {
      Mix(Mix(a, b), Mix(x, y));
      { MixAssoc(a, b, Mix(x, y)); }
      Mix(a, Mix(b, Mix(x, y)));
      { MixAssoc(b, x, y); MixComm(b, x); MixAssoc(x, b, y); }
      Mix(a, Mix(x, Mix(b, y)));
      { MixAssoc(a, x, Mix(b, y)); }
      Mix(Mix(a, x), Mix(b, y));
    }
  }

  lemma MixThird(x: bv32, y: bv32, p: bv32)
    ensures Mix(Mix(x, y), p) == Mix(Mix(x, p), y) == Mix(x, Mix(y, p))
    ensures Mix(x, y) == Mix(Mix(x, p), Mix(y, p))
  {
    hide Mix;
    MixAssoc(x, y, p);
    MixComm(y, p);
    MixAssoc(x, p, y);
    MixGroup(x, p, y, p);
    MixZero(p, p);
    MixZero(Mix(x, y), 0);
  }

  lemma MixNone(a: bv32)
    ensures Mix(a, 0) == a && Mix(0, a) == a && Mix(a, a) == 0
  {
  }

  lemma MixZero(a: bv32, b: bv32)
    ensures Mix(a, 0) == a && Mix(0, a) == a
    ensures Mix(a, b) == 0 <==> a == b
  {
    hide Mix;
    MixNone(a);
    MixTwice(a, b);
  }

  lemma NotFacts(a: bv32, b: bv32)
    ensures Mix(a, b) == 0xFFFFFFFF <==> b == Not(a)
    ensures Not(a) == Not(b) <==> a == b
  {
    hide Mix, Not;
    MixTwice(a, b);
    MixOnes(a);
    MixOnes(b);
    MixTwice(a, 0xFFFFFFFF);
  }

  lemma ThreeNots(x: bv32, y: bv32, z: bv32)
    ensures Not(Mix(Mix(x, y), z)) == Mix(Mix(Not(x), Not(y)), Not(z))
  {
  }

  lemma BitMix(x: bool, y: bool)
    ensures Bit(x != y) == Mix(Bit(x), Bit(y))
  {
  }

  lemma ClearLow(c: bv32, v: bv32)
    ensures var b := Bit(Odd(v));
      Mix(c, v) == Mix(Mix(c, b), Mix(v, b)) && !Odd(Mix(v, b)) && Half(Mix(v, b)) == Half(v)
  {
    assert v & 1 == 0 || v & 1 == 1;
    assert v & 1 == 0 ==> Bit(Odd(v)) == 0 && v ^ 0 == v;
    assert v & 1 == 1 ==> (v ^ 1) & 1 == 0 && (v ^ 1) >> 1 == v >> 1;
  }

  lemma FourHalves(v: bv32)
    ensures Half(Half(Half(Half(v)))) == Nibble(v)
  {
  }

  lemma FourEven(w: bv32)
    requires w & 0xF == 0
    ensures !Odd(w) && !Odd(Half(w)) && !Odd(Half(Half(w))) && !Odd(Half(Half(Half(w))))
  {
  }

  lemma ByteParts(c: bv32, v: bv32)
    ensures Mix(c, v) == Mix(Mix(c, LowByte(v)), AboveByte(v))
    ensures AboveByte(v) & 0xF == 0 && Nibble(AboveByte(v)) & 0xF == 0
    ensures Nibble(Nibble(AboveByte(v))) == NextByte(v)
  {
    hide Mix;
    SplitLowByte(c, v);
    MixIs(c, v);
    MixIs(c, LowByte(v));
    MixIs(Mix(c, LowByte(v)), AboveByte(v));
  }

  lemma EightNibblesGone(v: bv32)
    ensures Nibble(Nibble(Nibble(Nibble(Nibble(Nibble(Nibble(Nibble(v)))))))) == 0
  {
  }

  lemma FourBytesGone(v: bv32)
    ensures NextByte(NextByte(NextByte(NextByte(v)))) == 0
  {
  }

  lemma WithinPush(p: bv32, q: bv32, b: bool)
    requires Within(p, q)
    ensures Within(Push(p, b), Push(q, true))
  {
    PushAnd(p, q, Bit(b));
  }

  lemma ZeroWithin(q: bv32)
    ensures Within(0, q)
  {
  }

  lemma WithinTrans(p: bv32, q: bv32, r: bv32)
    requires Within(p, q) && Within(q, r)
    ensures Within(p, r)
  {
    assert p & r == (p & q) & r == p & (q & r);
  }

  lemma PopPush(p: bv32, b: bool)
    requires Within(p, 0x7FFFFFFF)
    ensures Odd(Push(p, b)) == b && Half(Push(p, b)) == p
    ensures p != 0 || b ==> Push(p, b) != 0
  {
    if b {
      ShiftInOne(p);
    } else {
      ShiftInZero(p);
    }
  }
}
