/** The table-free CRC-32 of an array of 32-bit words, against a register that takes
    one message bit at a time (section 3.2.9 of IEEE 802.3). */
module Crc32 {
  import opened WordBits

  const POLY: bv32 := 0xEDB88320

  /** One shift of the register, without a branch. */
  function Step(c: bv32): bv32 {
    (c >> 1) ^ (POLY & (0 - (c & 1)))
  }

  function Steps(n: nat, c: bv32): bv32 {
    if n == 0 then c else Steps(n - 1, Step(c))
  }

  /** The register after the words of `data`. */
  function Fold(c: bv32, data: seq<bv32>): bv32
    decreases |data|
  {
    if data == [] then c else Fold(Steps(32, Mix(c, data[0])), data[1..])
  }

  function Crc(data: seq<bv32>): bv32 {
    Not(Fold(0xFFFFFFFF, data))
  }

  lemma StepByBit(c: bv32)
    ensures Step(c) == if Odd(c) then Mix(Half(c), POLY) else Half(c)
  {
    assert c & 1 == 0 || c & 1 == 1;
  }

  // ---- the step is linear and has an inverse --------------------------------

  lemma StepLinear(a: bv32, b: bv32)
    ensures Step(Mix(a, b)) == Mix(Step(a), Step(b))
  {
    hide Step, Mix, Half, Odd;
    StepByBit(a);
    StepByBit(b);
    StepByBit(Mix(a, b));
    MixParts(a, b);
    MixThird(Half(a), Half(b), POLY);
  }

  function Unstep(c: bv32): bv32 {
    if c & 0x80000000 == 0 then c << 1 else ((c ^ POLY) << 1) | 1
  }

  lemma UnstepHalf(c: bv32)
    ensures !Odd(c) ==> Unstep(Half(c)) == c
    ensures Odd(c) ==> Unstep(Mix(Half(c), POLY)) == c
  {
    ShiftBack(c);
  }

  lemma HalfUnstep(c: bv32)
    ensures c & 0x80000000 == 0 ==> !Odd(Unstep(c)) && Half(Unstep(c)) == c
    ensures c & 0x80000000 != 0 ==> Odd(Unstep(c)) && Mix(Half(Unstep(c)), POLY) == c
  {
  }

  /** The step is a bijection: its top bit tells which bit was shifted out. */
  lemma StepInverse(c: bv32)
    ensures Unstep(Step(c)) == c && Step(Unstep(c)) == c
  {
    hide Step, Mix, Half, Odd, Unstep;
    StepByBit(c);
    StepByBit(Unstep(c));
    UnstepHalf(c);
    HalfUnstep(c);
  }

  lemma {:induction false} StepsLinear(n: nat, a: bv32, b: bv32)
    ensures Steps(n, Mix(a, b)) == Mix(Steps(n, a), Steps(n, b))
  {
    hide Step, Mix;
    if n > 0 {
      StepLinear(a, b);
      StepsLinear(n - 1, Step(a), Step(b));
    }
  }

  lemma {:induction false} StepsInjective(n: nat, a: bv32, b: bv32)
    requires Steps(n, a) == Steps(n, b)
    ensures a == b
    decreases n
  {
    hide Step, Unstep;
    if n > 0 {
      StepsInjective(n - 1, Step(a), Step(b));
      StepInverse(a);
      StepInverse(b);
    }
  }

  lemma {:induction false} StepsOfZero(n: nat)
    ensures Steps(n, 0) == 0
  {
    if n > 0 {
      StepsOfZero(n - 1);
    }
  }

  lemma {:induction false} StepsSplit(m: nat, n: nat, c: bv32)
    ensures Steps(m + n, c) == Steps(n, Steps(m, c))
    decreases m
  {
    hide Step;
    if m > 0 {
      StepsSplit(m - 1, n, Step(c));
    }
  }

  // ---- one bit at a time ----------------------------------------------------

  function Serial(c: bv32, bits: seq<bool>): bv32
    decreases |bits|
  {
    if bits == [] then c else Serial(Step(Mix(c, Bit(bits[0]))), bits[1..])
  }

  /** The low n bits of a word, least significant first. */
  function Bits(v: bv32, n: nat): (r: seq<bool>)
    ensures |r| == n
    decreases n
  {
    if n == 0 then [] else [Odd(v)] + Bits(Half(v), n - 1)
  }

  /** The message bits in transmission order. */
  function Message(data: seq<bv32>): (r: seq<bool>)
    ensures |r| == 32 * |data|
  {
    if data == [] then [] else Bits(data[0], 32) + Message(data[1..])
  }

  function Shr(v: bv32, n: nat): bv32
    decreases n
  {
    if n == 0 then v else Shr(Half(v), n - 1)
  }

  lemma StepTakesBit(c: bv32, v: bv32)
    ensures Step(Mix(c, v)) == Mix(Step(Mix(c, Bit(Odd(v)))), Half(v))
  {
    hide Step, Bit, Mix, Half, Odd;
    var b := Bit(Odd(v));
    ClearLow(c, v);
    StepLinear(Mix(c, b), Mix(v, b));
    StepByBit(Mix(v, b));
  }

  /** n steps on the register with a word mixed in are n serial steps on its low
      bits, the rest of the word still mixed in. */
  lemma {:induction false} SerialOfBits(c: bv32, v: bv32, n: nat)
    ensures Steps(n, Mix(c, v)) == Mix(Serial(c, Bits(v, n)), Shr(v, n))
    decreases n
  {
    hide Step, Bit, Mix, Half, Odd;
    if n > 0 {
      StepTakesBit(c, v);
      SerialOfBits(Step(Mix(c, Bit(Odd(v)))), Half(v), n - 1);
      assert Bits(v, n)[1..] == Bits(Half(v), n - 1);
    }
  }

  lemma {:induction false} ShrSplit(v: bv32, m: nat, n: nat)
    ensures Shr(v, m + n) == Shr(Shr(v, m), n)
    decreases m
  {
    hide Half;
    if m > 0 {
      ShrSplit(Half(v), m - 1, n);
    }
  }

  lemma ShrNibble(v: bv32)
    ensures Shr(v, 4) == Nibble(v)
  {
    hide Half, Nibble;
    assert Shr(v, 4) == Half(Half(Half(Half(v))));
    FourHalves(v);
  }

  lemma ShrByte(v: bv32)
    ensures Shr(v, 8) == Nibble(Nibble(v))
  {
    hide Shr, Nibble;
    ShrSplit(v, 4, 4);
    ShrNibble(v);
    ShrNibble(Nibble(v));
  }

  lemma ShrWord(v: bv32)
    ensures Shr(v, 32) == 0
  {
    hide Shr, Nibble;
    var a := Nibble(Nibble(v));
    var b := Nibble(Nibble(a));
    var c := Nibble(Nibble(b));
    ShrSplit(v, 8, 24);
    ShrSplit(a, 8, 16);
    ShrSplit(b, 8, 8);
    ShrByte(v);
    ShrByte(a);
    ShrByte(b);
    ShrByte(c);
    EightNibblesGone(v);
  }

  lemma {:induction false} SerialSplit(c: bv32, x: seq<bool>, y: seq<bool>)
    ensures Serial(c, x + y) == Serial(Serial(c, x), y)
    decreases |x|
  {
    hide Step, Bit, Mix;
    if x == [] {
      assert x + y == y;
    } else {
      assert (x + y)[1..] == x[1..] + y;
      SerialSplit(Step(Mix(c, Bit(x[0]))), x[1..], y);
    }
  }

  /** The word-wise register is the bit-serial one over the message. */
  lemma {:induction false} FoldIsSerial(c: bv32, data: seq<bv32>)
    ensures Fold(c, data) == Serial(c, Message(data))
    decreases |data|
  {
    hide Step, Steps, Bit, Mix, Bits, Shr;
    if data != [] {
      var d := Steps(32, Mix(c, data[0]));
      SerialOfBits(c, data[0], 32);
      ShrWord(data[0]);
      MixZero(Serial(c, Bits(data[0], 32)), 0);
      FoldIsSerial(d, data[1..]);
      SerialSplit(c, Bits(data[0], 32), Message(data[1..]));
    }
  }

  // ---- the emulator's loops -------------------------------------------------

  lemma FourSteps(w: bv32)
    ensures Steps(4, w) == Step(Step(Step(Step(w))))
  {
    hide Step;
    assert Steps(4, w) == Steps(3, Step(w));
    assert Steps(3, Step(w)) == Steps(2, Step(Step(w)));
    assert Steps(2, Step(Step(w))) == Steps(1, Step(Step(Step(w))));
  }

  lemma NibbleOut(w: bv32)
    requires w & 0xF == 0
    ensures Steps(4, w) == Nibble(w)
  {
    hide Step, Half, Odd, Nibble;
    FourEven(w);
    FourHalves(w);
    StepByBit(w);
    StepByBit(Half(w));
    StepByBit(Half(Half(w)));
    StepByBit(Half(Half(Half(w))));
    FourSteps(w);
  }

  lemma ByteOut(v: bv32)
    ensures Steps(8, AboveByte(v)) == NextByte(v)
  {
    hide Step, Steps, AboveByte, NextByte, Nibble;
    var w := AboveByte(v);
    ByteParts(0, v);
    NibbleOut(w);
    NibbleOut(Nibble(w));
    StepsSplit(4, 4, w);
  }

  /** The bytes above the one being taken are only shifted down. */
  lemma ByteOfWord(c: bv32, v: bv32)
    ensures Steps(8, Mix(c, v)) == Mix(Steps(8, Mix(c, LowByte(v))), NextByte(v))
  {
    hide Step, Steps, Mix, LowByte, NextByte, AboveByte;
    ByteParts(c, v);
    StepsLinear(8, Mix(c, LowByte(v)), AboveByte(v));
    ByteOut(v);
  }

  /** Three nested loops: words, their bytes from the lowest, eight shifts each. */
  method EmuCrc32(data: seq<bv32>) returns (r: bv32)
    ensures r == Crc(data)
  {
    hide Step, Steps, Mix;
    var crc: bv32 := 0xFFFFFFFF;
    assert data[0..] == data;
    for i := 0 to |data|
      invariant Fold(crc, data[i..]) == Fold(0xFFFFFFFF, data)
    {
      assert data[i..][0] == data[i] && data[i..][1..] == data[i + 1..];
      crc := FourBytes(crc, data[i]);
    }
    r := Not(crc);
  }

  function BytesLeft(v: bv32, n: nat): bv32 {
    if n == 0 then v else NextByte(BytesLeft(v, n - 1))
  }

  method FourBytes(c: bv32, word: bv32) returns (crc: bv32)
    ensures crc == Steps(32, Mix(c, word))
  {
    hide Step, Steps, Mix, LowByte, NextByte;
    var v := word;
    crc := c;
    for b := 0 to 4
      invariant Steps(32 - 8 * b, Mix(crc, v)) == Steps(32, Mix(c, word))
      invariant v == BytesLeft(word, b)
    {
      StepsSplit(8, 24 - 8 * b, Mix(crc, v));
      ByteOfWord(crc, v);
      crc := Mix(crc, LowByte(v));
      crc := EightShifts(crc);
      v := NextByte(v);
    }
    assert BytesLeft(word, 4) == NextByte(BytesLeft(word, 3)) == NextByte(NextByte(BytesLeft(word, 2)));
    FourBytesGone(word);
    MixZero(crc, 0);
    NoSteps(crc);
  }

  lemma NoSteps(c: bv32)
    ensures Steps(0, c) == c
  {
  }

  method EightShifts(c: bv32) returns (crc: bv32)
    ensures crc == Steps(8, c)
  {
    hide Step;
    crc := c;
    for k := 0 to 8
      invariant Steps(8 - k, crc) == Steps(8, c)
    {
      assert Steps(8 - k, crc) == Steps(8 - k - 1, Step(crc));
      crc := Step(crc);
    }
  }

  // ---- affine, and its codewords --------------------------------------------

  function Xor(a: seq<bv32>, b: seq<bv32>): (r: seq<bv32>)
    requires |a| == |b|
    ensures |r| == |a| && forall i :: 0 <= i < |a| ==> r[i] == Mix(a[i], b[i])
  {
    seq(|a|, i requires 0 <= i < |a| => Mix(a[i], b[i]))
  }

  /** The register is linear in its start and the message together. */
  lemma {:induction false} FoldLinear(c: bv32, d: bv32, a: seq<bv32>, b: seq<bv32>)
    requires |a| == |b|
    ensures Fold(Mix(c, d), Xor(a, b)) == Mix(Fold(c, a), Fold(d, b))
    decreases |a|
  {
    hide Step, Steps, Mix;
    if a != [] {
      MixGroup(c, d, a[0], b[0]);
      StepsLinear(32, Mix(c, a[0]), Mix(d, b[0]));
      assert Xor(a, b)[1..] == Xor(a[1..], b[1..]);
      FoldLinear(Steps(32, Mix(c, a[0])), Steps(32, Mix(d, b[0])), a[1..], b[1..]);
    }
  }

  /** The checksum is affine: three messages of one length combine. */
  lemma CrcAffine(a: seq<bv32>, b: seq<bv32>, c: seq<bv32>)
    requires |a| == |b| == |c|
    ensures Crc(Xor(Xor(a, b), c)) == Mix(Mix(Crc(a), Crc(b)), Crc(c))
  {
    hide Fold, Not, Mix;
    var i: bv32 := 0xFFFFFFFF;
    FoldLinear(i, i, a, b);
    FoldLinear(Mix(i, i), i, Xor(a, b), c);
    MixZero(i, i);
    ThreeNots(Fold(i, a), Fold(i, b), Fold(i, c));
  }

  lemma {:induction false} FoldAppend(c: bv32, data: seq<bv32>, w: bv32)
    ensures Fold(c, data + [w]) == Steps(32, Mix(Fold(c, data), w))
    decreases |data|
  {
    hide Step, Steps, Mix;
    if data == [] {
      assert data + [w] == [w] && [w][1..] == [];
      assert Fold(c, [w]) == Fold(Steps(32, Mix(c, w)), []);
    } else {
      assert (data + [w])[1..] == data[1..] + [w];
      FoldAppend(Steps(32, Mix(c, data[0])), data[1..], w);
    }
  }

  lemma StepsOfOnes()
    ensures Steps(32, 0xFFFFFFFF) == 0xDEBB20E3
  {
    StepsSplit(8, 24, 0xFFFFFFFF);
    StepsSplit(8, 16, 0x2DFD1072);
    StepsSplit(8, 8, 0xBE26ED00);
    assert Steps(8, 0xFFFFFFFF) == 0x2DFD1072;
    assert Steps(8, 0x2DFD1072) == 0xBE26ED00;
    assert Steps(8, 0xBE26ED00) == 0x00BE26ED;
    assert Steps(8, 0x00BE26ED) == 0xDEBB20E3;
  }

  /** A word appended to a message gives the fixed residue exactly when it is the
      message's checksum. */
  lemma ResidueIff(data: seq<bv32>, w: bv32)
    ensures Crc(data + [w]) == 0x2144DF1C <==> w == Crc(data)
  {
    hide Step, Steps, Fold, Mix;
    var c := Fold(0xFFFFFFFF, data);
    FoldAppend(0xFFFFFFFF, data, w);
    StepsOfOnes();
    NotFacts(c, w);
    if Steps(32, Mix(c, w)) == 0xDEBB20E3 {
      StepsInjective(32, Mix(c, w), 0xFFFFFFFF);
    }
  }

  // ---- bursts ---------------------------------------------------------------

  function XorBits(x: seq<bool>, y: seq<bool>): (r: seq<bool>)
    requires |x| == |y|
    ensures |r| == |x| && forall i :: 0 <= i < |x| ==> r[i] == (x[i] != y[i])
  {
    seq(|x|, i requires 0 <= i < |x| => x[i] != y[i])
  }

  lemma {:induction false} SerialLinear(c: bv32, d: bv32, x: seq<bool>, y: seq<bool>)
    requires |x| == |y|
    ensures Serial(Mix(c, d), XorBits(x, y)) == Mix(Serial(c, x), Serial(d, y))
    decreases |x|
  {
    hide Step, Mix, Bit;
    if x != [] {
      MixGroup(c, d, Bit(x[0]), Bit(y[0]));
      BitMix(x[0], y[0]);
      StepLinear(Mix(c, Bit(x[0])), Mix(d, Bit(y[0])));
      assert XorBits(x, y)[1..] == XorBits(x[1..], y[1..]);
      SerialLinear(Step(Mix(c, Bit(x[0]))), Step(Mix(d, Bit(y[0]))), x[1..], y[1..]);
    }
  }

  lemma ClearBit(c: bv32)
    ensures Mix(c, Bit(false)) == c
    ensures Step(c) == 0 <==> c == 0
  {
    hide Mix, Step, Unstep;
    MixZero(c, 0);
    StepInverse(c);
    StepInverse(0);
    StepOfZero();
  }

  lemma StepOfZero()
    ensures Step(0) == 0
  {
  }

  predicate Clear(x: seq<bool>) {
    forall i :: 0 <= i < |x| ==> !x[i]
  }

  /** Clear bits keep a zero register zero and any other one nonzero. */
  lemma {:induction false} SerialOfClear(c: bv32, x: seq<bool>)
    requires Clear(x)
    ensures Serial(c, x) == 0 <==> c == 0
    decreases |x|
  {
    hide Step, Mix, Bit;
    if x != [] {
      ClearBit(c);
      SerialOfClear(Step(c), x[1..]);
    }
  }

  /** Bits packed with the first lowest. */
  function Packed(x: seq<bool>): bv32 {
    if x == [] then 0 else Push(Packed(x[1..]), x[0])
  }

  /** n ones, lowest first. */
  function Ones(n: nat): bv32 {
    if n == 0 then 0 else Push(Ones(n - 1), true)
  }

  lemma {:induction false} OnesGrow(n: nat)
    ensures Within(Ones(n), Ones(n + 1))
  {
    hide Push, Within;
    if n > 0 {
      OnesGrow(n - 1);
      WithinPush(Ones(n - 1), Ones(n), true);
    } else {
      ZeroWithin(Ones(1));
    }
  }

  lemma {:induction false} OnesBelow(n: nat)
    requires n <= 31
    ensures Within(Ones(n), 0x7FFFFFFF)
    decreases 31 - n
  {
    hide Within;
    if n == 31 {
      MostOnes();
    } else {
      OnesBelow(n + 1);
      OnesGrow(n);
      WithinTrans(Ones(n), Ones(n + 1), 0x7FFFFFFF);
    }
  }

  lemma MostOnes()
    ensures Within(Ones(31), 0x7FFFFFFF)
  {
    assert Ones(8) == 0xFF;
    assert Ones(16) == 0xFFFF;
    assert Ones(24) == 0xFFFFFF;
    assert Ones(31) == 0x7FFFFFFF;
  }

  lemma {:induction false} PackedFits(x: seq<bool>)
    ensures Within(Packed(x), Ones(|x|))
    decreases |x|
  {
    hide Push, Within;
    if x != [] {
      PackedFits(x[1..]);
      WithinPush(Packed(x[1..]), Ones(|x| - 1), x[0]);
    } else {
      ZeroWithin(0);
    }
  }

  /** Up to 32 bits at once are the register with their packed word mixed in. */
  lemma {:induction false} SerialIsPacked(c: bv32, x: seq<bool>)
    requires |x| <= 32
    ensures Serial(c, x) == Steps(|x|, Mix(c, Packed(x)))
    ensures Packed(x) == 0 ==> forall i :: 0 <= i < |x| ==> !x[i]
    decreases |x|
  {
    hide Step, Bit, Mix, Odd, Half, Push, Within;
    if x != [] {
      var p := Packed(x[1..]);
      PackedFits(x[1..]);
      OnesBelow(|x| - 1);
      WithinTrans(p, Ones(|x| - 1), 0x7FFFFFFF);
      PopPush(p, x[0]);
      StepTakesBit(c, Packed(x));
      SerialIsPacked(Step(Mix(c, Bit(x[0]))), x[1..]);
      assert forall i :: 1 <= i < |x| ==> x[i] == x[1..][i - 1];
    } else {
      MixZero(c, 0);
    }
  }

  /** Two messages of one length that differ, but only inside some 32 consecutive
      transmitted bits, never have the same checksum: a single changed word is one
      case, a burst across two words another. */
  lemma BurstDetected(a: seq<bv32>, b: seq<bv32>, from: nat)
    requires |a| == |b|
    requires Message(a) != Message(b)
    requires forall i :: 0 <= i < |Message(a)| && !(from <= i < from + 32) ==> Message(a)[i] == Message(b)[i]
    ensures Crc(a) != Crc(b)
  {
    hide Step, Steps, Message, Serial, Fold, Mix, Not;
    var x := XorBits(Message(a), Message(b));
    var i: bv32 := 0xFFFFFFFF;
    FoldIsSerial(i, a);
    FoldIsSerial(i, b);
    SerialLinear(i, i, Message(a), Message(b));
    MixZero(i, i);
    BurstLeavesNonzero(x, from);
    MixZero(Fold(i, a), Fold(i, b));
    NotFacts(Fold(i, a), Fold(i, b));
  }

  predicate ClearOutside(x: seq<bool>, from: nat, end: nat) {
    forall i :: 0 <= i < |x| && !(from <= i < end) ==> !x[i]
  }

  lemma BurstLeavesNonzero(x: seq<bool>, from: nat)
    requires !Clear(x) && ClearOutside(x, from, from + 32)
    ensures Serial(0, x) != 0
  {
    hide Serial, Clear, ClearOutside;
    var k := SetBit(x, from);
    var end := if from + 32 <= |x| then from + 32 else |x|;
    WindowOf(x, from, end, k);
    WindowNonzero(x[from..end], k - from);
    BurstBetween(x[..from], x[from..end], x[end..]);
  }

  lemma SetBit(x: seq<bool>, from: nat) returns (k: nat)
    requires !Clear(x) && ClearOutside(x, from, from + 32)
    ensures from <= k < |x| && k < from + 32 && x[k]
  {
    k :| k < |x| && x[k];
  }

  lemma BurstBetween(a: seq<bool>, w: seq<bool>, b: seq<bool>)
    requires Clear(a) && Clear(b) && Serial(0, w) != 0
    ensures Serial(0, a + (w + b)) != 0
  {
    hide Step, Serial, Clear;
    SerialSplit(0, a, w + b);
    SerialSplit(0, w, b);
    SerialOfClear(0, a);
    SerialOfClear(Serial(0, w), b);
  }

  lemma WindowOf(x: seq<bool>, from: nat, end: nat, k: nat)
    requires from <= k < end <= |x| && ClearOutside(x, from, from + 32) && (end == from + 32 || end == |x|)
    ensures x == x[..from] + (x[from..end] + x[end..])
    ensures Clear(x[..from]) && Clear(x[end..]) && x[from..end][k - from] == x[k]
  {
  }

  lemma WindowNonzero(w: seq<bool>, k: nat)
    requires |w| <= 32 && k < |w| && w[k]
    ensures Serial(0, w) != 0
  {
    hide Step, Steps, Serial, Packed, Mix;
    SerialIsPacked(0, w);
    MixZero(Packed(w), 0);
    StepsOfZero(|w|);
    if Steps(|w|, Packed(w)) == 0 {
      StepsInjective(|w|, Packed(w), 0);
    }
  }

  /** Bits determine the word they come from. */
  lemma BitsInjective(v: bv32, w: bv32)
    requires Bits(v, 32) == Bits(w, 32)
    ensures v == w
  {
    hide Bits, Steps, Shr, Mix, Serial;
    SerialOfBits(0, v, 32);
    SerialOfBits(0, w, 32);
    ShrWord(v);
    ShrWord(w);
    MixZero(v, w);
    MixZero(w, v);
    StepsInjective(32, Mix(0, v), Mix(0, w));
  }

  lemma {:induction false} MessageAt(data: seq<bv32>, i: nat)
    requires i < |data|
    ensures Message(data)[32 * i..32 * i + 32] == Bits(data[i], 32)
    decreases |data|
  {
    hide Bits;
    if i > 0 {
      MessageAt(data[1..], i - 1);
      assert Message(data)[32..] == Message(data[1..]);
      assert Message(data)[32 * i..32 * i + 32] == Message(data)[32..][32 * (i - 1)..32 * (i - 1) + 32];
    }
  }

  /** In particular no change to one word goes unnoticed. */
  lemma OneWordDetected(a: seq<bv32>, i: nat, w: bv32)
    requires i < |a| && a[i] != w
    ensures Crc(a) != Crc(a[i := w])
  {
    hide Bits, Message, Fold, Not;
    var b := a[i := w];
    MessageAt(a, i);
    MessageAt(b, i);
    if Bits(a[i], 32) == Bits(w, 32) {
      BitsInjective(a[i], w);
    }
    forall k | 0 <= k < |Message(a)| && !(32 * i <= k < 32 * i + 32)
      ensures Message(a)[k] == Message(b)[k]
    {
      var j := k / 32;
      MessageAt(a, j);
      MessageAt(b, j);
      assert Message(a)[k] == Message(a)[32 * j..32 * j + 32][k - 32 * j];
      assert Message(b)[k] == Message(b)[32 * j..32 * j + 32][k - 32 * j];
    }
    BurstDetected(a, b, 32 * i);
  }

  // ---- check value ----------------------------------------------------------

  lemma EightSteps(c: bv32)
    ensures Steps(8, c) == Step(Step(Step(Step(Step(Step(Step(Step(c))))))))
  {
    hide Step, Steps;
    StepsSplit(4, 4, c);
    FourSteps(c);
    FourSteps(Step(Step(Step(Step(c)))));
  }

  lemma CheckWord0()
    ensures Steps(32, 0xCBCCCDCE) == 0x641C1F5C
  {
    hide Steps;
    assert Steps(8, 0xCBCCCDCE) == 0x7C17237A by { EightSteps(0xCBCCCDCE); }
    assert Steps(8, 0x7C17237A) == 0xB0AC8F01 by { EightSteps(0x7C17237A); }
    assert Steps(8, 0xB0AC8F01) == 0x77B79C19 by { EightSteps(0xB0AC8F01); }
    assert Steps(8, 0x77B79C19) == 0x641C1F5C by { EightSteps(0x77B79C19); }
    StepsSplit(8, 8, 0xCBCCCDCE);
    StepsSplit(16, 8, 0xCBCCCDCE);
    StepsSplit(24, 8, 0xCBCCCDCE);
  }

  lemma CheckWord1()
    ensures Steps(32, 0x5C2B2969) == 0x651F2550
  {
    hide Steps;
    assert Steps(8, 0x5C2B2969) == 0x3432F2D5 by { EightSteps(0x5C2B2969); }
    assert Steps(8, 0x3432F2D5) == 0xF68D14A9 by { EightSteps(0x3432F2D5); }
    assert Steps(8, 0xF68D14A9) == 0xAFFC9658 by { EightSteps(0xF68D14A9); }
    assert Steps(8, 0xAFFC9658) == 0x651F2550 by { EightSteps(0xAFFC9658); }
    StepsSplit(8, 8, 0x5C2B2969);
    StepsSplit(16, 8, 0x5C2B2969);
    StepsSplit(24, 8, 0x5C2B2969);
  }

  /** The checksum of the text 12345678 as two little-endian words, and of nothing. */
  lemma CheckValue()
    ensures Crc([0x34333231, 0x38373635]) == 0x9AE0DAAF
    ensures Crc([]) == 0
  {
    hide Steps;
    CheckWord0();
    CheckWord1();
    var data: seq<bv32> := [0x34333231, 0x38373635];
    assert Mix(0xFFFFFFFF, data[0]) == 0xCBCCCDCE && Mix(0x641C1F5C, data[1]) == 0x5C2B2969;
    assert data[1..] == [0x38373635] && data[1..][1..] == [];
    assert Fold(0xFFFFFFFF, data) == Fold(0x641C1F5C, data[1..]) == Fold(0x651F2550, data[1..][1..]);
  }
}
