/**
 The CRC of the packed text messages (`crc16` in udptoserial/parser.c): the shift-and-xor form the
 program runs, the bit-by-bit CRC with the polynomial x^16 + x^12 + x^5 + 1 that it stands for,
 and the changes that it is bound to notice.
 */
module Crc16 {
  import opened Bytes

  const CRC_INIT: bv16 := 0xFFFF

  /* ---------- bytes as bit vectors ---------- */

  /** The four bits of a number below 16. */
  function Bits(n: nat): bv16
    requires n < 16
  {
    if n == 0 then 0 else if n == 1 then 1 else if n == 2 then 2 else if n == 3 then 3
    else if n == 4 then 4 else if n == 5 then 5 else if n == 6 then 6 else if n == 7 then 7
    else if n == 8 then 8 else if n == 9 then 9 else if n == 10 then 10 else if n == 11 then 11
    else if n == 12 then 12 else if n == 13 then 13 else if n == 14 then 14 else 15
  }

  /** The eight bits of a byte. */
  function ByteBits(b: Byte): bv16 {
    (Bits(b / 16) << 4) | Bits(b % 16)
  }

  lemma BitsValue(n: nat)
    requires n < 16
    ensures Bits(n) as int == n
  {
  }

  lemma BitsInjective(m: nat, n: nat)
    requires m < 16 && n < 16 && Bits(m) == Bits(n)
    ensures m == n
  {
  }

  lemma BitsSmall(n: nat)
    requires n < 16
    ensures Bits(n) <= 15
  {
  }

  lemma NibblesApart(h: bv16, l: bv16, i: bv16, m: bv16)
    requires h <= 15 && l <= 15 && i <= 15 && m <= 15
    ensures (h << 4) | l <= 0xFF
    ensures (h << 4) | l == (i << 4) | m ==> h == i && l == m
  {
  }

  lemma ByteBitsSmall(b: Byte)
    ensures ByteBits(b) <= 0xFF
  {
    hide Bits;
    BitsSmall(b / 16);
    BitsSmall(b % 16);
    NibblesApart(Bits(b / 16), Bits(b % 16), 0, 0);
  }

  lemma ByteBitsInjective(a: Byte, b: Byte)
    requires ByteBits(a) == ByteBits(b)
    ensures a == b
  {
    hide Bits;
    BitsSmall(a / 16);
    BitsSmall(a % 16);
    BitsSmall(b / 16);
    BitsSmall(b % 16);
    NibblesApart(Bits(a / 16), Bits(a % 16), Bits(b / 16), Bits(b % 16));
    BitsInjective(a / 16, b / 16);
    BitsInjective(a % 16, b % 16);
  }

  /* ---------- the CRC the program computes ---------- */

  /** The byte that leaves the register, mixed with the next input byte. */
  function Enter(crc: bv16, b: bv16): bv16 {
    (crc >> 8) ^ b
  }

  function Fold(x: bv16): bv16 {
    x ^ (x >> 4)
  }

  /** 16-bit arithmetic: the shifts drop what leaves the word. */
  function Spread(crc: bv16, x: bv16): bv16 {
    (crc << 8) ^ (x << 12) ^ (x << 5) ^ x
  }

  /** One turn of the loop. */
  function Step(crc: bv16, b: bv16): bv16 {
    Spread(crc, Fold(Enter(crc, b)))
  }

  function CrcFrom(crc: bv16, data: seq<Byte>): bv16
    decreases |data|
  {
    if data == [] then crc else CrcFrom(Step(crc, ByteBits(data[0])), data[1..])
  }

  function Crc(data: seq<Byte>): bv16 {
    CrcFrom(CRC_INIT, data)
  }

  method ComputeCrc(data: seq<Byte>) returns (crc: bv16)
    ensures crc == Crc(data) == BitwiseFrom(0xFFFF, data)
  {
    CrcFromOnes(data);
    hide Enter, Fold, Spread, ByteBits, BitwiseFrom;
    crc := CRC_INIT;
    for i := 0 to |data|
      invariant CrcFrom(crc, data[i..]) == Crc(data)
    {
      assert data[i..][1..] == data[i + 1..];
      var x := Enter(crc, ByteBits(data[i]));
      x := Fold(x);
      crc := Spread(crc, x);
    }
  }

  /* ---------- the bit-by-bit CRC ---------- */

  /** Shift one bit out; if it was set, subtract the polynomial. */
  function ShiftBit(c: bv16): bv16 {
    if c & 0x8000 != 0 then (c << 1) ^ 0x1021 else c << 1
  }

  function FourBits(c: bv16): bv16 {
    ShiftBit(ShiftBit(ShiftBit(ShiftBit(c))))
  }

  /** The input byte enters at the top of the register. */
  function Feed(crc: bv16, b: bv16): bv16 {
    crc ^ (b << 8)
  }

  function BitwiseStep(crc: bv16, b: bv16): bv16 {
    FourBits(FourBits(Feed(crc, b)))
  }

  function BitwiseFrom(crc: bv16, data: seq<Byte>): bv16
    decreases |data|
  {
    if data == [] then crc else BitwiseFrom(BitwiseStep(crc, ByteBits(data[0])), data[1..])
  }

  /*
   The exclusive or and the shifts under names of their own, so that the calculations below can
   treat them as operations with laws rather than as sixteen bits each.
   */
  function X(a: bv16, b: bv16): bv16 { a ^ b }
  function L1(c: bv16): bv16 { c << 1 }
  function L4(c: bv16): bv16 { c << 4 }
  function L5(c: bv16): bv16 { c << 5 }
  function L8(c: bv16): bv16 { c << 8 }
  function L12(c: bv16): bv16 { c << 12 }
  function R8(c: bv16): bv16 { c >> 8 }
  function R12(c: bv16): bv16 { c >> 12 }
  function R15(c: bv16): bv16 { c >> 15 }

  lemma XAssoc(a: bv16, b: bv16, c: bv16)
    ensures X(X(a, b), c) == X(a, X(b, c))
  {
  }

  lemma XComm(a: bv16, b: bv16)
    ensures X(a, b) == X(b, a)
  {
  }

  lemma XZero(a: bv16)
    ensures X(a, 0) == a
  {
  }

  lemma XShiftLeft(a: bv16, b: bv16)
    ensures L1(X(a, b)) == X(L1(a), L1(b))
  {
  }

  lemma XShiftMore(a: bv16, b: bv16)
    ensures L4(X(a, b)) == X(L4(a), L4(b))
  {
  }

  lemma XShiftFive(a: bv16, b: bv16)
    ensures L5(X(a, b)) == X(L5(a), L5(b))
  {
  }

  lemma XShiftTwelve(a: bv16, b: bv16)
    ensures L12(X(a, b)) == X(L12(a), L12(b))
  {
  }

  lemma XShiftRight(a: bv16, b: bv16)
    ensures R15(X(a, b)) == X(R15(a), R15(b))
  {
  }

  lemma XShiftNibble(a: bv16, b: bv16)
    ensures R12(X(a, b)) == X(R12(a), R12(b))
  {
  }

  lemma XSwap(a: bv16, b: bv16, p: bv16, q: bv16)
    ensures X(X(a, p), X(b, q)) == X(X(a, b), X(p, q))
  {
    hide X;
    XAssoc(a, p, X(b, q));
    XAssoc(p, b, q);
    XComm(p, b);
    XAssoc(b, p, q);
    XAssoc(a, b, X(p, q));
  }

  /** The multiple of the polynomial that cancels the bits `h` when they are shifted out. */
  function Mix(h: bv16): bv16 {
    X(X(L12(h), L5(h)), h)
  }

  lemma MixX(a: bv16, b: bv16)
    ensures Mix(X(a, b)) == X(Mix(a), Mix(b))
  {
    hide X, L12, L5;
    XShiftTwelve(a, b);
    XShiftFive(a, b);
    XSwap(L12(a), L5(a), L12(b), L5(b));
    XSwap(X(L12(a), L5(a)), a, X(L12(b), L5(b)), b);
  }

  lemma MixSmall(h: bv16)
    requires h <= 7
    ensures L1(Mix(h)) == Mix(L1(h)) && R15(Mix(h)) == 0
  {
  }

  lemma MixNibble(h: bv16)
    requires h <= 15
    ensures R12(Mix(h)) == h && L4(Mix(h)) == Mix(L4(h))
  {
  }

  lemma TopBit(c: bv16)
    ensures R15(c) == if c & 0x8000 != 0 then 1 else 0
  {
  }

  lemma MixBit()
    ensures Mix(0) == 0 && Mix(1) == 0x1021
  {
  }

  lemma ShiftBitIs(c: bv16)
    ensures ShiftBit(c) == X(L1(c), Mix(R15(c)))
  {
    hide Mix, R15;
    TopBit(c);
    MixBit();
    XZero(L1(c));
  }

  /** Shifting out one more bit after those in `h`. */
  lemma ShiftMore(u: bv16, h: bv16)
    requires h <= 7
    ensures ShiftBit(X(u, Mix(h))) == X(L1(u), Mix(X(L1(h), R15(u))))
  {
    hide X, L1, R15, Mix, ShiftBit;
    ShiftBitIs(X(u, Mix(h)));
    XShiftLeft(u, Mix(h));
    XShiftRight(u, Mix(h));
    MixSmall(h);
    XZero(R15(u));
    MixX(L1(h), R15(u));
    XAssoc(L1(u), Mix(L1(h)), Mix(R15(u)));
  }

  lemma TopBits(c: bv16)
    ensures c >> 15 <= 7 && c >> 14 <= 7 && c >> 13 <= 7 && R15(c) == c >> 15
    ensures X(L1(c >> 15), R15(c << 1)) == c >> 14
    ensures X(L1(c >> 14), R15(c << 2)) == c >> 13
    ensures X(L1(c >> 13), R15(c << 3)) == R12(c)
    ensures L1(c) == c << 1 && L1(c << 1) == c << 2 && L1(c << 2) == c << 3 && L1(c << 3) == L4(c)
  {
  }

  lemma FourBitsIs(c: bv16)
    ensures FourBits(c) == X(L4(c), Mix(R12(c)))
  {
    var h1, h2, h3 := c >> 15, c >> 14, c >> 13;
    var u1, u2, u3 := c << 1, c << 2, c << 3;
    TopBits(c);
    FourShifts(c, u1, u2, u3, h1, h2, h3);
  }

  lemma FourShifts(c: bv16, u1: bv16, u2: bv16, u3: bv16, h1: bv16, h2: bv16, h3: bv16)
    requires h1 <= 7 && h2 <= 7 && h3 <= 7
    requires L1(c) == u1 && L1(u1) == u2 && L1(u2) == u3 && L1(u3) == L4(c)
    requires R15(c) == h1 && X(L1(h1), R15(u1)) == h2 && X(L1(h2), R15(u2)) == h3 && X(L1(h3), R15(u3)) == R12(c)
    ensures FourBits(c) == X(L4(c), Mix(R12(c)))
  {
    hide X, L1, L4, R15, R12, Mix, ShiftBit;
    ShiftBitIs(c);
    ShiftMore(u1, h1);
    ShiftMore(u2, h2);
    ShiftMore(u3, h3);
  }

  lemma Halves(d: bv16)
    ensures L4(L4(d)) == L8(d) && R12(d) <= 15
    ensures X(L4(R12(d)), R12(L4(d))) == R8(d)
  {
  }

  lemma EightBits(d: bv16)
    ensures FourBits(FourBits(d)) == X(L8(d), Mix(X(R8(d), R12(d))))
  {
    hide X, L4, L8, R8, R12, Mix, FourBits;
    var h := R12(d);
    var e := FourBits(d);
    FourBitsIs(d);
    FourBitsIs(e);
    Halves(d);
    MixNibble(h);
    XShiftMore(L4(d), Mix(h));
    XShiftNibble(L4(d), Mix(h));
    var l := R12(L4(d));
    assert R12(e) == X(l, h);
    assert L4(e) == X(L8(d), Mix(L4(h)));
    XAssoc(L4(h), l, h);
    MixX(L4(h), X(l, h));
    XAssoc(L8(d), Mix(L4(h)), Mix(X(l, h)));
  }

  lemma FedLow(c: bv16, b: bv16)
    ensures L8(Feed(c, b)) == L8(c)
  {
  }

  lemma FedHigh(c: bv16, b: bv16)
    requires b <= 0xFF
    ensures R8(Feed(c, b)) == Enter(c, b)
  {
  }

  lemma FoldIs(d: bv16)
    ensures X(R8(d), R12(d)) == Fold(R8(d))
  {
  }

  function RawMix(x: bv16): bv16 {
    (x << 12) ^ (x << 5) ^ x
  }

  lemma RawMixIs(x: bv16)
    ensures RawMix(x) == Mix(x)
  {
  }

  lemma SpreadParts(c: bv16, x: bv16)
    ensures Spread(c, x) == X(L8(c), RawMix(x))
  {
  }

  /** One byte: the shift-and-xor turn is eight single-bit shifts. */
  lemma StepIsBitwise(crc: bv16, b: bv16)
    requires b <= 0xFF
    ensures Step(crc, b) == BitwiseStep(crc, b)
  {
    hide X, L8, R8, R12, Mix, RawMix, FourBits, Feed, Enter, Fold, Spread;
    EightBits(Feed(crc, b));
    FedLow(crc, b);
    FedHigh(crc, b);
    FoldIs(Feed(crc, b));
    var x := Fold(Enter(crc, b));
    SpreadParts(crc, x);
    RawMixIs(x);
  }

  /** The program's CRC is the bit-by-bit one, on every byte string. */
  lemma {:induction false} CrcIsBitwise(crc: bv16, data: seq<Byte>)
    ensures CrcFrom(crc, data) == BitwiseFrom(crc, data)
    decreases |data|
  {
    hide Step, BitwiseStep, ByteBits;
    if data != [] {
      ByteBitsSmall(data[0]);
      StepIsBitwise(crc, ByteBits(data[0]));
      CrcIsBitwise(Step(crc, ByteBits(data[0])), data[1..]);
    }
  }

  /** The register starts with all bits set: the variant known as CRC-16/CCITT-FALSE. */
  lemma CrcFromOnes(data: seq<Byte>)
    ensures Crc([]) == 0xFFFF && Crc(data) == BitwiseFrom(0xFFFF, data)
  {
    CrcIsBitwise(0xFFFF, data);
  }

  /** Its eight bits are the number that a byte is. */
  lemma ByteBitsValue(b: Byte)
    ensures ByteBits(b) as int == b
  {
    hide Bits;
    BitsValue(b / 16);
    BitsValue(b % 16);
    BitsSmall(b / 16);
    BitsSmall(b % 16);
    NibblesValue(Bits(b / 16), Bits(b % 16));
  }

  lemma NibblesValue(h: bv16, l: bv16)
    requires h <= 15 && l <= 15
    ensures ((h << 4) | l) as int == 16 * (h as int) + l as int
  {
    assert (h << 4) | l == h * 16 + l;
  }

  /** `states` are the registers between the bytes of `data`. */
  predicate Trace(states: seq<bv16>, data: seq<Byte>) {
    |states| == |data| + 1 && forall i :: 0 <= i < |data| ==> Step(states[i], ByteBits(data[i])) == states[i + 1]
  }

  lemma {:induction false} TraceEnd(states: seq<bv16>, data: seq<Byte>)
    requires Trace(states, data)
    ensures CrcFrom(states[0], data) == states[|data|]
    decreases |data|
  {
    hide Step, ByteBits;
    if data != [] {
      var later, rest := states[1..], data[1..];
      forall i | 0 <= i < |rest| ensures Step(later[i], ByteBits(rest[i])) == later[i + 1] {
        assert later[i] == states[i + 1] && rest[i] == data[i + 1] && later[i + 1] == states[i + 2];
      }
      TraceEnd(later, rest);
    }
  }

  lemma StepValue(crc: bv16, b: Byte, bits: bv16, next: bv16)
    requires bits as int == b && bits <= 0xFF
    requires Spread(crc, Fold(Enter(crc, bits))) == next
    ensures Step(crc, ByteBits(b)) == next
  {
    hide Spread, Fold, Enter, ByteBits;
    ByteBitsValue(b);
    SameWord(ByteBits(b), bits);
  }

  lemma SameWord(a: bv16, b: bv16)
    requires a as int == b as int
    ensures a == b
  {
    WordBack(a);
    WordBack(b);
  }

  lemma WordBack(a: bv16)
    ensures (a as int) as bv16 == a
  {
  }

  /** The check value of that variant: the CRC of the digits 1 to 9. */
  lemma CheckValue()
    ensures Crc([49, 50, 51, 52, 53, 54, 55, 56, 57]) == 0x29B1
  {
    hide Step, ByteBits;
    var states: seq<bv16> := [0xFFFF, 0xC782, 0x3DBA, 0x5BCE, 0x5349, 0x4560, 0x2EF4, 0x7718, 0xA12B, 0x29B1];
    StepValue(0xFFFF, 49, 49, 0xC782);
    StepValue(0xC782, 50, 50, 0x3DBA);
    StepValue(0x3DBA, 51, 51, 0x5BCE);
    StepValue(0x5BCE, 52, 52, 0x5349);
    StepValue(0x5349, 53, 53, 0x4560);
    StepValue(0x4560, 54, 54, 0x2EF4);
    StepValue(0x2EF4, 55, 55, 0x7718);
    StepValue(0x7718, 56, 56, 0xA12B);
    StepValue(0xA12B, 57, 57, 0x29B1);
    TraceEnd(states, [49, 50, 51, 52, 53, 54, 55, 56, 57]);
  }

  /* ---------- changes that cannot go unnoticed ---------- */

  lemma {:induction false} CrcAppend(crc: bv16, a: seq<Byte>, b: seq<Byte>)
    ensures CrcFrom(crc, a + b) == CrcFrom(CrcFrom(crc, a), b)
    decreases |a|
  {
    hide Step, ByteBits;
    if a == [] {
      assert a + b == b;
    } else {
      assert (a + b)[1..] == a[1..] + b;
      CrcAppend(Step(crc, ByteBits(a[0])), a[1..], b);
    }
  }

  /** The inverse of `FourBits`. */
  function Unshift(d: bv16): bv16 {
    var h := d & 0xF;
    var e := d ^ (h << 12) ^ (h << 5) ^ h;
    (e >> 4) | (h << 12)
  }

  lemma UnshiftNibble(c: bv16)
    ensures Unshift(X(L4(c), Mix(R12(c)))) == c
  {
  }

  lemma FourBitsInjective(c: bv16, d: bv16)
    requires FourBits(c) == FourBits(d)
    ensures c == d
  {
    hide X, L4, Mix, R12, Unshift, FourBits;
    FourBitsIs(c);
    FourBitsIs(d);
    UnshiftNibble(c);
    UnshiftNibble(d);
  }

  /** Equal CRCs after a byte each mean that the states and bytes cancelled out before it. */
  lemma StepCollision(c: bv16, d: bv16, a: bv16, b: bv16)
    requires a <= 0xFF && b <= 0xFF && Step(c, a) == Step(d, b)
    ensures Feed(c, a) == Feed(d, b)
  {
    hide Step, FourBits, Feed;
    StepIsBitwise(c, a);
    StepIsBitwise(d, b);
    FourBitsInjective(FourBits(Feed(c, a)), FourBits(Feed(d, b)));
    FourBitsInjective(Feed(c, a), Feed(d, b));
  }

  function LowBits(c: bv16): bv16 {
    c & 0xFF
  }

  lemma FeedLow(c: bv16, b: bv16)
    ensures LowBits(Feed(c, b)) == LowBits(c)
  {
  }

  lemma FeedBack(c: bv16, b: bv16)
    ensures Feed(Feed(c, b), b) == c
  {
  }

  lemma FeedTells(c: bv16, a: bv16, b: bv16)
    requires a <= 0xFF && b <= 0xFF && Feed(c, a) == Feed(c, b)
    ensures a == b
  {
  }

  lemma {:induction false} CrcFromInjective(c: bv16, d: bv16, data: seq<Byte>)
    requires CrcFrom(c, data) == CrcFrom(d, data)
    ensures c == d
    decreases |data|
  {
    hide Step, ByteBits, Feed, LowBits;
    if data != [] {
      var b := ByteBits(data[0]);
      CrcFromInjective(Step(c, b), Step(d, b), data[1..]);
      ByteBitsSmall(data[0]);
      StepCollision(c, d, b, b);
      FeedBack(c, b);
      FeedBack(d, b);
    }
  }

  /** The low byte that `Spread` makes of `y`. */
  function LowOf(y: bv16): bv16 {
    (y ^ (y << 5)) & 0xFF
  }

  lemma SpreadLow(c: bv16, y: bv16)
    ensures LowBits(Spread(c, y)) == LowOf(y)
  {
  }

  lemma LowOfInjective(y: bv16, z: bv16)
    requires y <= 0xFF && z <= 0xFF && LowOf(y) == LowOf(z)
    ensures y == z
  {
  }

  lemma FoldInjective(x: bv16, w: bv16)
    requires x <= 0xFF && w <= 0xFF && Fold(x) == Fold(w)
    ensures x == w
  {
  }

  lemma EnterSmall(c: bv16, b: bv16)
    requires b <= 0xFF
    ensures Enter(c, b) <= 0xFF
  {
  }

  lemma FoldSmall(x: bv16)
    requires x <= 0xFF
    ensures Fold(x) <= 0xFF
  {
  }

  lemma EnterInjective(c: bv16, a: bv16, b: bv16)
    requires Enter(c, a) == Enter(c, b)
    ensures a == b
  {
  }

  /** The low byte of the state after a byte tells which byte it was. */
  lemma LowByteTells(c: bv16, a: bv16, b: bv16)
    requires a <= 0xFF && b <= 0xFF && LowBits(Step(c, a)) == LowBits(Step(c, b))
    ensures a == b
  {
    hide Enter, Fold, Spread, LowOf, LowBits;
    var x, w := Enter(c, a), Enter(c, b);
    EnterSmall(c, a);
    EnterSmall(c, b);
    FoldSmall(x);
    FoldSmall(w);
    SpreadLow(c, Fold(x));
    SpreadLow(c, Fold(w));
    LowOfInjective(Fold(x), Fold(w));
    FoldInjective(x, w);
    EnterInjective(c, a, b);
  }

  /** One or two adjacent bytes. */
  lemma ShortChange(crc: bv16, a: seq<Byte>, b: seq<Byte>)
    requires |a| == |b| && 1 <= |a| <= 2 && CrcFrom(crc, a) == CrcFrom(crc, b)
    ensures a == b
  {
    hide Step, ByteBits, Feed, LowBits;
    var p, q := ByteBits(a[0]), ByteBits(b[0]);
    ByteBitsSmall(a[0]);
    ByteBitsSmall(b[0]);
    if |a| == 1 {
      assert a[1..] == [] && b[1..] == [];
      StepCollision(crc, crc, p, q);
      FeedTells(crc, p, q);
      ByteBitsInjective(a[0], b[0]);
    } else {
      var p2, q2 := ByteBits(a[1]), ByteBits(b[1]);
      ByteBitsSmall(a[1]);
      ByteBitsSmall(b[1]);
      TwoSteps(crc, a);
      TwoSteps(crc, b);
      StepCollision(Step(crc, p), Step(crc, q), p2, q2);
      FeedLow(Step(crc, p), p2);
      FeedLow(Step(crc, q), q2);
      LowByteTells(crc, p, q);
      ByteBitsInjective(a[0], b[0]);
      FeedTells(Step(crc, p), p2, q2);
      ByteBitsInjective(a[1], b[1]);
    }
  }

  lemma TwoSteps(crc: bv16, a: seq<Byte>)
    requires |a| == 2
    ensures CrcFrom(crc, a) == Step(Step(crc, ByteBits(a[0])), ByteBits(a[1]))
  {
    hide Step, ByteBits;
    assert a[1..][1..] == [];
    assert a[1..][0] == a[1];
    assert CrcFrom(Step(crc, ByteBits(a[0])), a[1..]) == Step(Step(crc, ByteBits(a[0])), ByteBits(a[1]));
  }

  /** Changing one byte, or two adjacent ones, anywhere in a text changes its CRC. */
  lemma ChangeDetected(front: seq<Byte>, a: seq<Byte>, b: seq<Byte>, back: seq<Byte>)
    requires |a| == |b| && 1 <= |a| <= 2 && a != b
    ensures Crc(front + a + back) != Crc(front + b + back)
  {
    if Crc(front + a + back) == Crc(front + b + back) {
      hide CrcFrom;
      CrcAppend(CRC_INIT, front + a, back);
      CrcAppend(CRC_INIT, front + b, back);
      CrcAppend(CRC_INIT, front, a);
      CrcAppend(CRC_INIT, front, b);
      var c := CrcFrom(CRC_INIT, front);
      CrcFromInjective(CrcFrom(c, a), CrcFrom(c, b), back);
      ShortChange(c, a, b);
    }
  }
}
