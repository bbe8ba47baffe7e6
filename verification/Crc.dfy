/** The checksum over the persisted table of contents (src/open.c:40-50). The 32-bit register is
    wrapped in a datatype, so that only the small lemmas below look at its bits. */
module Crc {
  import opened Disk

  datatype Reg = Reg(v: bv32)

  const INIT: Reg := Reg(0xffff_ffff)

  /** One turn of the bit loop, on bits and on the register. */
  function Bits(c: bv32): bv32 { XorBits(Half(c), Mask(c)) }

  const POLY: bv32 := 0xedb8_8320

  function LastBit(c: bv32): bv32 { c & 1 }
  function Half(c: bv32): bv32 { c >> 1 }
  function Mask(c: bv32): bv32 { POLY & (0 - LastBit(c)) }

  function Bits8(c: bv32): bv32 {
    Bits(Bits(Bits(Bits(Bits(Bits(Bits(Bits(c))))))))
  }

  function XorBits(a: bv32, b: bv32): bv32 { a ^ b }
  function LowBits(a: bv32): bv32 { a & 0xff }
  function DownBits(a: bv32): bv32 { a >> 8 }
  function LaneBits(b: byte): bv32 { b as bv32 }
  function Up8(a: bv32): bv32 { a << 8 }
  function Up16(a: bv32): bv32 { a << 16 }
  function Up24(a: bv32): bv32 { a << 24 }

  function Shift(c: Reg): Reg { Reg(Bits(c.v)) }

  function Shifts(c: Reg, k: nat): Reg {
    if k == 0 then c else Shift(Shifts(c, k - 1))
  }

  function Shift8(c: Reg): Reg {
    Shift(Shift(Shift(Shift(Shift(Shift(Shift(Shift(c))))))))
  }

  function Xor(a: Reg, b: Reg): Reg { Reg(XorBits(a.v, b.v)) }

  function Not(a: Reg): Reg { Reg(!a.v) }

  /** A byte in lane 0, 1, 2 or 3 of a word. */
  function Lane0(b: byte): Reg { Reg(LaneBits(b)) }
  function Lane1(b: byte): Reg { Reg(Up8(LaneBits(b))) }
  function Lane2(b: byte): Reg { Reg(Up16(LaneBits(b))) }
  function Lane3(b: byte): Reg { Reg(Up24(LaneBits(b))) }

  function Step(c: Reg, b: byte): Reg {
    Shift8(Xor(c, Lane0(b)))
  }

  /** The register after the bytes `s`. */
  function Register(c: Reg, s: seq<byte>): Reg {
    if s == [] then c else Step(Register(c, s[..|s| - 1]), s[|s| - 1])
  }

  function Crc32(s: seq<byte>): Reg {
    Not(Register(INIT, s))
  }

  /** crc32_of. */
  method Crc32Of(p: seq<byte>) returns (crc: Reg)
    ensures crc == Crc32(p)
  {
    hide Shift, Xor, Lane0;
    var c := INIT;
    var i: nat := 0;
    while i < |p|
      invariant i <= |p| && c == Register(INIT, p[..i])
    {
      ghost var d := Xor(c, Lane0(p[i]));
      c := Xor(c, Lane0(p[i]));
      var k: nat := 0;
      while k < 8
        invariant k <= 8 && c == Shifts(d, k)
      {
        c := Shift(c);
        k := k + 1;
      }
      EightShifts(d);
      assert p[..i + 1][..i] == p[..i];
      i := i + 1;
    }
    assert p[..|p|] == p;
    crc := Not(c);
  }

  lemma EightShifts(d: Reg)
    ensures Shifts(d, 8) == Shift8(d)
  {
    hide Shift;
    assert Shifts(d, 1) == Shift(Shifts(d, 0));
    assert Shifts(d, 3) == Shift(Shift(Shifts(d, 1)));
    assert Shifts(d, 5) == Shift(Shift(Shifts(d, 3)));
    assert Shifts(d, 7) == Shift(Shift(Shifts(d, 5)));
  }

  // ------------------------------------------------------------- conformance

  /** The inner step of make_crc_table in section 8 of RFC 1952. */
  function TableStep(c: Reg): Reg {
    if c.v & 1 == 1 then Reg(0xedb8_8320 ^ (c.v >> 1)) else Reg(c.v >> 1)
  }

  /** Entry `n` of the table of section 8 of RFC 1952, after `k` of its eight steps. */
  function TableEntry(n: Reg, k: nat): Reg {
    if k == 0 then n else TableStep(TableEntry(n, k - 1))
  }

  function LowByte(c: Reg): Reg { Reg(LowBits(c.v)) }

  function Down(c: Reg): Reg { Reg(DownBits(c.v)) }

  /** update_crc of section 8 of RFC 1952. */
  function UpdateCrc(c: Reg, s: seq<byte>): Reg {
    if s == [] then c
    else
      var d := UpdateCrc(c, s[..|s| - 1]);
      Xor(TableEntry(LowByte(Xor(d, Lane0(s[|s| - 1]))), 8), Down(d))
  }

  lemma {:induction false} TableIsShifts(n: Reg, k: nat)
    ensures TableEntry(n, k) == Shifts(n, k)
  {
    hide Shift, TableStep;
    if k > 0 {
      TableIsShifts(n, k - 1);
      OneTableStep(Shifts(n, k - 1));
    }
  }

  lemma OneTableStepBits(c: bv32)
    ensures Bits(c) == if LastBit(c) == 1 then XorBits(POLY, Half(c)) else Half(c)
  {
    hide Bits, XorBits, Half, LastBit;
    StepParts(c);
    XorComm(Half(c), POLY);
    XorZero(Half(c));
  }

  /** The bit loop is linear. */
  lemma BitsXor(a: bv32, b: bv32)
    ensures Bits(XorBits(a, b)) == XorBits(Bits(a), Bits(b))
  {
    hide Bits, XorBits, Half, Feedback;
    StepParts(a);
    StepParts(b);
    StepParts(XorBits(a, b));
    XorHalf(a, b);
    XorFeedback(a, b);
    XorSwap(Half(a), Feedback(a), Half(b), Feedback(b));
  }

  /** What the bit that drops out feeds back. */
  function Feedback(c: bv32): bv32 { if LastBit(c) == 1 then POLY else 0 }

  lemma StepParts(c: bv32)
    ensures Bits(c) == XorBits(Half(c), Feedback(c))
  {
    hide Mask, Feedback, XorBits, Half;
    FeedbackMask(c);
  }

  lemma FeedbackMask(c: bv32)
    ensures Mask(c) == Feedback(c)
  {
    LastBits(c, c);
    if LastBit(c) == 1 {
      assert 0 - LastBit(c) == 0xffff_ffff;
    }
  }

  lemma XorZero(a: bv32)
    ensures XorBits(a, 0) == a
  {
  }

  lemma XorHalf(a: bv32, b: bv32)
    ensures Half(XorBits(a, b)) == XorBits(Half(a), Half(b))
  {
  }

  lemma LastBits(a: bv32, b: bv32)
    ensures LastBit(a) == 0 || LastBit(a) == 1
    ensures LastBit(XorBits(a, b)) == if LastBit(a) == LastBit(b) then 0 else 1
  {
  }

  lemma XorFeedback(a: bv32, b: bv32)
    ensures Feedback(XorBits(a, b)) == XorBits(Feedback(a), Feedback(b))
  {
    hide LastBit, XorBits;
    LastBits(a, b);
    LastBits(b, a);
    XorConstants();
  }

  lemma XorConstants()
    ensures XorBits(POLY, POLY) == 0 && XorBits(0, 0) == 0
    ensures XorBits(POLY, 0) == POLY && XorBits(0, POLY) == POLY
  {
  }

  lemma XorComm(a: bv32, b: bv32)
    ensures XorBits(a, b) == XorBits(b, a)
  {
  }

  lemma XorSwap(p: bv32, q: bv32, r: bv32, t: bv32)
    ensures XorBits(XorBits(p, r), XorBits(q, t)) == XorBits(XorBits(p, q), XorBits(r, t))
  {
    hide XorBits;
    XorGroups(p, r, XorBits(q, t));
    XorGroups(r, q, t);
    XorComm(r, q);
    XorGroups(q, r, t);
    XorGroups(p, q, XorBits(r, t));
  }

  lemma Bits8Xor(a: bv32, b: bv32)
    ensures Bits8(XorBits(a, b)) == XorBits(Bits8(a), Bits8(b))
  {
    hide Bits, XorBits;
    var a1, b1 := Bits(a), Bits(b);
    var a2, b2 := Bits(a1), Bits(b1);
    var a3, b3 := Bits(a2), Bits(b2);
    var a4, b4 := Bits(a3), Bits(b3);
    var a5, b5 := Bits(a4), Bits(b4);
    var a6, b6 := Bits(a5), Bits(b5);
    var a7, b7 := Bits(a6), Bits(b6);
    BitsXor(a, b);
    BitsXor(a1, b1);
    BitsXor(a2, b2);
    BitsXor(a3, b3);
    BitsXor(a4, b4);
    BitsXor(a5, b5);
    BitsXor(a6, b6);
    BitsXor(a7, b7);
  }

  predicate Even(b: bv32) { LastBit(b) == 0 }
  function Upper(c: bv32): bv32 { c & 0xffff_ff00 }

  lemma BitsEven(b: bv32)
    requires Even(b)
    ensures Bits(b) == Half(b)
  {
    hide Bits, Half, LastBit;
    OneTableStepBits(b);
  }

  /** The upper three bytes only move down. */
  lemma HighBits(c: bv32)
    ensures Bits8(Upper(c)) == DownBits(c)
  {
    hide Bits, Half, Even, Upper, DownBits;
    var h := Upper(c);
    EvenHalves(c);
    BitsEven(h);
    BitsEven(Half(h));
    BitsEven(Half(Half(h)));
    BitsEven(Half(Half(Half(h))));
    BitsEven(Half(Half(Half(Half(h)))));
    BitsEven(Half(Half(Half(Half(Half(h))))));
    BitsEven(Half(Half(Half(Half(Half(Half(h)))))));
    BitsEven(Half(Half(Half(Half(Half(Half(Half(h))))))));
  }

  lemma EvenHalves(c: bv32)
    ensures var h := Upper(c);
            && Even(h) && Even(Half(h)) && Even(Half(Half(h))) && Even(Half(Half(Half(h))))
            && Even(Half(Half(Half(Half(h))))) && Even(Half(Half(Half(Half(Half(h))))))
            && Even(Half(Half(Half(Half(Half(Half(h)))))))
            && Even(Half(Half(Half(Half(Half(Half(Half(h))))))))
            && Half(Half(Half(Half(Half(Half(Half(Half(h)))))))) == DownBits(c)
  {
    hide Half, Even, Free, Upper, DownBits;
    var h := Upper(c);
    UpperFree(c);
    FreeHalf(h, 0x7f);
    FreeHalf(Half(h), 0x3f);
    FreeHalf(Half(Half(h)), 0x1f);
    FreeHalf(Half(Half(Half(h))), 0xf);
    FreeHalf(Half(Half(Half(Half(h)))), 7);
    FreeHalf(Half(Half(Half(Half(Half(h))))), 3);
    FreeHalf(Half(Half(Half(Half(Half(Half(h)))))), 1);
    FreeHalf(Half(Half(Half(Half(Half(Half(Half(h))))))), 0);
    HalfEight(c);
  }

  /** No bit of `m` is set in `h`. */
  predicate Free(h: bv32, m: bv32) { h & m == 0 }

  lemma UpperFree(c: bv32)
    ensures Free(Upper(c), 0xff)
  {
  }

  lemma FreeHalf(h: bv32, m: bv32)
    requires m <= 0x7f && Free(h, (m << 1) | 1)
    ensures Even(h) && Free(Half(h), m)
  {
  }

  lemma HalfEight(c: bv32)
    ensures Half(Half(Half(Half(Half(Half(Half(Half(Upper(c))))))))) == DownBits(c)
  {
  }

  lemma Halved(c: bv32)
    ensures c == XorBits(LowBits(c), Upper(c))
  {
  }

  lemma HalfIs(c: bv32)
    ensures Half(c) == c >> 1 && LastBit(c) == c & 1
  {
  }

  lemma XorIs(b: bv32)
    ensures XorBits(POLY, b) == 0xedb8_8320 ^ b
  {
  }

  /** One turn of the bit loop, in the source's terms (src/open.c:47). */
  lemma BitLaw(c: bv32)
    ensures Bits(c) == if c & 1 == 1 then 0xedb8_8320 ^ (c >> 1) else c >> 1
  {
    hide Bits, XorBits, Half, LastBit, POLY;
    OneTableStepBits(c);
    HalfIs(c);
    XorIs(Half(c));
  }

  lemma OneTableStep(c: Reg)
    ensures Shift(c) == TableStep(c)
  {
    hide Bits;
    BitLaw(c.v);
  }

  lemma SplitBits(c: bv32)
    ensures Bits8(c) == XorBits(Bits8(LowBits(c)), DownBits(c))
  {
    hide Bits8, XorBits, LowBits, DownBits, Upper;
    Halved(c);
    Bits8Xor(LowBits(c), Upper(c));
    HighBits(c);
  }

  lemma Split8(c: Reg)
    ensures Shift8(c) == Xor(Shift8(LowByte(c)), Down(c))
  {
    hide Bits, XorBits, LowBits, DownBits;
    SplitBits(c.v);
  }

  lemma DropByte(d: Reg, b: byte)
    ensures Down(Xor(d, Lane0(b))) == Down(d)
  {
  }

  /** The checksum is the one RFC 1952 specifies. */
  lemma ConformsToRfc1952(s: seq<byte>)
    ensures Crc32(s) == Xor(UpdateCrc(INIT, s), INIT)
  {
    ConformsRegister(INIT, s);
    Complement(Register(INIT, s));
  }

  lemma Complement(c: Reg)
    ensures Not(c) == Xor(c, INIT)
  {
  }

  lemma {:induction false} ConformsRegister(c: Reg, s: seq<byte>)
    ensures Register(c, s) == UpdateCrc(c, s)
  {
    hide Shift8, Shift, TableEntry, Shifts, Xor, Lane0, Down, LowByte;
    if s != [] {
      ConformsRegister(c, s[..|s| - 1]);
      var d := Register(c, s[..|s| - 1]);
      var x := Xor(d, Lane0(s[|s| - 1]));
      Split8(x);
      DropByte(d, s[|s| - 1]);
      TableIsShifts(LowByte(x), 8);
      EightShifts(LowByte(x));
    }
  }

  // --------------------------------------------------------- error detection

  lemma ShiftInjective(c: Reg, d: Reg)
    requires Shift(c) == Shift(d)
    ensures c == d
  {
    hide Bits;
    BitsInjective(c.v, d.v);
  }

  lemma BitsInjective(c: bv32, d: bv32)
    requires Bits(c) == Bits(d)
    ensures c == d
  {
  }

  lemma Shift8Injective(c: Reg, d: Reg)
    requires Shift8(c) == Shift8(d)
    ensures c == d
  {
    hide Shift;
    var c2, d2 := Shift(Shift(c)), Shift(Shift(d));
    var c4, d4 := Shift(Shift(c2)), Shift(Shift(d2));
    var c6, d6 := Shift(Shift(c4)), Shift(Shift(d4));
    ShiftInjective(Shift(c6), Shift(d6));
    ShiftInjective(c6, d6);
    ShiftInjective(Shift(c4), Shift(d4));
    ShiftInjective(c4, d4);
    ShiftInjective(Shift(c2), Shift(d2));
    ShiftInjective(c2, d2);
    ShiftInjective(Shift(c), Shift(d));
    ShiftInjective(c, d);
  }

  lemma XorCancel(c: Reg, d: Reg, x: Reg)
    ensures Xor(c, x) == Xor(d, x) ==> c == d
    ensures Xor(x, c) == Xor(x, d) ==> c == d
  {
  }

  /** A difference in the register survives every following byte. */
  lemma {:induction false} RegisterInjective(c: Reg, d: Reg, s: seq<byte>)
    requires Register(c, s) == Register(d, s)
    ensures c == d
  {
    hide Shift8, Xor, Lane0;
    if s != [] {
      var x := Lane0(s[|s| - 1]);
      Shift8Injective(Xor(Register(c, s[..|s| - 1]), x), Xor(Register(d, s[..|s| - 1]), x));
      XorCancel(Register(c, s[..|s| - 1]), Register(d, s[..|s| - 1]), x);
      RegisterInjective(c, d, s[..|s| - 1]);
    }
  }

  lemma {:induction false} RegisterAppend(c: Reg, a: seq<byte>, b: seq<byte>)
    ensures Register(c, a + b) == Register(Register(c, a), b)
  {
    hide Step;
    if b == [] {
      assert a + b == a;
    } else {
      assert (a + b)[..|a + b| - 1] == a + b[..|b| - 1];
      RegisterAppend(c, a, b[..|b| - 1]);
    }
  }

  /** Bits above the low byte only move down. */
  lemma HighBitsMove(d: Reg, w: Reg)
    requires LowByte(w) == Reg(0)
    ensures Shift8(Xor(d, w)) == Xor(Shift8(d), Down(w))
  {
    hide Shift8;
    Split8(Xor(d, w));
    Split8(d);
    XorParts(d, w, Shift8(LowByte(d)));
  }

  lemma XorParts(d: Reg, w: Reg, t: Reg)
    requires LowByte(w) == Reg(0)
    ensures LowByte(Xor(d, w)) == LowByte(d)
    ensures Xor(t, Down(Xor(d, w))) == Xor(Xor(t, Down(d)), Down(w))
  {
    hide XorBits, LowBits, DownBits;
    XorPartsBits(d.v, w.v, t.v);
  }

  lemma XorPartsBits(d: bv32, w: bv32, t: bv32)
    requires LowBits(w) == 0
    ensures LowBits(XorBits(d, w)) == LowBits(d)
    ensures XorBits(t, DownBits(XorBits(d, w))) == XorBits(XorBits(t, DownBits(d)), DownBits(w))
  {
    hide XorBits, LowBits, DownBits;
    XorLow(d, w);
    XorDown(d, w);
    XorGroups(t, DownBits(d), DownBits(w));
  }

  lemma XorLow(d: bv32, w: bv32)
    ensures LowBits(w) == 0 ==> LowBits(XorBits(d, w)) == LowBits(d)
  {
  }

  lemma XorDown(d: bv32, w: bv32)
    ensures DownBits(XorBits(d, w)) == XorBits(DownBits(d), DownBits(w))
  {
  }

  lemma XorGroups(a: bv32, b: bv32, c: bv32)
    ensures XorBits(a, XorBits(b, c)) == XorBits(XorBits(a, b), c)
  {
  }

  lemma LanesMove(b: byte)
    ensures LowByte(Lane1(b)) == LowByte(Lane2(b)) == LowByte(Lane3(b)) == Reg(0)
    ensures Down(Lane1(b)) == Lane0(b) && Down(Lane2(b)) == Lane1(b) && Down(Lane3(b)) == Lane2(b)
  {
  }

  function Word(a: byte, b: byte, d: byte, e: byte): Reg {
    Xor(Xor(Xor(Lane0(a), Lane1(b)), Lane2(d)), Lane3(e))
  }

  lemma WordSum(c: Reg, a: byte, b: byte, d: byte, e: byte)
    ensures Xor(Xor(Xor(Xor(c, Lane0(a)), Lane1(b)), Lane2(d)), Lane3(e)) == Xor(c, Word(a, b, d, e))
  {
    hide XorBits, LaneBits, Up8, Up16, Up24;
    WordSumBits(c.v, LaneBits(a), Up8(LaneBits(b)), Up16(LaneBits(d)), Up24(LaneBits(e)));
  }

  lemma WordSumBits(c: bv32, a: bv32, b: bv32, d: bv32, e: bv32)
    ensures XorBits(XorBits(XorBits(XorBits(c, a), b), d), e) == XorBits(c, XorBits(XorBits(XorBits(a, b), d), e))
  {
  }

  lemma WordInjective(a: byte, b: byte, d: byte, e: byte, a': byte, b': byte, d': byte, e': byte)
    requires Word(a, b, d, e) == Word(a', b', d', e')
    ensures a == a' && b == b' && d == d' && e == e'
  {
    hide XorBits, LaneBits, Up8, Up16, Up24;
    WordInjectiveBits(a, b, d, e, a', b', d', e');
  }

  lemma WordInjectiveBits(a: byte, b: byte, d: byte, e: byte, a': byte, b': byte, d': byte, e': byte)
    requires XorBits(XorBits(XorBits(LaneBits(a), Up8(LaneBits(b))), Up16(LaneBits(d))), Up24(LaneBits(e)))
          == XorBits(XorBits(XorBits(LaneBits(a'), Up8(LaneBits(b'))), Up16(LaneBits(d'))), Up24(LaneBits(e')))
    ensures a == a' && b == b' && d == d' && e == e'
  {
  }

  /** Four bytes fed one by one are one word fed at once. */
  lemma FourBytes(c: Reg, a: byte, b: byte, d: byte, e: byte)
    ensures Step(Step(Step(Step(c, a), b), d), e)
            == Shift8(Shift8(Shift8(Shift8(Xor(c, Word(a, b, d, e))))))
  {
    hide Shift8, Xor, Lane0, Lane1, Lane2, Lane3, LowByte, Down, Word;
    LanesMove(b);
    LanesMove(d);
    LanesMove(e);
    var u := Xor(c, Lane0(a));
    HighBitsMove(u, Lane1(b));
    var v := Xor(u, Lane1(b));
    HighBitsMove(Shift8(v), Lane1(d));
    HighBitsMove(v, Lane2(d));
    var w := Xor(v, Lane2(d));
    HighBitsMove(Shift8(Shift8(w)), Lane1(e));
    HighBitsMove(Shift8(w), Lane2(e));
    HighBitsMove(w, Lane3(e));
    WordSum(c, a, b, d, e);
  }

  lemma RegisterFour(c: Reg, x: seq<byte>)
    requires |x| == 4
    ensures Register(c, x) == Step(Step(Step(Step(c, x[0]), x[1]), x[2]), x[3])
  {
    hide Step;
    assert x[..3][..2] == x[..2] && x[..2][..1] == x[..1] && x[..1][..0] == [];
    assert Register(c, x[..1]) == Step(c, x[0]);
    assert Register(c, x[..2]) == Step(Register(c, x[..1]), x[1]);
    assert Register(c, x[..3]) == Step(Register(c, x[..2]), x[2]);
  }

  /** Four bytes determine what they do to the register. */
  lemma BurstInjective(c: Reg, x: seq<byte>, y: seq<byte>)
    requires |x| == |y| == 4 && Register(c, x) == Register(c, y)
    ensures x == y
  {
    hide Shift8, Xor, Word, Register, Step;
    RegisterFour(c, x);
    RegisterFour(c, y);
    FourBytes(c, x[0], x[1], x[2], x[3]);
    FourBytes(c, y[0], y[1], y[2], y[3]);
    var v, w := Xor(c, Word(x[0], x[1], x[2], x[3])), Xor(c, Word(y[0], y[1], y[2], y[3]));
    Shift8Injective(Shift8(Shift8(Shift8(v))), Shift8(Shift8(Shift8(w))));
    Shift8Injective(Shift8(Shift8(v)), Shift8(Shift8(w)));
    Shift8Injective(Shift8(v), Shift8(w));
    Shift8Injective(v, w);
    XorCancel(Word(x[0], x[1], x[2], x[3]), Word(y[0], y[1], y[2], y[3]), c);
    WordInjective(x[0], x[1], x[2], x[3], y[0], y[1], y[2], y[3]);
  }

  lemma NotInjective(c: Reg, d: Reg)
    ensures Not(c) == Not(d) ==> c == d
  {
  }

  /** A replaced stretch that changes the register it leads to changes the checksum. */
  lemma StretchDetected(a: seq<byte>, x: seq<byte>, y: seq<byte>, b: seq<byte>)
    ensures Crc32(a + x + b) == Crc32(a + y + b) ==>
              Register(Register(INIT, a), x) == Register(Register(INIT, a), y)
  {
    hide Register, Not;
    RegisterAppend(INIT, a + x, b);
    RegisterAppend(INIT, a + y, b);
    RegisterAppend(INIT, a, x);
    RegisterAppend(INIT, a, y);
    NotInjective(Register(INIT, a + x + b), Register(INIT, a + y + b));
    if Register(INIT, a + x + b) == Register(INIT, a + y + b) {
      RegisterInjective(Register(Register(INIT, a), x), Register(Register(INIT, a), y), b);
    }
  }

  /** Any damage confined to four consecutive bytes changes the checksum. */
  lemma BurstDetected(a: seq<byte>, x: seq<byte>, y: seq<byte>, b: seq<byte>)
    requires |x| == |y| == 4 && x != y
    ensures Crc32(a + x + b) != Crc32(a + y + b)
  {
    hide Register, Crc32;
    StretchDetected(a, x, y, b);
    if Register(Register(INIT, a), x) == Register(Register(INIT, a), y) {
      BurstInjective(Register(INIT, a), x, y);
    }
  }

  /** Any change to one byte changes the checksum. */
  lemma ByteDetected(s: seq<byte>, i: nat, v: byte)
    requires i < |s| && v != s[i]
    ensures Crc32(s[i := v]) != Crc32(s)
  {
    hide Register, Crc32;
    assert s == s[..i] + [s[i]] + s[i + 1..];
    assert s[i := v] == s[..i] + [v] + s[i + 1..];
    StretchDetected(s[..i], [s[i]], [v], s[i + 1..]);
    OneByte(Register(INIT, s[..i]), s[i], v);
  }

  lemma LaneInjective(a: byte, b: byte)
    ensures Lane0(a) == Lane0(b) ==> a == b
  {
  }

  lemma OneByte(d: Reg, a: byte, b: byte)
    ensures Register(d, [a]) == Register(d, [b]) ==> a == b
  {
    hide Shift8, Xor, Lane0;
    assert [a][..0] == [] && [b][..0] == [];
    assert Register(d, []) == d;
    assert Register(d, [a]) == Step(d, a);
    assert Register(d, [b]) == Step(d, b);
    LaneInjective(a, b);
    if Register(d, [a]) == Register(d, [b]) {
      Shift8Injective(Xor(d, Lane0(a)), Xor(d, Lane0(b)));
      XorCancel(Lane0(a), Lane0(b), d);
    }
  }

  // ------------------------------------------------------------- a known value

  lemma CheckByte1()
    ensures Bits8(XorBits(0xffff_ffff, LaneBits(0x31))) == 0x7c23_1048
  {
  }

  lemma CheckByte2()
    ensures Bits8(XorBits(0x7c23_1048, LaneBits(0x32))) == 0xb0ac_bb32
  {
  }

  lemma CheckByte3()
    ensures Bits8(XorBits(0xb0ac_bb32, LaneBits(0x33))) == 0x77b7_9c2d
  {
  }

  lemma CheckByte4()
    ensures Bits8(XorBits(0x77b7_9c2d, LaneBits(0x34))) == 0x641c_1f5c
  {
  }

  lemma CheckByte5()
    ensures Bits8(XorBits(0x641c_1f5c, LaneBits(0x35))) == 0x340a_c5e3
  {
  }

  lemma CheckByte6()
    ensures Bits8(XorBits(0x340a_c5e3, LaneBits(0x36))) == 0xf68d_2c9e
  {
  }

  lemma CheckByte7()
    ensures Bits8(XorBits(0xf68d_2c9e, LaneBits(0x37))) == 0xaffc_9660
  {
  }

  lemma CheckByte8()
    ensures Bits8(XorBits(0xaffc_9660, LaneBits(0x38))) == 0x651f_2550
  {
  }

  lemma CheckByte9()
    ensures Bits8(XorBits(0x651f_2550, LaneBits(0x39))) == 0x340b_c6d9
  {
  }

  lemma AfterByte(s: seq<byte>, b: byte, c: bv32, d: bv32)
    requires Register(INIT, s) == Reg(c) && Bits8(XorBits(c, LaneBits(b))) == d
    ensures Register(INIT, s + [b]) == Reg(d)
  {
    hide Bits, XorBits, LaneBits, Bits8;
    assert (s + [b])[..|s|] == s;
    assert Step(Reg(c), b) == Reg(Bits8(XorBits(c, LaneBits(b)))) by {
      StepBits(c, b);
    }
  }

  lemma StepBits(c: bv32, b: byte)
    ensures Step(Reg(c), b) == Reg(Bits8(XorBits(c, LaneBits(b))))
  {
    hide Bits, XorBits, LaneBits;
  }

  /** The check value of CRC-32: "123456789" gives 0xcbf43926. */
  lemma CheckValue()
    ensures Crc32([0x31, 0x32, 0x33, 0x34, 0x35, 0x36, 0x37, 0x38, 0x39]) == Reg(0xcbf4_3926)
  {
    hide Register, Bits8, XorBits, LaneBits;
    var s: seq<byte> := [0x31, 0x32, 0x33, 0x34, 0x35, 0x36, 0x37, 0x38, 0x39];
    NothingYet();
    CheckByte1();
    AfterByte(s[..0], 0x31, 0xffff_ffff, 0x7c23_1048);
    assert s[..0] + [0x31] == s[..1];
    CheckByte2();
    AfterByte(s[..1], 0x32, 0x7c23_1048, 0xb0ac_bb32);
    assert s[..1] + [0x32] == s[..2];
    CheckByte3();
    AfterByte(s[..2], 0x33, 0xb0ac_bb32, 0x77b7_9c2d);
    assert s[..2] + [0x33] == s[..3];
    CheckByte4();
    AfterByte(s[..3], 0x34, 0x77b7_9c2d, 0x641c_1f5c);
    assert s[..3] + [0x34] == s[..4];
    CheckByte5();
    AfterByte(s[..4], 0x35, 0x641c_1f5c, 0x340a_c5e3);
    assert s[..4] + [0x35] == s[..5];
    CheckByte6();
    AfterByte(s[..5], 0x36, 0x340a_c5e3, 0xf68d_2c9e);
    assert s[..5] + [0x36] == s[..6];
    CheckByte7();
    AfterByte(s[..6], 0x37, 0xf68d_2c9e, 0xaffc_9660);
    assert s[..6] + [0x37] == s[..7];
    CheckByte8();
    AfterByte(s[..7], 0x38, 0xaffc_9660, 0x651f_2550);
    assert s[..7] + [0x38] == s[..8];
    CheckByte9();
    AfterByte(s[..8], 0x39, 0x651f_2550, 0x340b_c6d9);
    assert s[..8] + [0x39] == s[..9];
    assert s[..9] == s;
  }

  lemma NothingYet()
    ensures forall s: seq<byte> | |s| == 0 :: Register(INIT, s) == Reg(0xffff_ffff)
  {
  }
}
