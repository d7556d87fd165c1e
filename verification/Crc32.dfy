/** The reflected CRC-32 that protects GPT headers (section 5.3.2 of the UEFI Specification). */
module Crc32 {

  const POLY: bv32 := 0xEDB8_8320

  function Xor(a: bv32, b: bv32): bv32 { a ^ b }

  function Half(a: bv32): bv32 { a >> 1 }

  predicate Odd(a: bv32) { a & 1 != 0 }

  function Widen(x: bv8): bv32 { x as bv32 }

  /** One bit of polynomial division. */
  function Shift(c: bv32): bv32 { if Odd(c) then Xor(Half(c), POLY) else Half(c) }

  function Shifts(c: bv32, n: nat): bv32 { if n == 0 then c else Shift(Shifts(c, n - 1)) }

  function Step(c: bv32, x: bv8): bv32 { Shifts(Xor(c, Widen(x)), 8) }

  /** The register after `data`. */
  function Register(c: bv32, data: seq<bv8>): bv32
    decreases data
  {
    if data == [] then c else Register(Step(c, data[0]), data[1..])
  }

  function Complement(c: bv32): bv32 { !c }

  const ONES: bv32 := 0xFFFF_FFFF

  function Crc(data: seq<bv8>): bv32 { Complement(Register(ONES, data)) }

  /** The loop over bytes and bits. */
  method ComputeCrc(data: seq<bv8>) returns (r: bv32)
    ensures r == Crc(data)
  {
    hide Half, Xor, Odd, Widen, Complement;
    var crc := ONES;
    var i := 0;
    while i < |data|
      invariant i <= |data| && Register(crc, data[i..]) == Register(ONES, data)
    {
      ghost var before := crc;
      crc := Xor(crc, Widen(data[i]));
      ghost var start := crc;
      var k := 0;
      while k < 8
        invariant k <= 8 && crc == Shifts(start, k)
      {
        if Odd(crc) {
          crc := Xor(Half(crc), POLY);
        } else {
          crc := Half(crc);
        }
        k := k + 1;
      }
      assert crc == Step(before, data[i]);
      assert data[i..][1..] == data[i + 1..];
      i := i + 1;
    }
    r := Complement(crc);
  }

  // ---- words ----

  lemma XorCancels(a: bv32, b: bv32, x: bv32)
    requires Xor(a, x) == Xor(b, x)
    ensures a == b
  {
  }

  lemma XorAssoc(a: bv32, b: bv32, c: bv32)
    ensures Xor(a, Xor(b, c)) == Xor(Xor(a, b), c)
  {
  }

  lemma XorComm(a: bv32, b: bv32)
    ensures Xor(a, b) == Xor(b, a)
  {
  }

  lemma XorSelf(a: bv32, c: bv32)
    ensures Xor(a, Xor(c, c)) == a
  {
  }

  lemma XorSwap(a: bv32, b: bv32, c: bv32)
    ensures Xor(Xor(a, b), c) == Xor(Xor(a, c), b)
  {
    hide Xor;
    XorAssoc(a, b, c);
    XorComm(b, c);
    XorAssoc(a, c, b);
  }

  lemma XorTwice(a: bv32, b: bv32, c: bv32)
    ensures Xor(Xor(a, c), Xor(b, c)) == Xor(a, b)
  {
    hide Xor;
    XorComm(b, c);
    XorAssoc(Xor(a, c), c, b);
    XorAssoc(a, c, c);
    XorSelf(a, c);
  }

  lemma HalfXor(a: bv32, b: bv32)
    ensures Half(Xor(a, b)) == Xor(Half(a), Half(b))
  {
  }

  lemma OddXor(a: bv32, b: bv32)
    ensures Odd(Xor(a, b)) <==> Odd(a) != Odd(b)
  {
  }

  // ---- every step is injective ----

  lemma ShiftInjective(a: bv32, b: bv32)
    requires Shift(a) == Shift(b)
    ensures a == b
  {
  }

  lemma {:induction false} ShiftsInjective(a: bv32, b: bv32, n: nat)
    requires Shifts(a, n) == Shifts(b, n)
    ensures a == b
  {
    hide Shift;
    if n > 0 {
      ShiftInjective(Shifts(a, n - 1), Shifts(b, n - 1));
      ShiftsInjective(a, b, n - 1);
    }
  }

  lemma StepInjective(a: bv32, b: bv32, x: bv8)
    requires Step(a, x) == Step(b, x)
    ensures a == b
  {
    hide Shift, Shifts, Xor, Widen;
    ShiftsInjective(Xor(a, Widen(x)), Xor(b, Widen(x)), 8);
    XorCancels(a, b, Widen(x));
  }

  lemma {:induction false} RegisterInjective(a: bv32, b: bv32, data: seq<bv8>)
    requires Register(a, data) == Register(b, data)
    ensures a == b
    decreases data
  {
    hide Step;
    if data != [] {
      RegisterInjective(Step(a, data[0]), Step(b, data[0]), data[1..]);
      StepInjective(a, b, data[0]);
    }
  }

  lemma {:induction false} RegisterJoin(c: bv32, a: seq<bv8>, b: seq<bv8>)
    ensures Register(c, a + b) == Register(Register(c, a), b)
    decreases a
  {
    hide Step;
    if a == [] {
      assert a + b == b;
    } else {
      RegisterJoin(Step(c, a[0]), a[1..], b);
      assert (a + b)[1..] == a[1..] + b;
    }
  }

  // ---- four bytes act as one 32-bit word ----

  lemma ShiftLinear(a: bv32, b: bv32)
    ensures Shift(Xor(a, b)) == Xor(Shift(a), Shift(b))
  {
    hide Xor, Half, Odd;
    HalfXor(a, b);
    OddXor(a, b);
    XorTwice(Half(a), Half(b), POLY);
    XorSwap(Half(a), Half(b), POLY);
    XorAssoc(Half(a), Half(b), POLY);
  }

  lemma {:induction false} ShiftsLinear(a: bv32, b: bv32, n: nat)
    ensures Shifts(Xor(a, b), n) == Xor(Shifts(a, n), Shifts(b, n))
  {
    hide Shift, Xor;
    if n > 0 {
      ShiftsLinear(a, b, n - 1);
      ShiftLinear(Shifts(a, n - 1), Shifts(b, n - 1));
    }
  }

  /** `k` bits up. */
  function Left(y: bv32, k: nat): bv32 { if k == 0 then y else Double(Left(y, k - 1)) }

  function Double(y: bv32): bv32 { y << 1 }

  /** The upper `k` bits of `y` are zero. */
  predicate Spare(y: bv32, k: nat)
    decreases k
  {
    k == 0 || (TopClear(y) && Spare(Double(y), k - 1))
  }

  predicate TopClear(y: bv32) { y & 0x8000_0000 == 0 }

  lemma ShiftOfDouble(y: bv32)
    requires TopClear(y)
    ensures Shift(Double(y)) == y
  {
  }

  lemma {:induction false} LeftFromInside(y: bv32, k: nat)
    ensures Left(y, k + 1) == Left(Double(y), k)
    decreases k
  {
    hide Double;
    if k > 0 {
      LeftFromInside(y, k - 1);
    }
  }

  /** Shifts undo a move up, when nothing is lost at the top. */
  lemma {:induction false} ShiftsUndoLeft(y: bv32, k: nat)
    requires Spare(y, k)
    ensures Shifts(Left(y, k), k) == y
    decreases k
  {
    hide Shift, Double, TopClear;
    if k > 0 {
      LeftFromInside(y, k - 1);
      ShiftsUndoLeft(Double(y), k - 1);
      ShiftOfDouble(y);
    }
  }

  /** A later byte can be taken in one step earlier, one byte higher. */
  lemma Absorb(a: bv32, y: bv32)
    requires Spare(y, 8)
    ensures Xor(Shifts(a, 8), y) == Shifts(Xor(a, Left(y, 8)), 8)
  {
    hide Shift, Shifts, Xor, Left;
    ShiftsUndoLeft(y, 8);
    ShiftsLinear(a, Left(y, 8), 8);
  }

  lemma DoubleXor(a: bv32, b: bv32)
    ensures Double(Xor(a, b)) == Xor(Double(a), Double(b)) && (TopClear(a) && TopClear(b) ==> TopClear(Xor(a, b)))
  {
  }

  lemma {:induction false} SpareXor(a: bv32, b: bv32, k: nat)
    requires Spare(a, k) && Spare(b, k)
    ensures Spare(Xor(a, b), k)
    decreases k
  {
    hide Double, TopClear, Xor;
    if k > 0 {
      DoubleXor(a, b);
      SpareXor(Double(a), Double(b), k - 1);
    }
  }

  lemma {:induction false} SpareLeft(y: bv32, j: nat, k: nat)
    requires Spare(y, j + k)
    ensures Spare(Left(y, j), k) && Spare(y, k)
    decreases j + k
  {
    hide Double, TopClear;
    if j > 0 {
      LeftFromInside(y, j - 1);
      SpareLeft(Double(y), j - 1, k);
    }
    if k > 0 {
      SpareLeft(Double(y), j, k - 1);
    }
  }

  /** The mask of the upper `k` bits. */
  function TopMask(k: nat): bv32 { if k == 0 then 0 else 0x8000_0000 | (TopMask(k - 1) >> 1) }

  lemma MaskedDouble(y: bv32, t: bv32)
    requires y & (0x8000_0000 | (t >> 1)) == 0
    ensures TopClear(y) && Double(y) & t == 0
  {
  }

  lemma {:induction false} SpareIfMasked(y: bv32, k: nat)
    requires y & TopMask(k) == 0
    ensures Spare(y, k)
    decreases k
  {
    hide Double, TopClear;
    if k > 0 {
      MaskedDouble(y, TopMask(k - 1));
      SpareIfMasked(Double(y), k - 1);
    }
  }

  lemma SpareByte(x: bv8)
    ensures Spare(Widen(x), 24)
  {
    hide Spare;
    assert TopMask(8) == 0xFF00_0000;
    assert TopMask(16) == 0xFFFF_0000;
    assert TopMask(24) == 0xFFFF_FF00;
    WidenMasked(x);
    SpareIfMasked(Widen(x), 24);
  }

  lemma WidenMasked(x: bv8)
    ensures Widen(x) & 0xFFFF_FF00 == 0
  {
  }

  /** Byte `x` below the bytes in `y`. */
  function Below(x: bv8, y: bv32): bv32 { Xor(Widen(x), Left(y, 8)) }

  lemma BelowSpare(x: bv8, y: bv32, k: nat)
    requires k <= 24 && Spare(y, k + 8)
    ensures Spare(Below(x, y), k)
  {
    hide Spare, Xor, Widen, Left;
    SpareByte(x);
    SpareLeft(Widen(x), 24 - k, k);
    SpareLeft(y, 8, k);
    SpareXor(Widen(x), Left(y, 8), k);
  }

  lemma {:induction false} LowBits(y: bv32, k: nat, m: bv32)
    requires m == Ones(k)
    ensures Left(y, k) & m == 0
    decreases k
  {
    hide Double;
    if k > 0 {
      LowBits(y, k - 1, Ones(k - 1));
      LowStep(Left(y, k - 1), Ones(k - 1));
    }
  }

  function Ones(k: nat): bv32 { if k == 0 then 0 else (Ones(k - 1) << 1) | 1 }

  lemma LowStep(y: bv32, m: bv32)
    requires y & m == 0
    ensures Double(y) & ((m << 1) | 1) == 0
  {
  }

  lemma LowByteKept(x: bv8, x': bv8, y: bv32, y': bv32)
    requires y & 0xFF == 0 && y' & 0xFF == 0 && Xor(Widen(x), y) == Xor(Widen(x'), y')
    ensures x == x'
  {
  }

  /** Nothing is lost: the byte and the bytes above it can be told apart. */
  lemma BelowInjective(x: bv8, x': bv8, y: bv32, y': bv32)
    requires Spare(y, 8) && Spare(y', 8) && Below(x, y) == Below(x', y')
    ensures x == x' && y == y'
  {
    hide Spare, Xor, Widen, Left, Ones, Shifts;
    OnesAre();
    LowBits(y, 8, 0xFF);
    LowBits(y', 8, 0xFF);
    LowByteKept(x, x', Left(y, 8), Left(y', 8));
    XorComm(Widen(x), Left(y, 8));
    XorComm(Widen(x'), Left(y', 8));
    XorCancels(Left(y, 8), Left(y', 8), Widen(x));
    ShiftsUndoLeft(y, 8);
    ShiftsUndoLeft(y', 8);
  }

  lemma OnesAre()
    ensures Ones(8) == 0xFF
  {
    assert Ones(4) == 0xF;
  }

  /** Up to four bytes as one word, the first lowest. */
  function Word(xs: seq<bv8>): bv32 { if xs == [] then 0 else Below(xs[0], Word(xs[1..])) }

  function LowByte(w: bv32): bv32 { w & 0xFF }

  function Down(w: bv32): bv32 { w >> 8 }

  function Up(w: bv32): bv32 { w << 8 }

  predicate OneByteLong(y: bv32) { y & 0xFFFF_FF00 == 0 }

  predicate TwoBytesLong(y: bv32) { y & 0xFFFF_0000 == 0 }

  predicate ThreeBytesLong(y: bv32) { y & 0xFF00_0000 == 0 }

  /** The bytes of a word are its bits in groups of eight, lowest first. */
  lemma WordOfFour(a: bv8, b: bv8, c: bv8, d: bv8, w: bv32)
    ensures Word([a, b, c, d]) == w
       <==> && Widen(a) == LowByte(w) && Widen(b) == LowByte(w >> 8)
            && Widen(c) == LowByte(w >> 16) && Widen(d) == LowByte(w >> 24)
  {
    hide Widen, Below, LowByte, Down, Up, OneByteLong, TwoBytesLong, ThreeBytesLong;
    assert [a, b, c, d][1..] == [b, c, d] && [b, c, d][1..] == [c, d] && [c, d][1..] == [d] && [d][1..] == [];
    var y1, y2, y3 := Word([d]), Word([c, d]), Word([b, c, d]);
    assert Word([]) == 0 && y1 == Below(d, 0) && y2 == Below(c, y1) && y3 == Below(b, y2);
    assert Word([a, b, c, d]) == Below(a, y3);
    OneByte(d);
    Lengths(c, y1);
    Lengths(b, y2);
    Lengths(b, y1);
    Peeled(a, y3, w);
    Peeled(b, y2, Down(w));
    Peeled(c, y1, Down(Down(w)));
    Again(w);
  }

  lemma LeftEight(y: bv32)
    ensures Left(y, 8) == Up(y)
  {
    assert Left(y, 4) == Double(Double(Double(Double(y)))) by {
      hide Double;
      assert Left(y, 0) == y && Left(y, 1) == Double(y) && Left(y, 2) == Double(Double(y));
    }
    assert Left(y, 8) == Double(Double(Double(Double(Left(y, 4))))) by {
      hide Double;
      assert Left(y, 6) == Double(Double(Left(y, 4)));
    }
  }

  lemma OneByte(d: bv8)
    ensures Below(d, 0) == Widen(d) && OneByteLong(Widen(d))
  {
    LeftEight(0);
  }

  lemma Lengths(x: bv8, y: bv32)
    ensures OneByteLong(y) ==> TwoBytesLong(Below(x, y)) && ThreeBytesLong(y)
    ensures TwoBytesLong(y) ==> ThreeBytesLong(Below(x, y)) && ThreeBytesLong(y)
  {
    LeftEight(y);
  }

  /** The lowest byte taken off. */
  lemma Peeled(x: bv8, y: bv32, w: bv32)
    requires ThreeBytesLong(y)
    ensures Below(x, y) == w <==> Widen(x) == LowByte(w) && y == Down(w)
  {
    hide Left, Widen, Xor, LowByte, Down, Up, ThreeBytesLong, OneByteLong;
    LeftEight(y);
    OneByte(x);
    SplitByte(Widen(x), y, w);
  }

  lemma SplitByte(x: bv32, y: bv32, w: bv32)
    requires OneByteLong(x) && ThreeBytesLong(y)
    ensures Xor(x, Up(y)) == w <==> x == LowByte(w) && y == Down(w)
  {
    hide Xor, Up, LowByte, Down, OneByteLong, ThreeBytesLong;
    Parts(x, y);
    Whole(w);
  }

  lemma Parts(x: bv32, y: bv32)
    requires OneByteLong(x) && ThreeBytesLong(y)
    ensures LowByte(Xor(x, Up(y))) == x && Down(Xor(x, Up(y))) == y
  {
  }

  lemma Whole(w: bv32)
    ensures Xor(LowByte(w), Up(Down(w))) == w
  {
  }

  lemma Again(w: bv32)
    ensures LowByte(w >> 8) == LowByte(Down(w)) && LowByte(w >> 16) == LowByte(Down(Down(w)))
    ensures LowByte(w >> 24) == Down(Down(Down(w)))
  {
  }

  lemma {:induction false} WordSpare(xs: seq<bv8>)
    requires |xs| <= 4
    ensures Spare(Word(xs), 32 - 8 * |xs|)
  {
    hide Spare, Below;
    if xs == [] {
      ZeroMasked(TopMask(32));
      SpareIfMasked(0, 32);
    } else {
      WordSpare(xs[1..]);
      BelowSpare(xs[0], Word(xs[1..]), 32 - 8 * |xs|);
    }
  }

  lemma ZeroMasked(m: bv32)
    ensures 0 & m == 0
  {
  }

  /** `n` bytes' worth of shifts. */
  function Eights(c: bv32, n: nat): bv32
    decreases n
  {
    if n == 0 then c else Eights(Shifts(c, 8), n - 1)
  }

  lemma {:induction false} EightsInjective(a: bv32, b: bv32, n: nat)
    requires Eights(a, n) == Eights(b, n)
    ensures a == b
    decreases n
  {
    hide Shifts;
    if n > 0 {
      EightsInjective(Shifts(a, 8), Shifts(b, 8), n - 1);
      ShiftsInjective(a, b, 8);
    }
  }

  /** Up to four bytes can be taken in at once, before all of their shifts. */
  lemma {:induction false} RegisterOfWord(c: bv32, xs: seq<bv8>)
    requires |xs| <= 4
    ensures Register(c, xs) == Eights(Xor(c, Word(xs)), |xs|)
    decreases xs
  {
    hide Shifts, Xor, Widen, Left, Spare;
    if xs == [] {
      XorZero(c);
    } else {
      var w := Word(xs[1..]);
      var c' := Xor(c, Widen(xs[0]));
      RegisterOfWord(Shifts(c', 8), xs[1..]);
      WordSpare(xs[1..]);
      SpareLeft(w, 24 - 8 * |xs[1..]|, 8);
      Absorb(c', w);
      XorAssoc(c, Widen(xs[0]), Left(w, 8));
    }
  }

  lemma XorZero(c: bv32)
    ensures Xor(c, 0) == c
  {
  }

  lemma {:induction false} WordInjective(xs: seq<bv8>, ys: seq<bv8>)
    requires |xs| == |ys| <= 4 && Word(xs) == Word(ys)
    ensures xs == ys
  {
    hide Spare, Below;
    if xs != [] {
      WordSpare(xs[1..]);
      WordSpare(ys[1..]);
      SpareLeft(Word(xs[1..]), 24 - 8 * |xs[1..]|, 8);
      SpareLeft(Word(ys[1..]), 24 - 8 * |ys[1..]|, 8);
      BelowInjective(xs[0], ys[0], Word(xs[1..]), Word(ys[1..]));
      WordInjective(xs[1..], ys[1..]);
      assert xs == [xs[0]] + xs[1..] && ys == [ys[0]] + ys[1..];
    }
  }

  /** No change confined to four consecutive bytes goes unnoticed, in data of any length. */
  lemma BurstDetected(before: seq<bv8>, xs: seq<bv8>, ys: seq<bv8>, after: seq<bv8>)
    requires |xs| == |ys| <= 4 && Crc(before + xs + after) == Crc(before + ys + after)
    ensures xs == ys
  {
    hide Register, Xor, Complement;
    var c := Register(ONES, before);
    RegisterSplit(ONES, before, xs, after);
    RegisterSplit(ONES, before, ys, after);
    ComplementInjective(Register(Register(c, xs), after), Register(Register(c, ys), after));
    RegisterInjective(Register(c, xs), Register(c, ys), after);
    RegisterOfWord(c, xs);
    RegisterOfWord(c, ys);
    EightsInjective(Xor(c, Word(xs)), Xor(c, Word(ys)), |xs|);
    XorComm(c, Word(xs));
    XorComm(c, Word(ys));
    XorCancels(Word(xs), Word(ys), c);
    WordInjective(xs, ys);
  }

  lemma RegisterSplit(c: bv32, before: seq<bv8>, xs: seq<bv8>, after: seq<bv8>)
    ensures Register(c, before + xs + after) == Register(Register(Register(c, before), xs), after)
  {
    hide Register;
    RegisterJoin(c, before + xs, after);
    RegisterJoin(c, before, xs);
  }

  lemma ComplementInjective(a: bv32, b: bv32)
    requires Complement(a) == Complement(b)
    ensures a == b
  {
  }
}
