/** The CRC-32 as a remainder: polynomials over the two-element field, and the division by
    x^32 + x^26 + x^23 + x^22 + x^16 + x^12 + x^11 + x^10 + x^8 + x^7 + x^5 + x^4 + x^2 + x + 1. */
module CrcRemainder {
  import opened Crc32

  /** A polynomial is the set of the exponents whose coefficient is 1. */
  type Poly = set<nat>

  function Generator(): Poly { {32, 26, 23, 22, 16, 12, 11, 10, 8, 7, 5, 4, 2, 1, 0} }

  // ---- sums, products, remainders ----

  function Add(p: Poly, q: Poly): Poly { (p - q) + (q - p) }

  /** The product with the `k`th power of x. */
  function Raise(p: Poly, k: nat): Poly { set e | e in p :: e + k }

  /** The ways to make x^e out of a term of `p` and a term of `q`. */
  function Ways(p: Poly, q: Poly, e: nat): Poly { set d | d in p && d <= e && e - d in q }

  function Mul(p: Poly, q: Poly): Poly { set d, k | d in p && k in q && |Ways(p, q, d + k)| % 2 == 1 :: d + k }

  /** `r` is `p` modulo the generator. */
  ghost predicate Remainder(p: Poly, r: Poly) { Congruent(p, r) && forall e | e in r :: e < 32 }

  ghost predicate Congruent(p: Poly, r: Poly) { exists q: Poly :: Add(p, r) == Mul(Generator(), q) }

  lemma RaiseHas(p: Poly, k: nat, e: nat)
    ensures e in Raise(p, k) <==> e >= k && e - k in p
  {
    if e >= k && e - k in p {
      assert (e - k) + k in Raise(p, k);
    }
  }

  lemma MulHas(p: Poly, q: Poly, e: nat)
    ensures e in Mul(p, q) <==> |Ways(p, q, e)| % 2 == 1
  {
    if |Ways(p, q, e)| % 2 == 1 {
      assert Ways(p, q, e) != {};
      var d :| d in Ways(p, q, e);
      assert d + (e - d) in Mul(p, q);
    }
  }

  lemma AddSize(p: Poly, q: Poly)
    ensures |Add(p, q)| % 2 == (|p| + |q|) % 2
  {
    assert p == (p - q) + p * q && q == (q - p) + p * q;
    assert |p| == |p - q| + |p * q| && |q| == |q - p| + |p * q|;
    assert |Add(p, q)| == |p - q| + |q - p|;
  }

  lemma WaysAdd(p: Poly, q: Poly, r: Poly, e: nat)
    ensures |Ways(p, Add(q, r), e)| % 2 == (|Ways(p, q, e)| + |Ways(p, r, e)|) % 2
  {
    assert Ways(p, Add(q, r), e) == Add(Ways(p, q, e), Ways(p, r, e));
    AddSize(Ways(p, q, e), Ways(p, r, e));
  }

  lemma MulAdd(p: Poly, q: Poly, r: Poly)
    ensures Mul(p, Add(q, r)) == Add(Mul(p, q), Mul(p, r))
  {
    hide Mul, Ways;
    forall e: nat ensures e in Mul(p, Add(q, r)) <==> (e in Mul(p, q)) != (e in Mul(p, r)) {
      MulHas(p, q, e);
      MulHas(p, r, e);
      MulHas(p, Add(q, r), e);
      WaysAdd(p, q, r, e);
    }
  }

  lemma WaysRaise(p: Poly, q: Poly, k: nat, e: nat)
    ensures Ways(p, Raise(q, k), e) == if e >= k then Ways(p, q, e - k) else {}
  {
    hide Raise;
    forall d | d in p && d <= e ensures e - d in Raise(q, k) <==> e - d >= k && e - d - k in q {
      RaiseHas(q, k, e - d);
    }
  }

  lemma MulRaise(p: Poly, q: Poly, k: nat)
    ensures Mul(p, Raise(q, k)) == Raise(Mul(p, q), k)
  {
    hide Mul, Raise, Ways;
    forall e: nat ensures e in Mul(p, Raise(q, k)) <==> e in Raise(Mul(p, q), k) {
      MulHas(p, Raise(q, k), e);
      RaiseHas(Mul(p, q), k, e);
      WaysRaise(p, q, k, e);
      if e >= k {
        MulHas(p, q, e - k);
      }
    }
  }

  lemma MulOne(p: Poly)
    ensures Mul(p, {0}) == p
  {
    hide Mul;
    forall e: nat ensures e in Mul(p, {0}) <==> e in p {
      MulHas(p, {0}, e);
      assert Ways(p, {0}, e) == if e in p then {e} else {};
    }
  }

  lemma MulNone(p: Poly)
    ensures Mul(p, {}) == {}
  {
  }

  lemma CongruentSelf(p: Poly)
    ensures Congruent(p, p)
  {
    hide Mul, Generator;
    MulNone(Generator());
    assert Add(p, p) == Mul(Generator(), {});
  }

  lemma CongruentTrans(p: Poly, q: Poly, r: Poly)
    requires Congruent(p, q) && Congruent(q, r)
    ensures Congruent(p, r)
  {
    hide Mul, Generator;
    var m :| Add(p, q) == Mul(Generator(), m);
    var n :| Add(q, r) == Mul(Generator(), n);
    MulAdd(Generator(), m, n);
    assert Add(p, r) == Add(Add(p, q), Add(q, r));
  }

  lemma CongruentRaise(p: Poly, q: Poly, k: nat)
    requires Congruent(p, q)
    ensures Congruent(Raise(p, k), Raise(q, k))
  {
    hide Mul, Generator, Raise;
    var m :| Add(p, q) == Mul(Generator(), m);
    MulRaise(Generator(), m, k);
    RaiseAdd(p, q, k);
    assert Add(Raise(p, k), Raise(q, k)) == Mul(Generator(), Raise(m, k));
  }

  lemma RaiseAdd(p: Poly, q: Poly, k: nat)
    ensures Raise(Add(p, q), k) == Add(Raise(p, k), Raise(q, k))
  {
    hide Raise;
    forall e: nat ensures e in Raise(Add(p, q), k) <==> e in Add(Raise(p, k), Raise(q, k)) {
      RaiseHas(p, k, e);
      RaiseHas(q, k, e);
      RaiseHas(Add(p, q), k, e);
    }
  }

  lemma RaiseRaise(p: Poly, j: nat, k: nat)
    ensures Raise(Raise(p, j), k) == Raise(p, j + k) && Raise(p, 0) == p
  {
    hide Raise;
    forall e: nat ensures e in Raise(Raise(p, j), k) <==> e in Raise(p, j + k) {
      RaiseHas(p, j + k, e);
      RaiseHas(Raise(p, j), k, e);
      if e >= k {
        RaiseHas(p, j, e - k);
      }
    }
    forall e: nat ensures e in Raise(p, 0) <==> e in p {
      RaiseHas(p, 0, e);
    }
  }

  lemma CongruentAdd(p: Poly, q: Poly, r: Poly)
    requires Congruent(p, q)
    ensures Congruent(Add(p, r), Add(q, r))
  {
    assert Add(Add(p, r), Add(q, r)) == Add(p, q);
  }

  /** There is only one remainder. */
  lemma RemainderUnique(p: Poly, r: Poly, s: Poly)
    requires Remainder(p, r) && Remainder(p, s)
    ensures r == s
  {
    hide Mul, Generator;
    assert Add(r, p) == Add(p, r);
    assert Congruent(r, p);
    CongruentTrans(r, p, s);
    var q :| Add(r, s) == Mul(Generator(), q);
    if q != {} {
      var m := Top(q);
      TopTerm(q, m);
      assert false;
    }
    MulNone(Generator());
    assert Add(r, s) == {};
  }

  /** A multiple of the generator has a term of degree 32 or more. */
  lemma TopTerm(q: Poly, m: nat)
    requires m in q && forall e | e in q :: e <= m
    ensures m + 32 in Mul(Generator(), q)
  {
    hide Mul;
    MulHas(Generator(), q, m + 32);
    assert Ways(Generator(), q, m + 32) == {32};
  }

  lemma {:induction false} Top(q: Poly) returns (m: nat)
    requires q != {}
    ensures m in q && forall e | e in q :: e <= m
    decreases |q|
  {
    var some :| some in q;
    var rest := q - {some};
    assert q == rest + {some};
    m := some;
    if rest != {} {
      var n := Top(rest);
      m := if n > some then n else some;
    }
  }

  // ---- registers ----

  predicate BitAt(c: bv32, i: nat) { if i == 0 then Odd(c) else BitAt(Half(c), i - 1) }

  /** The register as a polynomial: its lowest bit is the coefficient of x^31. */
  function Of(c: bv32): Poly { set e | 0 <= e < 32 && Term(c, e) }

  predicate Term(c: bv32, e: int) { 0 <= e < 32 && BitAt(c, 31 - e) }

  lemma {:induction false} XorBits(a: bv32, b: bv32, i: nat)
    ensures BitAt(Xor(a, b), i) <==> BitAt(a, i) != BitAt(b, i)
    decreases i
  {
    hide Xor, Half, Odd;
    if i == 0 {
      OddXor(a, b);
    } else {
      HalfXor(a, b);
      XorBits(Half(a), Half(b), i - 1);
    }
  }

  lemma XorOf(a: bv32, b: bv32)
    ensures Of(Xor(a, b)) == Add(Of(a), Of(b))
  {
    hide BitAt, Xor;
    forall e: nat | e < 32 ensures Term(Xor(a, b), e) <==> Term(a, e) != Term(b, e) {
      XorBits(a, b, 31 - e);
    }
  }

  lemma {:induction false} ZeroBits(i: nat)
    ensures !BitAt(0, i)
  {
    if i > 0 {
      assert Half(0) == 0;
      ZeroBits(i - 1);
    }
  }

  function Halves(c: bv32, n: nat): bv32
    decreases n
  {
    if n == 0 then c else Halves(Half(c), n - 1)
  }

  lemma {:induction false} HalvesBits(c: bv32, n: nat, i: nat)
    ensures BitAt(c, n + i) == BitAt(Halves(c, n), i)
    decreases n
  {
    hide Half, Odd;
    if n > 0 {
      HalvesBits(Half(c), n - 1, i);
    }
  }

  function Quarter(c: bv32): bv32 { c >> 4 }

  function Quarters(c: bv32, n: nat): bv32
    decreases n
  {
    if n == 0 then c else Quarters(Quarter(c), n - 1)
  }

  lemma FourHalves(c: bv32)
    ensures Half(Half(Half(Half(c)))) == Quarter(c)
  {
  }

  lemma {:induction false} HalvesQuarters(c: bv32, n: nat)
    ensures Halves(c, 4 * n) == Quarters(c, n)
    decreases n
  {
    hide Half, Quarter;
    if n > 0 {
      HalvesQuarters(Quarter(c), n - 1);
      FourHalves(c);
      assert Halves(c, 4 * n) == Halves(Half(c), 4 * n - 1) == Halves(Half(Half(c)), 4 * n - 2);
      assert Halves(Half(Half(c)), 4 * n - 2) == Halves(Half(Half(Half(c))), 4 * n - 3);
    }
  }

  lemma EightQuarters(c: bv32)
    ensures Quarters(c, 8) == 0
  {
    var d := Quarter(Quarter(Quarter(Quarter(c))));
    assert Quarters(c, 8) == Quarters(Quarter(c), 7) == Quarters(Quarter(Quarter(c)), 6);
    assert Quarters(Quarter(Quarter(c)), 6) == Quarters(Quarter(Quarter(Quarter(c))), 5) == Quarters(d, 4);
    assert Quarters(d, 4) == Quarters(Quarter(d), 3) == Quarters(Quarter(Quarter(d)), 2);
    Sixteen(c);
    Sixteen(d);
  }

  lemma Sixteen(c: bv32)
    ensures Quarter(Quarter(Quarter(Quarter(c)))) == c >> 16
  {
  }

  lemma NoBit32(c: bv32)
    ensures !BitAt(c, 32)
  {
    hide Half, Odd, Quarter;
    HalvesQuarters(c, 8);
    EightQuarters(c);
    HalvesBits(c, 32, 0);
    ZeroBits(0);
  }

  /** Halving a register multiplies by x, but for x^32. */
  lemma HalfOf(c: bv32)
    ensures Of(Half(c)) == Raise(Of(c), 1) - {32} && (32 in Raise(Of(c), 1) <==> Odd(c))
  {
    hide Half, Odd, Raise;
    forall e: nat ensures e in Of(Half(c)) <==> e in Raise(Of(c), 1) && e != 32 {
      RaiseHas(Of(c), 1, e);
      if e == 0 {
        assert BitAt(c, 32) == BitAt(Half(c), 31);
        NoBit32(c);
      } else if e < 32 {
        assert BitAt(c, 32 - e) == BitAt(Half(c), 31 - e);
      }
    }
    RaiseHas(Of(c), 1, 32);
    assert BitAt(c, 0) == Odd(c);
  }

  lemma {:induction false} QuartersNext(c: bv32, k: nat)
    ensures Quarters(c, k + 1) == Quarter(Quarters(c, k))
    decreases k
  {
    hide Quarter;
    if k > 0 {
      QuartersNext(Quarter(c), k - 1);
    }
  }

  /** Bits 4 k to 4 k + 3 of `c`, which are the lowest of `q`. */
  lemma Nibble(c: bv32, k: nat, q: bv32)
    requires Quarters(c, k) == q
    ensures BitAt(c, 4 * k) == Odd(q) && BitAt(c, 4 * k + 1) == Odd(Half(q))
    ensures BitAt(c, 4 * k + 2) == Odd(Half(Half(q))) && BitAt(c, 4 * k + 3) == Odd(Half(Half(Half(q))))
  {
    hide Half, Odd, Quarter;
    HalvesQuarters(c, k);
    HalvesBits(c, 4 * k, 0);
    HalvesBits(c, 4 * k, 1);
    HalvesBits(c, 4 * k, 2);
    HalvesBits(c, 4 * k, 3);
    assert BitAt(q, 1) == BitAt(Half(q), 0) && BitAt(q, 2) == BitAt(Half(q), 1) && BitAt(q, 3) == BitAt(Half(q), 2);
    assert BitAt(Half(q), 1) == BitAt(Half(Half(q)), 0) && BitAt(Half(q), 2) == BitAt(Half(Half(q)), 1);
    assert BitAt(Half(Half(q)), 1) == BitAt(Half(Half(Half(q))), 0);
  }

  lemma PolyOf()
    ensures Of(POLY) == Generator() - {32}
  {
    hide BitAt, Quarters;
    FirstQuarters(POLY);
    Nibble(POLY, 0, 0xEDB8_8320);
    QuartersNext(POLY, 0);
    Nibble(POLY, 1, 0xEDB_8832);
    QuartersNext(POLY, 1);
    Nibble(POLY, 2, 0xED_B883);
    QuartersNext(POLY, 2);
    Nibble(POLY, 3, 0xE_DB88);
    QuartersNext(POLY, 3);
    Nibble(POLY, 4, 0xEDB8);
    QuartersNext(POLY, 4);
    Nibble(POLY, 5, 0xEDB);
    QuartersNext(POLY, 5);
    Nibble(POLY, 6, 0xED);
    QuartersNext(POLY, 6);
    Nibble(POLY, 7, 0xE);
    forall e: nat | e < 32 ensures Term(POLY, e) <==> e in Generator() {
    }
  }

  lemma FirstQuarters(c: bv32)
    ensures Quarters(c, 0) == c
  {
  }

  /** One step of the register multiplies by x. */
  lemma ShiftOf(c: bv32)
    ensures Congruent(Raise(Of(c), 1), Of(Shift(c)))
  {
    hide Of, Half, Odd, Xor, Mul, Raise, Generator;
    HalfOf(c);
    var raised := Raise(Of(c), 1);
    if Odd(c) {
      XorOf(Half(c), POLY);
      PolyOf();
      MulOne(Generator());
      TopOfGenerator();
      assert Add(raised, Of(Shift(c))) == Generator();
    } else {
      assert raised == Of(Shift(c));
      CongruentSelf(raised);
    }
  }

  lemma TopOfGenerator()
    ensures 32 in Generator()
  {
  }

  lemma {:induction false} ShiftsOf(c: bv32, n: nat)
    ensures Congruent(Raise(Of(c), n), Of(Shifts(c, n)))
  {
    hide Of, Shift, Congruent, Raise;
    if n == 0 {
      RaiseRaise(Of(c), 0, 0);
      CongruentSelf(Of(c));
    } else {
      RaiseRaise(Of(c), n - 1, 1);
      ShiftsOf(c, n - 1);
      CongruentRaise(Raise(Of(c), n - 1), Of(Shifts(c, n - 1)), 1);
      ShiftOf(Shifts(c, n - 1));
      CongruentTrans(Raise(Of(c), n), Raise(Of(Shifts(c, n - 1)), 1), Of(Shifts(c, n)));
    }
  }

  // ---- messages ----

  /** A byte, lowest bit first. */
  function OfByte(x: bv8): Poly { set e | 0 <= e < 8 && ByteTerm(x, e) }

  predicate ByteTerm(x: bv8, e: int) { 0 <= e < 8 && BitAt(Widen(x), 7 - e) }

  /** The first byte has the highest exponents. */
  function OfMessage(data: seq<bv8>): Poly
    decreases data
  {
    if data == [] then {} else Add(Raise(OfByte(data[0]), 8 * (|data| - 1)), OfMessage(data[1..]))
  }

  /** All terms of degree below `n`. */
  function Below(n: nat): (p: Poly)
    ensures forall e: nat :: e in p <==> e < n
  {
    if n == 0 then {} else Below(n - 1) + {n - 1}
  }

  lemma WidenOf(x: bv8)
    ensures Of(Widen(x)) == Raise(OfByte(x), 24)
  {
    hide BitAt, Widen, Raise;
    forall e: nat ensures e in Of(Widen(x)) <==> e in Raise(OfByte(x), 24) {
      RaiseHas(OfByte(x), 24, e);
      if e < 24 {
        NoBitAbove(x, 31 - e);
      }
    }
  }

  lemma NoBitAbove(x: bv8, i: nat)
    requires i >= 8
    ensures !BitAt(Widen(x), i)
  {
    hide Half, Odd, Widen, Quarter;
    HalvesBits(Widen(x), 8, i - 8);
    HalvesQuarters(Widen(x), 2);
    assert Quarters(Widen(x), 2) == Quarters(Quarter(Widen(x)), 1) == Quarter(Quarter(Widen(x)));
    TwoQuarters(x);
    ZeroBits(i - 8);
  }

  lemma TwoQuarters(x: bv8)
    ensures Quarter(Quarter(Widen(x))) == 0
  {
  }

  /** Taking in one byte: the register times x^8, plus the byte times x^32. */
  lemma StepOf(c: bv32, x: bv8)
    ensures Congruent(Add(Raise(Of(c), 8), Raise(OfByte(x), 32)), Of(Step(c, x)))
  {
    hide Of, OfByte, Shifts, Xor, Widen, Raise, Congruent;
    XorOf(c, Widen(x));
    WidenOf(x);
    RaiseAdd(Of(c), Raise(OfByte(x), 24), 8);
    RaiseRaise(OfByte(x), 24, 8);
    ShiftsOf(Xor(c, Widen(x)), 8);
  }

  lemma {:induction false} RegisterOf(c: bv32, data: seq<bv8>)
    ensures Congruent(Add(Raise(Of(c), 8 * |data|), Raise(OfMessage(data), 32)), Of(Register(c, data)))
    decreases data
  {
    hide Of, OfByte, Step, Raise, Congruent, Add;
    if data == [] {
      RaiseNone(32);
      RaiseRaise(Of(c), 0, 0);
      AddNone(Of(c));
      CongruentSelf(Of(c));
    } else {
      var c', n := Step(c, data[0]), 8 * (|data| - 1);
      var head, rest := OfByte(data[0]), OfMessage(data[1..]);
      RegisterOf(c', data[1..]);
      StepOf(c, data[0]);
      CongruentRaise(Add(Raise(Of(c), 8), Raise(head, 32)), Of(c'), n);
      RaiseAdd(Raise(Of(c), 8), Raise(head, 32), n);
      RaiseRaise(Of(c), 8, n);
      RaiseRaise(head, 32, n);
      RaiseRaise(head, n, 32);
      RaiseAdd(Raise(head, n), rest, 32);
      CongruentAdd(Add(Raise(Of(c), 8 + n), Raise(head, 32 + n)), Raise(Of(c'), n), Raise(rest, 32));
      AddAssoc(Raise(Of(c), 8 + n), Raise(head, 32 + n), Raise(rest, 32));
      CongruentTrans(Add(Raise(Of(c), 8 + n), Raise(OfMessage(data), 32)), Add(Raise(Of(c'), n), Raise(rest, 32)),
                     Of(Register(c, data)));
    }
  }

  lemma RaiseNone(k: nat)
    ensures Raise({}, k) == {}
  {
  }

  lemma AddNone(p: Poly)
    ensures Add(p, {}) == p
  {
  }

  lemma AddAssoc(p: Poly, q: Poly, r: Poly)
    ensures Add(Add(p, q), r) == Add(p, Add(q, r))
  {
  }

  lemma OnesOf()
    ensures Of(ONES) == Below(32)
  {
    hide BitAt, Quarters;
    FirstQuarters(ONES);
    Nibble(ONES, 0, 0xFFFF_FFFF);
    QuartersNext(ONES, 0);
    Nibble(ONES, 1, 0xFFF_FFFF);
    QuartersNext(ONES, 1);
    Nibble(ONES, 2, 0xFF_FFFF);
    QuartersNext(ONES, 2);
    Nibble(ONES, 3, 0xF_FFFF);
    QuartersNext(ONES, 3);
    Nibble(ONES, 4, 0xFFFF);
    QuartersNext(ONES, 4);
    Nibble(ONES, 5, 0xFFF);
    QuartersNext(ONES, 5);
    Nibble(ONES, 6, 0xFF);
    QuartersNext(ONES, 6);
    Nibble(ONES, 7, 0xF);
    forall e: nat | e < 32 ensures Term(ONES, e) {
    }
  }

  lemma ComplementIsXor(c: bv32)
    ensures Complement(c) == Xor(c, ONES)
  {
  }

  /** The CRC of a message, all its bits turned over, is what is left when the message, followed by 32
      zero bits and with its first 32 bits turned over, is divided by the generator. */
  lemma CrcIsRemainder(data: seq<bv8>)
    ensures Remainder(Add(Raise(Below(32), 8 * |data|), Raise(OfMessage(data), 32)), Add(Of(Crc(data)), Below(32)))
  {
    hide Of, OfMessage, Register, Complement, Xor, Raise, Congruent, Below;
    var r := Register(ONES, data);
    RegisterOf(ONES, data);
    OnesOf();
    ComplementIsXor(r);
    XorOf(r, ONES);
    assert Add(Of(Crc(data)), Below(32)) == Of(r);
    Below32(r);
  }

  lemma Below32(c: bv32)
    ensures forall e | e in Of(c) :: e < 32
  {
  }

  /** The check value of the CRC-32: that of the digits 1 to 9. */
  lemma CheckValue()
    ensures Crc([0x31, 0x32, 0x33, 0x34, 0x35, 0x36, 0x37, 0x38, 0x39]) == 0xCBF4_3926
  {
    assert Step(0xFFFF_FFFF, 0x31) == 0x7C23_1048;
    assert Step(0x7C23_1048, 0x32) == 0xB0AC_BB32;
    assert Step(0xB0AC_BB32, 0x33) == 0x77B7_9C2D;
    assert Step(0x77B7_9C2D, 0x34) == 0x641C_1F5C;
    assert Step(0x641C_1F5C, 0x35) == 0x340A_C5E3;
    assert Step(0x340A_C5E3, 0x36) == 0xF68D_2C9E;
    assert Step(0xF68D_2C9E, 0x37) == 0xAFFC_9660;
    assert Step(0xAFFC_9660, 0x38) == 0x651F_2550;
    assert Step(0x651F_2550, 0x39) == 0x340B_C6D9;
  }
}
