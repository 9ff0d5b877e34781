/** The CRC-24 of ASCII armor (section 6.1 of RFC 4880): the bitwise loop against polynomials over GF(2). */
module Crc24 {
  import opened Bits

  const INIT: nat := 0xB704CE
  const POLY: nat := 0x1864CFB

  // ----- The loop --------------------------------------------------------------------------------

  function Shift(crc: nat): nat {
    var c := crc * 2;
    if And(c, 0x100_0000) != 0 then Xor(c, POLY) else c
  }

  function Shifts(crc: nat, n: nat): nat
    decreases n
  {
    if n == 0 then crc else Shifts(Shift(crc), n - 1)
  }

  function Load(crc: nat, o: byte): nat {
    Xor(crc, o as nat * 0x1_0000)
  }

  function Accumulate(octets: seq<byte>): nat {
    if octets == [] then INIT else Shifts(Load(Accumulate(octets[..|octets| - 1]), octets[|octets| - 1]), 8)
  }

  method CrcOctets(octets: seq<byte>) returns (crc: nat)
    ensures crc == Accumulate(octets)
  {
    hide And, Xor;
    crc := INIT;
    for i := 0 to |octets|
      invariant crc == Accumulate(octets[..i])
    {
      assert octets[..i + 1][..i] == octets[..i];
      crc := Xor(crc, octets[i] as nat * 0x1_0000);
      ghost var loaded := crc;
      for k := 0 to 8
        invariant Shifts(crc, 8 - k) == Shifts(loaded, 8)
      {
        crc := crc * 2;
        if And(crc, 0x100_0000) != 0 {
          crc := Xor(crc, POLY);
        }
      }
    }
    assert octets[..|octets|] == octets;
    MaskKeepsAccumulator(octets);
    crc := And(crc, 0xFF_FFFF);
  }

  lemma MaskKeepsAccumulator(octets: seq<byte>)
    ensures And(Accumulate(octets), 0xFF_FFFF) == Accumulate(octets)
  {
    hide And, Accumulate, ToBits, Generator;
    var size := Pow2(24);
    AccumulatorStaysBelow(octets);
    PolyBits();
    Pow2IsPowerOfTwo(24);
    MaskIsRemainder(Accumulate(octets), size);
  }

  // ----- Polynomials over GF(2) ------------------------------------------------------------------

  // A polynomial of degree below n is the sequence of its n coefficients, highest first; `XorBits` adds.

  /** The generator polynomial is x^24 plus this: POLY without its highest bit. */
  function Generator(): (g: seq<bool>)
    ensures |g| == 24
  {
    ToBits(POLY, 24)
  }

  /** The product of `q` and the generator polynomial. */
  function TimesGenerator(q: seq<bool>): (p: seq<bool>)
    ensures |p| == |q| + 24
  {
    if q == [] then Zeros(24)
    else
      var n := |q| - 1;
      var shifted := TimesGenerator(q[..n]) + [false];
      if q[n] then XorBits(shifted, Zeros(n) + [true] + Generator()) else shifted
  }

  /** `r`, of degree below 24, is a remainder of `d` modulo the generator polynomial. */
  ghost predicate IsRemainder(d: seq<bool>, r: seq<bool>) {
    |r| == 24 && exists q: seq<bool> :: |d| == |q| + 24 && d == XorBits(TimesGenerator(q), Zeros(|q|) + r)
  }

  /** What the CRC divides: INIT * x^n + message * x^24, for a message of n bits. */
  function Dividend(bits: seq<bool>): (d: seq<bool>)
    ensures |d| == |bits| + 24
  {
    XorBits(ToBits(INIT, 24) + Zeros(|bits|), bits + Zeros(24))
  }

  function MessageBits(octets: seq<byte>): seq<bool> {
    if octets == [] then [] else MessageBits(octets[..|octets| - 1]) + ToBits(octets[|octets| - 1], 8)
  }

  /** The generator of section 6.1 of RFC 4880: x^24 + x^23 + x^18 + x^17 + x^14 + x^11 + x^10 + x^7 + x^6 + x^5 + x^4 +
      x^3 + x + 1. */
  lemma GeneratorIs()
    ensures forall j | 0 <= j < 24 :: Generator()[j] <==> 23 - j in {23, 18, 17, 14, 11, 10, 7, 6, 5, 4, 3, 1, 0}
  {
    hide ToBits;
    ThreeOctets(POLY, 0x186, 0x4C, 0xFB);
    OctetIs(0x186, {0, 5, 6});
    OctetIs(0x4C, {1, 4, 5});
    OctetIs(0xFB, {0, 1, 2, 3, 4, 6, 7});
  }

  /** The initial value 0xB704CE. */
  lemma InitialIs()
    ensures forall j | 0 <= j < 24 :: ToBits(INIT, 24)[j] <==> 23 - j in {23, 21, 20, 18, 17, 16, 10, 7, 6, 3, 2, 1}
  {
    hide ToBits;
    ThreeOctets(INIT, 0xB7, 0x04, 0xCE);
    OctetIs(0xB7, {0, 2, 3, 5, 6, 7});
    OctetIs(0x04, {5});
    OctetIs(0xCE, {0, 1, 4, 5, 6});
  }

  lemma OctetIs(x: nat, ones: set<int>)
    requires x / 16 / 8 % 2 == 1 <==> 0 in ones
    requires x / 16 / 4 % 2 == 1 <==> 1 in ones
    requires x / 16 / 2 % 2 == 1 <==> 2 in ones
    requires x / 16 % 2 == 1 <==> 3 in ones
    requires x % 16 / 8 % 2 == 1 <==> 4 in ones
    requires x % 16 / 4 % 2 == 1 <==> 5 in ones
    requires x % 16 / 2 % 2 == 1 <==> 6 in ones
    requires x % 16 % 2 == 1 <==> 7 in ones
    ensures forall j | 0 <= j < 8 :: ToBits(x, 8)[j] <==> j in ones
  {
    hide ToBits;
    EightBits(x);
  }

  lemma FourBits(x: nat)
    ensures ToBits(x, 4) == [x / 8 % 2 == 1, x / 4 % 2 == 1, x / 2 % 2 == 1, x % 2 == 1]
  {
    assert ToBits(x, 4) == ToBits(x / 2, 3) + [x % 2 == 1];
    assert ToBits(x / 2, 3) == ToBits(x / 2 / 2, 2) + [x / 2 % 2 == 1];
    assert ToBits(x / 2 / 2, 2) == ToBits(x / 2 / 2 / 2, 1) + [x / 2 / 2 % 2 == 1];
    assert ToBits(x / 2 / 2 / 2, 1) == ToBits(x / 2 / 2 / 2 / 2, 0) + [x / 2 / 2 / 2 % 2 == 1];
    assert x / 2 / 2 == x / 4 && x / 4 / 2 == x / 8;
  }

  lemma EightBits(x: nat)
    ensures ToBits(x, 8)
            == [x / 16 / 8 % 2 == 1, x / 16 / 4 % 2 == 1, x / 16 / 2 % 2 == 1, x / 16 % 2 == 1,
                x % 16 / 8 % 2 == 1, x % 16 / 4 % 2 == 1, x % 16 / 2 % 2 == 1, x % 16 % 2 == 1]
  {
    assert Pow2(4) == 16;
    hide ToBits, Pow2;
    var high, low := x / 16, x % 16;
    assert x == high * 16 + low;
    BitsOfParts(high, low, 4, 4);
    FourBits(high);
    FourBits(low);
  }

  lemma ThreeOctets(x: nat, a: nat, b: nat, c: nat)
    requires b < 0x100 && c < 0x100 && x == (a * 0x100 + b) * 0x100 + c
    ensures ToBits(x, 24) == ToBits(a, 8) + ToBits(b, 8) + ToBits(c, 8)
  {
    assert Pow2(8) == 0x100;
    hide ToBits, Pow2;
    BitsOfParts(a * 0x100 + b, c, 16, 8);
    BitsOfParts(a, b, 8, 8);
  }

  // ----- The loop on coefficients ----------------------------------------------------------------

  /** Multiply by x and reduce. */
  function ShiftBits(r: seq<bool>): (s: seq<bool>)
    requires |r| == 24
    ensures |s| == 24
  {
    var shifted := r[1..] + [false];
    if r[0] then XorBits(shifted, Generator()) else shifted
  }

  function FeedBit(r: seq<bool>, bit: bool): (s: seq<bool>)
    requires |r| == 24
    ensures |s| == 24
  {
    ShiftBits([r[0] != bit] + r[1..])
  }

  function Feed(r: seq<bool>, bits: seq<bool>): (s: seq<bool>)
    requires |r| == 24
    ensures |s| == 24
  {
    if bits == [] then r else FeedBit(Feed(r, bits[..|bits| - 1]), bits[|bits| - 1])
  }

  lemma Powers()
    ensures Pow2(16) == 0x1_0000 && Pow2(24) == 0x100_0000 && Pow2(25) == 0x200_0000
  {
    assert Pow2(8) == 0x100;
    hide Pow2;
    Pow2Adds(8, 8);
    Pow2Adds(16, 8);
    Pow2Doubles(24);
  }

  lemma Pow2Doubles(n: nat)
    ensures Pow2(n + 1) == 2 * Pow2(n)
  {
  }

  lemma PolyBits()
    ensures Pow2(16) == 0x1_0000 && Pow2(24) == 0x100_0000
    ensures ToBits(POLY, 25) == [true] + Generator()
  {
    hide ToBits, Pow2;
    Powers();
    HighestBit(POLY, 24);
    assert Generator() == ToBits(POLY, 24);
  }

  lemma HighestBit(x: nat, n: nat)
    requires Pow2(n) <= x < Pow2(n + 1)
    ensures ToBits(x, n + 1) == [true] + ToBits(x, n)
  {
    hide ToBits, Pow2;
    TopBit(x, n);
    BitsBelow(x, n);
  }

  lemma BitsOfShift(crc: nat)
    ensures ToBits(Shift(crc), 24) == ShiftBits(ToBits(crc, 24))
  {
    hide And, Xor, ToBits, Generator;
    PolyBits();
    BitsOfReduced(crc, 24, POLY, Generator());
  }

  /** Shifting and reducing by x^n plus `g`, on the number and on its coefficients. */
  lemma BitsOfReduced(crc: nat, n: nat, poly: nat, g: seq<bool>)
    requires n > 0 && |g| == n && ToBits(poly, n + 1) == [true] + g
    ensures var c, r := crc * 2, ToBits(crc, n);
            ToBits(if And(c, Pow2(n)) != 0 then Xor(c, poly) else c, n)
            == if r[0] then XorBits(r[1..] + [false], g) else r[1..] + [false]
  {
    var c := crc * 2;
    assert ToBits(c, n + 1) == ToBits(crc, n) + [false];
    hide And, Xor, ToBits, Pow2;
    AndTestsBit(c, n);
    BitsBelow(c, n);
    BitsOfXor(c, poly, n + 1);
    BitsBelow(Xor(c, poly), n);
  }

  lemma ShiftStaysBelow(crc: nat)
    requires crc < Pow2(24)
    ensures Shift(crc) < Pow2(24)
  {
    hide And, Xor;
    var c := crc * 2;
    PolyBits();
    AndTestsBit(c, 24);
    TopBit(c, 24);
    var c' := Xor(c, POLY);
    XorStaysBelow(c, POLY, 25);
    BitsOfXor(c, POLY, 25);
    TopBit(c', 24);
  }

  lemma {:induction false} BitsOfShifts(crc: nat, n: nat)
    ensures ToBits(Shifts(crc, n), 24) == ShiftBitsBy(ToBits(crc, 24), n)
    ensures crc < Pow2(24) ==> Shifts(crc, n) < Pow2(24)
    decreases n
  {
    hide Shift, ShiftBits, ToBits, Pow2;
    if n > 0 {
      BitsOfShift(crc);
      if crc < Pow2(24) {
        ShiftStaysBelow(crc);
      }
      BitsOfShifts(Shift(crc), n - 1);
    }
  }

  function ShiftBitsBy(r: seq<bool>, n: nat): (s: seq<bool>)
    requires |r| == 24
    ensures |s| == 24
    decreases n
  {
    if n == 0 then r else ShiftBitsBy(ShiftBits(r), n - 1)
  }

  lemma XorWithZeros(r: seq<bool>)
    ensures XorBits(r, Zeros(|r|)) == r
  {
  }

  lemma LoadedShift(r: seq<bool>, bits: seq<bool>)
    requires |r| == 24 && 0 < |bits| <= 24
    ensures ShiftBits(XorBits(r, bits + Zeros(24 - |bits|)))
            == XorBits(FeedBit(r, bits[0]), bits[1..] + Zeros(24 - (|bits| - 1)))
  {
    hide Generator;
  }

  /** Shifting an accumulator into which `bits` were added at the top is feeding them one by one. */
  lemma {:induction false} ShiftingFeeds(r: seq<bool>, bits: seq<bool>)
    requires |r| == 24 && |bits| <= 24
    ensures ShiftBitsBy(XorBits(r, bits + Zeros(24 - |bits|)), |bits|) == Feed(r, bits)
    decreases |bits|
  {
    hide XorBits, ShiftBits, FeedBit, Zeros;
    if bits == [] {
      assert bits + Zeros(24) == Zeros(24);
      XorWithZeros(r);
    } else {
      LoadedShift(r, bits);
      ShiftingFeeds(FeedBit(r, bits[0]), bits[1..]);
      FeedFromFront(r, bits);
    }
  }

  lemma {:induction false} FeedFromFront(r: seq<bool>, bits: seq<bool>)
    requires |r| == 24 && bits != []
    ensures Feed(r, bits) == Feed(FeedBit(r, bits[0]), bits[1..])
    decreases |bits|
  {
    var n := |bits| - 1;
    if n == 0 {
      assert Feed(r, bits[..0]) == r;
    } else {
      FeedFromFront(r, bits[..n]);
      assert bits[..n][1..] == bits[1..][..n - 1];
    }
  }

  lemma {:induction false} FeedConcat(r: seq<bool>, a: seq<bool>, b: seq<bool>)
    requires |r| == 24
    ensures Feed(r, a + b) == Feed(Feed(r, a), b)
    decreases |b|
  {
    if b == [] {
      assert a + b == a;
    } else {
      hide Feed, FeedBit;
      var n := |b| - 1;
      FeedConcat(r, a, b[..n]);
      assert (a + b)[..|a + b| - 1] == a + b[..n];
      FeedNext(r, a + b);
      FeedNext(Feed(r, a), b);
    }
  }

  /** One octet of the loop feeds the eight bits of the octet. */
  lemma OctetFeeds(crc: nat, o: byte)
    ensures ToBits(Shifts(Load(crc, o), 8), 24) == Feed(ToBits(crc, 24), ToBits(o, 8))
    ensures crc < Pow2(24) ==> Shifts(Load(crc, o), 8) < Pow2(24)
  {
    var top := o as nat * 0x1_0000;
    PolyBits();
    BitsOfShifted(o, 8, 16);
    BitsOfXor(crc, top, 24);
    BitsOfShifts(Load(crc, o), 8);
    ShiftingFeeds(ToBits(crc, 24), ToBits(o, 8));
    if crc < Pow2(24) {
      XorStaysBelow(crc, top, 24);
    }
  }

  /** Between octets the accumulator fits in 24 bits, so the final mask changes nothing. */
  lemma {:induction false} AccumulatorStaysBelow(octets: seq<byte>)
    ensures Accumulate(octets) < 0x100_0000
    decreases |octets|
  {
    PolyBits();
    if octets != [] {
      var n := |octets| - 1;
      AccumulatorStaysBelow(octets[..n]);
      OctetFeeds(Accumulate(octets[..n]), octets[n]);
    }
  }

  lemma {:induction false} AccumulateFeeds(octets: seq<byte>)
    ensures ToBits(Accumulate(octets), 24) == Feed(ToBits(INIT, 24), MessageBits(octets))
    decreases |octets|
  {
    if octets != [] {
      var n := |octets| - 1;
      AccumulateFeeds(octets[..n]);
      OctetFeeds(Accumulate(octets[..n]), octets[n]);
      FeedConcat(ToBits(INIT, 24), MessageBits(octets[..n]), ToBits(octets[n], 8));
    }
  }

  // ----- The remainder ---------------------------------------------------------------------------

  /** The quotient: each bit fed is reduced by the coefficient that leaves the accumulator. */
  function Quotient(bits: seq<bool>): (q: seq<bool>)
    ensures |q| == |bits|
  {
    if bits == [] then []
    else
      var n := |bits| - 1;
      Quotient(bits[..n]) + [Feed(ToBits(INIT, 24), bits[..n])[0] != bits[n]]
  }

  lemma {:induction false} FeedDivides(bits: seq<bool>)
    ensures Dividend(bits)
            == XorBits(TimesGenerator(Quotient(bits)), Zeros(|bits|) + Feed(ToBits(INIT, 24), bits))
    decreases |bits|
  {
    hide Dividend, Quotient, Feed, TimesGenerator, XorBits, Zeros, FeedBit, Generator, ToBits, Pow2;
    if bits == [] {
      NothingToDivide();
    } else {
      var n := |bits| - 1;
      var r := Feed(ToBits(INIT, 24), bits[..n]);
      FeedDivides(bits[..n]);
      QuotientNext(bits);
      FeedNext(ToBits(INIT, 24), bits);
      ProductNext(Quotient(bits));
      DivisionStep(bits[..n], bits[n], TimesGenerator(Quotient(bits[..n])), r);
      assert bits[..n] + [bits[n]] == bits;
    }
  }

  lemma NothingToDivide()
    ensures Quotient([]) == [] && Feed(ToBits(INIT, 24), []) == ToBits(INIT, 24)
    ensures Dividend([]) == XorBits(TimesGenerator([]), Zeros(0) + ToBits(INIT, 24))
  {
    hide ToBits;
  }

  lemma FeedNext(r: seq<bool>, bits: seq<bool>)
    requires |r| == 24 && bits != []
    ensures var n := |bits| - 1; Feed(r, bits) == FeedBit(Feed(r, bits[..n]), bits[n])
  {
    hide FeedBit;
  }

  lemma QuotientNext(bits: seq<bool>)
    requires bits != []
    ensures var n := |bits| - 1;
            && Quotient(bits)[..n] == Quotient(bits[..n])
            && Quotient(bits)[n] == (Feed(ToBits(INIT, 24), bits[..n])[0] != bits[n])
  {
    hide ToBits, Feed;
  }

  lemma DividendNext(bits: seq<bool>, bit: bool, i: nat)
    requires i < |bits| + 25
    ensures Dividend(bits + [bit])[i]
            == if i == |bits| + 24 then false else if i == |bits| then Dividend(bits)[i] != bit else Dividend(bits)[i]
  {
    hide ToBits;
  }

  lemma FeedBitAt(r: seq<bool>, bit: bool, j: nat)
    requires |r| == 24 && j < 24
    ensures FeedBit(r, bit)[j] == ((j < 23 && r[j + 1]) != (r[0] != bit && Generator()[j]))
  {
    hide Generator;
  }

  lemma ReducedAt(shifted: seq<bool>, reduce: bool, n: nat, i: nat)
    requires |shifted| == n + 25 && i < n + 25
    ensures (if reduce then XorBits(shifted, Zeros(n) + [true] + Generator()) else shifted)[i]
            == (shifted[i] != (reduce && (i == n || (i > n && Generator()[i - n - 1]))))
  {
    hide Generator;
  }

  lemma XorTailAt(a: seq<bool>, m: nat, r: seq<bool>, i: nat)
    requires |a| == m + |r| && i < |a|
    ensures XorBits(a, Zeros(m) + r)[i] == (a[i] != (i >= m && r[i - m]))
  {
  }

  lemma DivisionStep(bits: seq<bool>, bit: bool, product: seq<bool>, r: seq<bool>)
    requires |product| == |bits| + 24 && |r| == 24
    requires Dividend(bits) == XorBits(product, Zeros(|bits|) + r)
    ensures var shifted := product + [false];
            Dividend(bits + [bit])
            == XorBits(if r[0] != bit then XorBits(shifted, Zeros(|bits|) + [true] + Generator()) else shifted,
                       Zeros(|bits| + 1) + FeedBit(r, bit))
  {
    var n, c := |bits|, r[0] != bit;
    var shifted := product + [false];
    var product' := if c then XorBits(shifted, Zeros(n) + [true] + Generator()) else shifted;
    var r' := FeedBit(r, bit);
    var d' := XorBits(product', Zeros(n + 1) + r');
    hide Dividend, Generator, FeedBit, XorBits, Zeros;
    forall i: nat | i < n + 25 ensures Dividend(bits + [bit])[i] == d'[i] {
      DividendNext(bits, bit, i);
      ReducedAt(shifted, c, n, i);
      XorTailAt(product', n + 1, r', i);
      if i < n + 24 {
        XorTailAt(product, n, r, i);
      }
      if i > n {
        FeedBitAt(r, bit, i - n - 1);
      }
    }
  }

  /** The checksum is the remainder of the division by the generator polynomial. */
  lemma CrcIsRemainder(octets: seq<byte>)
    ensures IsRemainder(Dividend(MessageBits(octets)), ToBits(Accumulate(octets), 24))
  {
    var bits := MessageBits(octets);
    AccumulateFeeds(octets);
    FeedDivides(bits);
    assert |Dividend(bits)| == |Quotient(bits)| + 24;
  }

  /** A polynomial has one remainder only. */
  lemma RemainderIsUnique(d: seq<bool>, r: seq<bool>, s: seq<bool>)
    requires IsRemainder(d, r) && IsRemainder(d, s)
    ensures r == s
  {
    hide TimesGenerator, XorBits, Zeros;
    var p: seq<bool> :| |d| == |p| + 24 && d == XorBits(TimesGenerator(p), Zeros(|p|) + r);
    var q: seq<bool> :| |d| == |q| + 24 && d == XorBits(TimesGenerator(q), Zeros(|q|) + s);
    forall i | 0 <= i < |p|
      ensures TimesGenerator(p)[i] == TimesGenerator(q)[i]
    {
      XorTailAt(TimesGenerator(p), |p|, r, i);
      XorTailAt(TimesGenerator(q), |p|, s, i);
    }
    HighCoefficientsDetermine(p, q);
    forall i | 0 <= i < 24
      ensures r[i] == s[i]
    {
      XorTailAt(TimesGenerator(p), |p|, r, |p| + i);
      XorTailAt(TimesGenerator(q), |p|, s, |p| + i);
    }
  }

  lemma ProductNext(q: seq<bool>)
    requires q != []
    ensures var n := |q| - 1;
            var shifted := TimesGenerator(q[..n]) + [false];
            TimesGenerator(q) == if q[n] then XorBits(shifted, Zeros(n) + [true] + Generator()) else shifted
  {
    hide Generator, XorBits, Zeros;
  }

  lemma HighCoefficient(p: seq<bool>, i: nat)
    requires i < |p|
    ensures TimesGenerator(p)[i]
            == (TimesGenerator(p[..|p| - 1])[i] != (i == |p| - 1 && p[i]))
  {
    var n := |p| - 1;
    ProductNext(p);
    hide TimesGenerator, Generator, XorBits, Zeros;
    ReducedAt(TimesGenerator(p[..n]) + [false], p[n], n, i);
  }

  lemma {:induction false} HighCoefficientsDetermine(p: seq<bool>, q: seq<bool>)
    requires |p| == |q|
    requires forall i :: 0 <= i < |p| ==> TimesGenerator(p)[i] == TimesGenerator(q)[i]
    ensures p == q
    decreases |p|
  {
    hide TimesGenerator;
    if p != [] {
      var n := |p| - 1;
      forall i | 0 <= i < n ensures TimesGenerator(p[..n])[i] == TimesGenerator(q[..n])[i] {
        HighCoefficient(p, i);
        HighCoefficient(q, i);
      }
      HighCoefficientsDetermine(p[..n], q[..n]);
      HighCoefficient(p, n);
      HighCoefficient(q, n);
      assert p == p[..n] + [p[n]] && q == q[..n] + [q[n]];
    }
  }

  // ----- Affinity --------------------------------------------------------------------------------

  function XorOctets(a: seq<byte>, b: seq<byte>): (c: seq<byte>)
    requires |a| == |b|
    ensures |c| == |a|
  {
    seq(|a|, i requires 0 <= i < |a| => XorByte(a[i], b[i]))
  }

  function XorByte(a: byte, b: byte): byte {
    XorStaysBelow(a, b, 8);
    Xor(a, b)
  }

  lemma XorBitsConcat(a: seq<bool>, a': seq<bool>, b: seq<bool>, b': seq<bool>)
    requires |a| == |b| && |a'| == |b'|
    ensures XorBits(a + a', b + b') == XorBits(a, b) + XorBits(a', b')
  {
  }

  lemma {:induction false} MessageBitsOfXor(a: seq<byte>, b: seq<byte>)
    requires |a| == |b|
    ensures |MessageBits(a)| == |MessageBits(b)| == 8 * |a|
    ensures MessageBits(XorOctets(a, b)) == XorBits(MessageBits(a), MessageBits(b))
    decreases |a|
  {
    hide ToBits, Xor;
    if a == [] {
      assert XorBits(MessageBits(a), MessageBits(b)) == [];
    } else {
      hide XorBits;
      var n := |a| - 1;
      MessageBitsOfXor(a[..n], b[..n]);
      assert XorOctets(a, b)[..n] == XorOctets(a[..n], b[..n]);
      BitsOfXor(a[n], b[n], 8);
      XorBitsConcat(MessageBits(a[..n]), ToBits(a[n], 8), MessageBits(b[..n]), ToBits(b[n], 8));
    }
  }

  lemma {:induction false} FeedIsLinear(r: seq<bool>, s: seq<bool>, a: seq<bool>, b: seq<bool>)
    requires |r| == |s| == 24 && |a| == |b|
    ensures Feed(XorBits(r, s), XorBits(a, b)) == XorBits(Feed(r, a), Feed(s, b))
    decreases |a|
  {
    if a != [] {
      var n := |a| - 1;
      FeedIsLinear(r, s, a[..n], b[..n]);
      assert XorBits(a, b)[..n] == XorBits(a[..n], b[..n]);
      FeedBitIsLinear(Feed(r, a[..n]), Feed(s, b[..n]), a[n], b[n]);
    }
  }

  lemma FeedBitIsLinear(r: seq<bool>, s: seq<bool>, a: bool, b: bool)
    requires |r| == |s| == 24
    ensures FeedBit(XorBits(r, s), a != b) == XorBits(FeedBit(r, a), FeedBit(s, b))
  {
  }

  lemma XorTwice(r: seq<bool>)
    ensures XorBits(XorBits(r, r), r) == r
  {
  }

  /** The CRC is affine: xoring three messages of one length xors their checksums. */
  lemma CrcIsAffine(a: seq<byte>, b: seq<byte>, c: seq<byte>)
    requires |a| == |b| == |c|
    ensures Accumulate(XorOctets(XorOctets(a, b), c)) == Xor(Xor(Accumulate(a), Accumulate(b)), Accumulate(c))
  {
    hide ToBits, XorBits, Feed, Accumulate, Xor, MessageBits, XorOctets, Pow2, Generator;
    var m := XorOctets(XorOctets(a, b), c);
    var x, y, z := Accumulate(a), Accumulate(b), Accumulate(c);
    var init := ToBits(INIT, 24);
    MessageBitsOfXor(a, b);
    MessageBitsOfXor(XorOctets(a, b), c);
    FeedIsLinear(init, init, MessageBits(a), MessageBits(b));
    FeedIsLinear(XorBits(init, init), init, MessageBits(XorOctets(a, b)), MessageBits(c));
    XorTwice(init);
    AccumulateFeeds(a);
    AccumulateFeeds(b);
    AccumulateFeeds(c);
    AccumulateFeeds(m);
    BitsOfXor(x, y, 24);
    BitsOfXor(Xor(x, y), z, 24);
    PolyBits();
    AccumulatorStaysBelow(a);
    AccumulatorStaysBelow(b);
    AccumulatorStaysBelow(c);
    AccumulatorStaysBelow(m);
    XorStaysBelow(x, y, 24);
    XorStaysBelow(Xor(x, y), z, 24);
    BitsDetermine(Accumulate(m), Xor(Xor(x, y), z), 24);
  }
}
