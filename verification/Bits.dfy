/** The bitwise operators of C on natural numbers, and numbers as sequences of bits. */
module Bits {
  type byte = x: nat | x < 256

  /** Bitwise `&` on natural numbers. */
  function And(a: nat, b: nat): nat {
    if a == 0 || b == 0 then 0 else 2 * And(a / 2, b / 2) + (a % 2) * (b % 2)
  }

  /** Bitwise `^` on natural numbers. */
  function Xor(a: nat, b: nat): nat {
    if a == 0 && b == 0 then 0 else 2 * Xor(a / 2, b / 2) + (a + b) % 2
  }

  lemma XorParity(a: nat, b: nat)
    ensures Xor(a, b) % 2 == (a + b) % 2
  {
  }

  lemma AndParity(a: nat, b: nat)
    ensures And(a, b) % 2 == (a % 2) * (b % 2)
  {
    ParityProduct(a, b);
    if a != 0 && b != 0 {
      EvenPlus(And(a / 2, b / 2), (a % 2) * (b % 2));
    }
  }

  lemma ParityProduct(a: nat, b: nat)
    ensures (a % 2) * (b % 2) == if a % 2 == 0 then 0 else b % 2
  {
  }

  lemma EvenPlus(x: nat, y: nat)
    requires y < 2
    ensures (2 * x + y) % 2 == y
  {
  }

  // ----- Powers of two ---------------------------------------------------------------------------

  predicate PowerOfTwo(n: nat) {
    n == 1 || (n > 1 && n % 2 == 0 && PowerOfTwo(n / 2))
  }

  /** For a table size the mask `size - 1` selects the remainder, so every slot can be hit and none is
      out of range. */
  lemma {:induction false} MaskIsRemainder(h: nat, size: nat)
    requires PowerOfTwo(size)
    ensures And(h, size - 1) == h % size
    decreases size
  {
    if size == 1 {
    } else {
      var half := size / 2;
      assert size == 2 * half;
      MaskIsRemainder(h / 2, half);
      calc {
        And(h, size - 1);
        { MaskOfDouble(h, half); }
        2 * And(h / 2, half - 1) + h % 2;
        2 * ((h / 2) % half) + h % 2;
        { RemainderOfDouble(h, half); }
        h % size;
      }
    }
  }

  lemma MaskOfDouble(h: nat, half: nat)
    requires half > 0
    ensures And(h, 2 * half - 1) == 2 * And(h / 2, half - 1) + h % 2
  {
    assert (2 * half - 1) / 2 == half - 1 && (2 * half - 1) % 2 == 1;
  }

  lemma RemainderOfDouble(h: nat, half: nat)
    requires half > 0
    ensures h % (2 * half) == 2 * ((h / 2) % half) + h % 2
  {
    var q, r := h / 2 / half, (h / 2) % half;
    assert h / 2 == half * q + r;
    assert 2 * (half * q) == (2 * half) * q;
    RemainderUnique(h, 2 * half, q, 2 * r + h % 2);
  }

  lemma RemainderUnique(h: nat, d: nat, q: nat, r: nat)
    requires d > 0 && r < d && h == d * q + r
    ensures h % d == r
  {
    var k: int := h / d - q;
    assert d * (h / d) == d * q + d * k;
    MultipleIsFar(d, k);
  }

  lemma MultipleIsFar(d: int, k: int)
    requires d > 0
    ensures k >= 1 ==> d * k >= d
    ensures k <= -1 ==> d * k <= -d
  {
  }

  function Pow2(n: nat): (p: nat)
    ensures p > 0
  {
    if n == 0 then 1 else 2 * Pow2(n - 1)
  }

  lemma {:induction false} Pow2Adds(m: nat, n: nat)
    ensures Pow2(m + n) == Pow2(m) * Pow2(n)
    decreases n
  {
    if n > 0 {
      Pow2Adds(m, n - 1);
    }
  }

  lemma {:induction false} Pow2IsPowerOfTwo(n: nat)
    ensures PowerOfTwo(Pow2(n))
  {
    if n > 0 {
      Pow2IsPowerOfTwo(n - 1);
    }
  }

  lemma {:induction false} XorStaysBelow(a: nat, b: nat, n: nat)
    requires a < Pow2(n) && b < Pow2(n)
    ensures Xor(a, b) < Pow2(n)
    decreases n
  {
    if n > 0 {
      XorStaysBelow(a / 2, b / 2, n - 1);
    }
  }

  // ----- Single bits -----------------------------------------------------------------------------

  /** Bit `j` of a number, the lowest bit being bit 0. */
  predicate Bit(x: nat, j: nat) {
    if j == 0 then x % 2 == 1 else Bit(x / 2, j - 1)
  }

  lemma {:induction false} BitOfXor(a: nat, b: nat, j: nat)
    ensures Bit(Xor(a, b), j) <==> Bit(a, j) != Bit(b, j)
    decreases j
  {
    hide Xor;
    XorParity(a, b);
    ParityOfSum(a, b);
    if j > 0 {
      XorHalves(a, b);
      BitOfXor(a / 2, b / 2, j - 1);
    }
  }

  /** A remainder by a power of two is the bits below it. */
  lemma {:induction false} BitOfRemainder(x: nat, n: nat, j: nat)
    ensures Bit(x % Pow2(n), j) <==> j < n && Bit(x, j)
    decreases n
  {
    if n == 0 {
      ZeroHasNoBits(j);
    } else {
      RemainderOfDouble(x, Pow2(n - 1));
      var r := (x / 2) % Pow2(n - 1);
      assert x % Pow2(n) == 2 * r + x % 2;
      assert (2 * r + x % 2) % 2 == x % 2 && (2 * r + x % 2) / 2 == r;
      if j > 0 {
        BitOfRemainder(x / 2, n - 1, j - 1);
      }
    }
  }

  lemma {:induction false} ZeroHasNoBits(j: nat)
    ensures !Bit(0, j)
  {
    if j > 0 {
      ZeroHasNoBits(j - 1);
    }
  }

  lemma {:induction false} BitOfShifted(x: nat, k: nat, j: nat)
    ensures Bit(x * Pow2(k), j) <==> j >= k && Bit(x, j - k)
    decreases k
  {
    if k > 0 {
      var y := x * Pow2(k - 1);
      assert x * Pow2(k) == 2 * y;
      assert (2 * y) % 2 == 0 && (2 * y) / 2 == y;
      if j > 0 {
        BitOfShifted(x, k - 1, j - 1);
      }
    } else {
      assert x * Pow2(0) == x;
    }
  }

  // ----- Numbers as bits -------------------------------------------------------------------------

  /** The `n` lowest bits of `x`, highest first. */
  function ToBits(x: nat, n: nat): (bits: seq<bool>)
    ensures |bits| == n
  {
    if n == 0 then [] else ToBits(x / 2, n - 1) + [x % 2 == 1]
  }

  /** Coefficient-wise sum of two polynomials over GF(2), or bit-wise `^` of two words. */
  function XorBits(p: seq<bool>, q: seq<bool>): (r: seq<bool>)
    requires |p| == |q|
    ensures |r| == |p|
  {
    seq(|p|, i requires 0 <= i < |p| => p[i] != q[i])
  }

  lemma {:induction false} BitsOfXor(a: nat, b: nat, n: nat)
    ensures ToBits(Xor(a, b), n) == XorBits(ToBits(a, n), ToBits(b, n))
    decreases n
  {
    if n > 0 {
      hide Xor, XorBits;
      BitsOfXor(a / 2, b / 2, n - 1);
      XorParity(a, b);
      ParityOfSum(a, b);
      XorHalves(a, b);
      XorBitsOfLast(ToBits(a / 2, n - 1), a % 2 == 1, ToBits(b / 2, n - 1), b % 2 == 1);
    } else {
      assert XorBits([], []) == [];
    }
  }

  lemma ParityOfSum(a: nat, b: nat)
    ensures (a + b) % 2 == 1 <==> a % 2 != b % 2
  {
  }

  lemma XorBitsOfLast(p: seq<bool>, a: bool, q: seq<bool>, b: bool)
    requires |p| == |q|
    ensures XorBits(p + [a], q + [b]) == XorBits(p, q) + [a != b]
  {
  }

  lemma XorHalves(a: nat, b: nat)
    ensures Xor(a, b) / 2 == Xor(a / 2, b / 2)
  {
  }

  lemma {:induction false} BitsBelow(x: nat, n: nat)
    ensures ToBits(x, n + 1)[1..] == ToBits(x, n)
    decreases n
  {
    if n > 0 {
      BitsBelow(x / 2, n - 1);
      assert ToBits(x, n + 1)[1..] == ToBits(x / 2, n)[1..] + [x % 2 == 1];
    }
  }

  /** `x & 2^n` tests bit `n`. */
  lemma {:induction false} AndTestsBit(x: nat, n: nat)
    ensures And(x, Pow2(n)) != 0 <==> ToBits(x, n + 1)[0]
    decreases n
  {
    if n > 0 {
      AndTestsBit(x / 2, n - 1);
      assert Pow2(n) / 2 == Pow2(n - 1) && Pow2(n) % 2 == 0;
      assert ToBits(x, n + 1)[0] == ToBits(x / 2, n)[0];
      AndWithEven(x, Pow2(n));
    }
  }

  lemma AndWithEven(a: nat, b: nat)
    requires b % 2 == 0
    ensures And(a, b) != 0 <==> And(a / 2, b / 2) != 0
  {
  }

  /** A number below 2^n is determined by its n bits. */
  lemma {:induction false} BitsDetermine(x: nat, y: nat, n: nat)
    requires x < Pow2(n) && y < Pow2(n) && ToBits(x, n) == ToBits(y, n)
    ensures x == y
    decreases n
  {
    if n > 0 {
      var p, q := ToBits(x, n), ToBits(y, n);
      assert p[..n - 1] == ToBits(x / 2, n - 1) && q[..n - 1] == ToBits(y / 2, n - 1);
      assert p[n - 1] == (x % 2 == 1) && q[n - 1] == (y % 2 == 1);
      BitsDetermine(x / 2, y / 2, n - 1);
    }
  }

  /** Below 2^(n+1), the highest bit tells whether the number reaches 2^n. */
  lemma {:induction false} TopBit(x: nat, n: nat)
    requires x < Pow2(n + 1)
    ensures ToBits(x, n + 1)[0] <==> x >= Pow2(n)
    decreases n
  {
    if n > 0 {
      TopBit(x / 2, n - 1);
      assert ToBits(x, n + 1)[0] == ToBits(x / 2, n)[0];
    } else {
      assert ToBits(x, 1) == ToBits(x / 2, 0) + [x % 2 == 1];
    }
  }

  function Zeros(n: nat): (r: seq<bool>)
    ensures |r| == n
  {
    seq(n, _ => false)
  }

  lemma {:induction false} BitsOfShifted(x: nat, n: nat, k: nat)
    ensures ToBits(x * Pow2(k), n + k) == ToBits(x, n) + Zeros(k)
    decreases k
  {
    if k == 0 {
      assert ToBits(x, n) + Zeros(0) == ToBits(x, n);
    } else {
      BitsOfShifted(x, n, k - 1);
      var y := x * Pow2(k - 1);
      assert x * Pow2(k) == 2 * y;
      assert ToBits(2 * y, n + k) == ToBits(y, n + k - 1) + [false];
      assert Zeros(k) == Zeros(k - 1) + [false];
    }
  }

  /** High and low bits of a number. */
  lemma {:induction false} BitsOfParts(high: nat, low: nat, m: nat, n: nat)
    requires low < Pow2(n)
    ensures ToBits(high * Pow2(n) + low, m + n) == ToBits(high, m) + ToBits(low, n)
    decreases n
  {
    if n == 0 {
      assert high * Pow2(0) + low == high;
    } else {
      var x := high * Pow2(n) + low;
      var y := high * Pow2(n - 1);
      assert x == 2 * y + low;
      assert x / 2 == y + low / 2 && x % 2 == low % 2;
      BitsOfParts(high, low / 2, m, n - 1);
    }
  }
}
