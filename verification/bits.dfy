/** Unsigned integers seen as bit strings: bitwise AND, shifts and bit
    fields, all defined by halving and doubling so that every proof step
    stays within linear arithmetic. */
module Bits {

  function Pow2(k: nat): (r: nat)
    ensures r >= 1
  {
    if k == 0 then 1 else 2 * Pow2(k - 1)
  }

  /** `a & b`: the lowest bit of the result is the product of the lowest
      bits, the remaining bits are the AND of the halved values. */
  function BitAnd(a: nat, b: nat): nat
    decreases a
  {
    if a == 0 || b == 0 then 0
    else 2 * BitAnd(a / 2, b / 2) + (a % 2) * (b % 2)
  }

  /** `a << j` */
  function ShiftLeft(a: nat, j: nat): nat
  {
    if j == 0 then a else 2 * ShiftLeft(a, j - 1)
  }

  /** `a >> j` */
  function ShiftRight(a: nat, j: nat): nat
  {
    if j == 0 then a else ShiftRight(a / 2, j - 1)
  }

  /** The number whose `k` lowest bits are set: `(1 << k) - 1`. */
  function Ones(k: nat): nat
  {
    if k == 0 then 0 else 2 * Ones(k - 1) + 1
  }

  /** The `k` lowest bits of `a`, as a number. */
  function Low(a: nat, k: nat): (r: nat)
    ensures r < Pow2(k)
    ensures r <= a
  {
    if k == 0 then 0 else 2 * Low(a / 2, k - 1) + a % 2
  }

  /** Bits `lo .. lo + w - 1` of `a`, as a number. */
  function Field(a: nat, lo: nat, w: nat): nat
  {
    Low(ShiftRight(a, lo), w)
  }

  lemma AndEvenMask(a: nat, b: nat)
    ensures BitAnd(a, 2 * b) == 2 * BitAnd(a / 2, b)
  {
    if a > 0 && b > 0 {
      var lowBit := a % 2;
      assert (2 * b) / 2 == b && (2 * b) % 2 == 0;
      assert lowBit * 0 == 0;
      assert BitAnd(a, 2 * b) == 2 * BitAnd(a / 2, b) + lowBit * ((2 * b) % 2);
    }
  }

  /** AND with `k` low one-bits keeps exactly the `k` low bits. */
  lemma {:induction false} AndOnes(a: nat, k: nat)
    ensures BitAnd(a, Ones(k)) == Low(a, k)
  {
    if k > 0 && a > 0 {
      AndOnes(a / 2, k - 1);
    }
  }

  /** AND with a mask shifted left by `j` is the shifted AND of `a >> j`. */
  lemma {:induction false} AndShifted(a: nat, m: nat, j: nat)
    ensures BitAnd(a, ShiftLeft(m, j)) == ShiftLeft(BitAnd(ShiftRight(a, j), m), j)
  {
    if j > 0 {
      AndEvenMask(a, ShiftLeft(m, j - 1));
      AndShifted(a / 2, m, j - 1);
    }
  }

  lemma {:induction false} ShiftLeftInjective(a: nat, b: nat, j: nat)
    ensures ShiftLeft(a, j) == ShiftLeft(b, j) <==> a == b
  {
    if j > 0 {
      ShiftLeftInjective(a, b, j - 1);
    }
  }

  /** Taking fewer low bits of the low bits is taking fewer low bits. */
  lemma {:induction false} LowOfLow(a: nat, k: nat, w: nat)
    requires w <= k
    ensures Low(Low(a, k), w) == Low(a, w)
  {
    if w > 0 {
      assert Low(a, k) / 2 == Low(a / 2, k - 1);
      LowOfLow(a / 2, k - 1, w - 1);
    }
  }

  /** A field that lies within the `k` low bits only depends on them. */
  lemma {:induction false} FieldOfLow(a: nat, k: nat, lo: nat, w: nat)
    requires lo + w <= k
    ensures Field(Low(a, k), lo, w) == Field(a, lo, w)
  {
    if lo == 0 {
      LowOfLow(a, k, w);
    } else {
      assert Low(a, k) / 2 == Low(a / 2, k - 1);
      FieldOfLow(a / 2, k - 1, lo - 1, w);
    }
  }

  lemma MulAtLeast(d: nat, k: int)
    requires k >= 1
    ensures d * k >= d
  {
  }

  /** Quotient and remainder are determined by any decomposition `a == d * t + x`
      with `0 <= x < d`. */
  lemma DivModUnique(a: nat, d: nat, t: nat, x: nat)
    requires d > 0 && 0 <= x < d && a == d * t + x
    ensures a / d == t && a % d == x
  {
    var q := a / d;
    if q > t {
      MulAtLeast(d, q - t);
    } else if q < t {
      MulAtLeast(d, t - q);
    }
  }

  lemma ModDouble(a: nat, m: nat)
    requires m > 0
    ensures 2 * ((a / 2) % m) + a % 2 == a % (2 * m)
  {
    var q, r := a / 2, a % 2;
    var t, s := q / m, q % m;
    assert a == (2 * m) * t + (2 * s + r);
    DivModUnique(a, 2 * m, t, 2 * s + r);
  }

  /** The `k` low bits are the remainder modulo `2^k`. */
  lemma {:induction false} LowIsMod(a: nat, k: nat)
    ensures Low(a, k) == a % Pow2(k)
  {
    if k > 0 {
      LowIsMod(a / 2, k - 1);
      ModDouble(a, Pow2(k - 1));
    }
  }

  lemma {:induction false} Pow2Add(a: nat, b: nat)
    ensures Pow2(a + b) == Pow2(a) * Pow2(b)
  {
    if a > 0 {
      Pow2Add(a - 1, b);
    }
  }

  /** `2^16` and `2^32`, unfolded. */
  lemma Pow2Constants()
    ensures Pow2(16) == 0x1_0000
    ensures Pow2(32) == 0x1_0000_0000
  {
    assert Pow2(4) == 16;
    assert Pow2(8) == 256 by {
      Pow2Add(4, 4);
    }
    assert Pow2(16) == 0x1_0000 by {
      Pow2Add(8, 8);
    }
    Pow2Add(16, 16);
  }

  /** `(1 << k) - 1` */
  lemma {:induction false} OnesIsPow2Minus1(k: nat)
    ensures Ones(k) == Pow2(k) - 1
  {
    if k > 0 {
      OnesIsPow2Minus1(k - 1);
    }
  }

  /** `a << j == a * 2^j` */
  lemma {:induction false} ShiftLeftIsMul(a: nat, j: nat)
    ensures ShiftLeft(a, j) == a * Pow2(j)
  {
    if j > 0 {
      ShiftLeftIsMul(a, j - 1);
      MulAssoc2(a, Pow2(j - 1));
    }
  }

  lemma MulAssoc2(a: nat, b: nat)
    ensures 2 * (a * b) == a * (2 * b)
  {
  }

  lemma DivDiv(a: nat, b: nat, c: nat)
    requires b > 0 && c > 0
    ensures a / b / c == a / (b * c)
  {
    var q, r := a / b, a % b;
    var t, s := q / c, q % c;
    var bc, bs := b * c, b * s;
    assert a == b * q + r;
    assert q == c * t + s;
    assert b * q == bc * t + bs by {
      MulDistrib(b, c * t, s);
      MulAssoc(b, c, t);
    }
    assert bs + b <= bc by {
      MulMono(b, s + 1, c);
      MulDistrib(b, s, 1);
    }
    DivModUnique(a, bc, t, bs + r);
  }

  lemma MulDistrib(a: int, b: int, c: int)
    ensures a * (b + c) == a * b + a * c
  {
  }

  lemma MulAssoc(a: int, b: int, c: int)
    ensures a * (b * c) == (a * b) * c
  {
  }

  lemma MulMono(a: nat, b: nat, c: nat)
    requires b <= c
    ensures a * b <= a * c
  {
  }

  /** `a >> j == a / 2^j` */
  lemma {:induction false} ShiftRightIsDiv(a: nat, j: nat)
    ensures ShiftRight(a, j) == a / Pow2(j)
  {
    if j > 0 {
      ShiftRightIsDiv(a / 2, j - 1);
      DivDiv(a, 2, Pow2(j - 1));
    }
  }

  /** A bit field is a quotient followed by a remainder. */
  lemma FieldIsDivMod(a: nat, lo: nat, w: nat)
    ensures Field(a, lo, w) == (a / Pow2(lo)) % Pow2(w)
  {
    ShiftRightIsDiv(a, lo);
    LowIsMod(ShiftRight(a, lo), w);
  }
}
