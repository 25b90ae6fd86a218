/** Polynomials over GF(2).  A polynomial is a natural number: bit i is the coefficient of x^i, so
    multiplying by x doubles the number and the polynomials of degree below n are those below 2^n. */
module Gf2 {
  type Poly = nat

  function Pow2(n: nat): (p: nat)
    ensures p > 0
  {
    if n == 0 then 1 else 2 * Pow2(n - 1)
  }

  lemma {:induction false} PowSum(m: nat, n: nat)
    ensures Pow2(m + n) == Pow2(m) * Pow2(n)
  {
    if n > 0 {
      PowSum(m, n - 1);
      assert Pow2(m) * Pow2(n) == 2 * (Pow2(m) * Pow2(n - 1));
    }
  }

  /** a times x^k. */
  function Shl(a: Poly, k: nat): Poly {
    if k == 0 then a else 2 * Shl(a, k - 1)
  }

  /** The coefficients from x^k up. */
  function Shr(a: Poly, k: nat): Poly {
    if k == 0 then a else Shr(a / 2, k - 1)
  }

  /** The coefficients below x^k. */
  function Low(a: Poly, k: nat): Poly {
    if k == 0 then 0 else a % 2 + 2 * Low(a / 2, k - 1)
  }

  lemma {:induction false} ShlZero(k: nat)
    ensures Shl(0, k) == 0
  {
    if k > 0 {
      ShlZero(k - 1);
    }
  }

  /** Shifts and masks are the products, quotients and remainders by powers of two. */
  lemma {:induction false} ShiftsAreDivisions(a: Poly, k: nat)
    ensures Shl(a, k) == a * Pow2(k)
    ensures Shr(a, k) == a / Pow2(k)
    ensures Low(a, k) == a % Pow2(k)
  {
    if k > 0 {
      ShiftsAreDivisions(a, k - 1);
      ShiftsAreDivisions(a / 2, k - 1);
      DivTwice(a, Pow2(k - 1));
    }
  }

  lemma DoubleMod(a: nat, p: nat)
    requires p > 0
    ensures 2 * a % (2 * p) == 2 * (a % p)
  {
    var q, r := a / p, a % p;
    assert a == q * p + r;
    assert 2 * a == q * (2 * p) + 2 * r;
    DivUnique(2 * a, 2 * p, q, 2 * r);
  }

  lemma {:induction false} ShlOne(k: nat)
    ensures Shl(1, k) == Pow2(k)
  {
    if k > 0 {
      ShlOne(k - 1);
    }
  }

  lemma DivTwice(a: nat, p: nat)
    requires p > 0
    ensures a * (2 * p) == 2 * (a * p)
    ensures a / (2 * p) == a / 2 / p
    ensures a % (2 * p) == a % 2 + 2 * (a / 2 % p)
  {
    var q, r := a / 2 / p, a / 2 % p;
    assert a / 2 == q * p + r;
    assert a == q * (2 * p) + (2 * r + a % 2);
    DivUnique(a, 2 * p, q, 2 * r + a % 2);
  }

  lemma DivUnique(a: nat, d: nat, q: nat, r: nat)
    requires a == q * d + r && r < d
    ensures a / d == q && a % d == r
  {
    var e := a / d - q;
    assert a == (a / d) * d + a % d;
    assert e * d == r - a % d;
    assert e >= 1 ==> e * d >= d;
    assert e <= -1 ==> e * d <= -1 * d;
  }

  /** Sum of two polynomials, the bitwise exclusive or. */
  function Add(a: Poly, b: Poly): Poly
    decreases a + b
  {
    if a == 0 && b == 0 then 0
    else 2 * Add(a / 2, b / 2) + (if a % 2 == b % 2 then 0 else 1)
  }

  /** Product of two polynomials, by Horner's rule on q. */
  function Mul(q: Poly, g: Poly): Poly {
    if q == 0 then 0 else Add(2 * Mul(q / 2, g), if q % 2 == 1 then g else 0)
  }

  /** r is what remains of a after division by g, where g has degree n. */
  ghost predicate IsRemainder(r: Poly, a: Poly, g: Poly, n: nat) {
    r < Pow2(n) && exists q :: a == Add(Mul(q, g), r)
  }

  lemma {:induction false} AddComm(a: Poly, b: Poly)
    ensures Add(a, b) == Add(b, a)
    decreases a + b
  {
    if a != 0 || b != 0 {
      AddComm(a / 2, b / 2);
    }
  }

  lemma {:induction false} AddZero(a: Poly)
    ensures Add(a, 0) == a == Add(0, a)
  {
    if a != 0 {
      AddZero(a / 2);
    }
  }

  lemma {:induction false} AddSelf(a: Poly)
    ensures Add(a, a) == 0
  {
    if a != 0 {
      AddSelf(a / 2);
    }
  }

  lemma {:induction false} AddAssoc(a: Poly, b: Poly, c: Poly)
    ensures Add(Add(a, b), c) == Add(a, Add(b, c))
    decreases a + b + c
  {
    if a != 0 || b != 0 || c != 0 {
      AddAssoc(a / 2, b / 2, c / 2);
      assert Add(a, b) / 2 == Add(a / 2, b / 2) && Add(b, c) / 2 == Add(b / 2, c / 2);
      if a == 0 && b == 0 {
        AddZero(c);
      } else if b == 0 && c == 0 {
        AddZero(a);
      }
    }
  }

  /** Sums regroup pairwise. */
  lemma AddSwap(a: Poly, b: Poly, c: Poly, d: Poly)
    ensures Add(Add(a, b), Add(c, d)) == Add(Add(a, c), Add(b, d))
  {
    AddAssoc(a, b, Add(c, d));
    AddAssoc(b, c, d);
    AddComm(b, c);
    AddAssoc(c, b, d);
    AddAssoc(a, c, Add(b, d));
  }

  /** A sum in which the same polynomial occurs twice. */
  lemma AddCancel(a: Poly, b: Poly)
    ensures Add(Add(a, b), b) == a
  {
    AddAssoc(a, b, b);
    AddSelf(b);
    AddZero(a);
  }

  lemma AddDouble(a: Poly, b: Poly)
    ensures Add(2 * a, 2 * b) == 2 * Add(a, b)
  {
  }

  /** Adding works on the coefficients from x^k up and on those below separately. */
  lemma {:induction false} AddSplit(k: nat, x: Poly, y: Poly, u: Poly, v: Poly)
    requires y < Pow2(k) && v < Pow2(k)
    ensures Add(Shl(x, k) + y, Shl(u, k) + v) == Shl(Add(x, u), k) + Add(y, v)
    ensures Add(y, v) < Pow2(k)
  {
    if k > 0 {
      AddSplit(k - 1, x, y / 2, u, v / 2);
      var a, b := Shl(x, k) + y, Shl(u, k) + v;
      assert a / 2 == Shl(x, k - 1) + y / 2 && b / 2 == Shl(u, k - 1) + v / 2;
      assert a % 2 == y % 2 && b % 2 == v % 2;
    }
  }

  lemma AddBelow(k: nat, a: Poly, b: Poly)
    requires a < Pow2(k) && b < Pow2(k)
    ensures Add(a, b) < Pow2(k)
  {
    ShlZero(k);
    AddSplit(k, 0, a, 0, b);
  }

  lemma MulDouble(q: Poly, g: Poly)
    ensures Mul(2 * q, g) == 2 * Mul(q, g)
    ensures Mul(2 * q + 1, g) == Add(2 * Mul(q, g), g)
  {
    AddZero(2 * Mul(q, g));
  }

  lemma {:induction false} MulDistributes(p: Poly, q: Poly, g: Poly)
    ensures Mul(Add(p, q), g) == Add(Mul(p, g), Mul(q, g))
    decreases p + q
  {
    if p != 0 || q != 0 {
      MulDistributes(p / 2, q / 2, g);
      var mp, mq := Mul(p / 2, g), Mul(q / 2, g);
      var cp := if p % 2 == 1 then g else 0;
      var cq := if q % 2 == 1 then g else 0;
      assert Mul(p, g) == Add(2 * mp, cp) by { AddZero(2 * mp); }
      assert Mul(q, g) == Add(2 * mq, cq) by { AddZero(2 * mq); }
      AddSwap(2 * mp, cp, 2 * mq, cq);
      AddDouble(mp, mq);
      var s := Add(p, q);
      assert s / 2 == Add(p / 2, q / 2) && s % 2 == if p % 2 == q % 2 then 0 else 1;
      MulDouble(s / 2, g);
      AddSelf(g);
      AddZero(g);
      AddZero(2 * Mul(s / 2, g));
    }
  }

  /** Below 2^n a nonzero multiple of a polynomial of degree n does not exist. */
  lemma {:induction false} MultipleHasDegree(q: Poly, g: Poly, n: nat)
    requires Pow2(n) <= g < 2 * Pow2(n)
    requires q != 0
    ensures Mul(q, g) >= Pow2(n)
  {
    var m := Mul(q / 2, g);
    if q / 2 == 0 {
      AddZero(g);
    } else {
      MultipleHasDegree(q / 2, g, n);
      // 2m has a term above g's degree, which adding g leaves in place
      var c := if q % 2 == 1 then g else 0;
      if Mul(q, g) < Pow2(n + 1) {
        AddBelow(n + 1, Mul(q, g), c);
        AddCancel(2 * m, c);
        assert false;
      }
    }
  }

  /** Division by a polynomial of degree n leaves one remainder only. */
  lemma RemainderIsUnique(r: Poly, s: Poly, a: Poly, g: Poly, n: nat)
    requires Pow2(n) <= g < 2 * Pow2(n)
    requires IsRemainder(r, a, g, n) && IsRemainder(s, a, g, n)
    ensures r == s
  {
    var p :| a == Add(Mul(p, g), r);
    var q :| a == Add(Mul(q, g), s);
    // a + a = (p + q) g + (r + s) = 0
    AddSwap(Mul(p, g), r, Mul(q, g), s);
    MulDistributes(p, q, g);
    AddSelf(a);
    var m, d := Mul(Add(p, q), g), Add(r, s);
    AddCancel(m, d);
    AddZero(d);
    AddBelow(n, r, s);
    if Add(p, q) != 0 {
      MultipleHasDegree(Add(p, q), g, n);
    }
    assert m == d && d == 0;
    AddCancel(r, s);
    AddZero(s);
  }

  /** The w low coefficients in reverse order. */
  function Reverse(w: nat, a: Poly): Poly {
    if w == 0 then 0 else Shl(a % 2, w - 1) + Reverse(w - 1, a / 2)
  }

  lemma {:induction false} ReverseBelow(w: nat, a: Poly)
    ensures Reverse(w, a) < Pow2(w)
  {
    if w > 0 {
      ReverseBelow(w - 1, a / 2);
      ShlOne(w - 1);
      ShlZero(w - 1);
    }
  }

  lemma {:induction false} ReverseTop(w: nat, a: Poly)
    requires a < Pow2(w + 1)
    ensures Reverse(w + 1, a) == 2 * Reverse(w, Low(a, w)) + Shr(a, w)
  {
    if w > 0 {
      ReverseTop(w - 1, a / 2);
      assert Low(a, w) % 2 == a % 2 && Low(a, w) / 2 == Low(a / 2, w - 1);
    }
  }

  lemma {:induction false} ReverseAdd(w: nat, a: Poly, b: Poly)
    ensures Reverse(w, Add(a, b)) == Add(Reverse(w, a), Reverse(w, b))
  {
    if w > 0 {
      ReverseAdd(w - 1, a / 2, b / 2);
      ReverseBelow(w - 1, a / 2);
      ReverseBelow(w - 1, b / 2);
      AddSplit(w - 1, a % 2, Reverse(w - 1, a / 2), b % 2, Reverse(w - 1, b / 2));
      assert Add(a, b) / 2 == Add(a / 2, b / 2) && Add(a, b) % 2 == Add(a % 2, b % 2);
    }
  }

  lemma {:induction false} ShrOfSum(x: Poly, i: nat, m: nat, y: Poly)
    ensures Shr(Shl(x, i + m) + y, m) == Shl(x, i) + Shr(y, m)
  {
    if m > 0 {
      assert (Shl(x, i + m) + y) / 2 == Shl(x, i + m - 1) + y / 2;
      ShrOfSum(x, i, m - 1, y / 2);
    }
  }

  lemma {:induction false} ShrOfSmall(a: Poly, k: nat)
    requires a < Pow2(k)
    ensures Shr(a, k) == 0
  {
    if k > 0 {
      ShrOfSmall(a / 2, k - 1);
    }
  }

  /** The k top coefficients of a reversal are the reversal of the k low coefficients. */
  lemma {:induction false} ReverseHigh(w: nat, k: nat, a: Poly)
    requires k <= w
    ensures Shr(Reverse(w, a), w - k) == Reverse(k, Low(a, k))
  {
    if k == 0 {
      ReverseBelow(w, a);
      ShrOfSmall(Reverse(w, a), w);
    } else {
      ReverseHigh(w - 1, k - 1, a / 2);
      ShrOfSum(a % 2, k - 1, w - k, Reverse(w - 1, a / 2));
      assert Low(a, k) % 2 == a % 2 && Low(a, k) / 2 == Low(a / 2, k - 1);
    }
  }

  lemma {:induction false} ShlOfSum(a: Poly, b: Poly, k: nat)
    ensures Shl(a + b, k) == Shl(a, k) + Shl(b, k)
  {
    if k > 0 {
      ShlOfSum(a, b, k - 1);
    }
  }

  lemma {:induction false} ShlTwice(a: Poly, i: nat, j: nat)
    ensures Shl(Shl(a, i), j) == Shl(a, i + j)
  {
    if j > 0 {
      ShlTwice(a, i, j - 1);
    }
  }

  lemma EvenSum(half: nat, rest: nat)
    ensures (2 * half + rest) % 2 == rest % 2
  {
  }

  lemma {:induction false} LowestOfReverse(w: nat, a: Poly)
    requires w > 0
    ensures Reverse(w, a) % 2 == Shr(a, w - 1) % 2
  {
    var rest := Reverse(w - 1, a / 2);
    assert Reverse(w, a) == Shl(a % 2, w - 1) + rest;
    if w > 1 {
      LowestOfReverse(w - 1, a / 2);
      EvenSum(Shl(a % 2, w - 2), rest);
      assert Shr(a, w - 1) == Shr(a / 2, w - 2);
    } else {
      assert rest == 0 && Shl(a % 2, 0) == a % 2 && Shr(a, 0) == a;
    }
  }

  lemma {:induction false} LowBit(a: Poly, k: nat, i: nat)
    requires i < k
    ensures Shr(Low(a, k), i) % 2 == Shr(a, i) % 2
  {
    var rest := Low(a / 2, k - 1);
    assert Low(a, k) == a % 2 + 2 * rest;
    if i > 0 {
      LowBit(a / 2, k - 1, i - 1);
      assert (a % 2 + 2 * rest) / 2 == rest;
      assert Shr(Low(a, k), i) == Shr(rest, i - 1);
      assert Shr(a, i) == Shr(a / 2, i - 1);
    } else {
      assert Shr(Low(a, k), 0) == Low(a, k) && Shr(a, 0) == a;
    }
  }

  /** Coefficient by coefficient. */
  lemma ReverseBit(w: nat, a: Poly, i: nat)
    requires i < w
    ensures Shr(Reverse(w, a), i) % 2 == Shr(a, w - 1 - i) % 2
  {
    var k := w - i;
    ReverseHigh(w, k, a);
    LowestOfReverse(k, Low(a, k));
    LowBit(a, k, k - 1);
  }

  /** Sums are exclusive ors, coefficient by coefficient. */
  lemma {:induction false} AddBit(a: Poly, b: Poly, i: nat)
    ensures Shr(Add(a, b), i) % 2 == (Shr(a, i) % 2 + Shr(b, i) % 2) % 2
  {
    if i > 0 {
      AddBit(a / 2, b / 2, i - 1);
      assert Add(a, b) / 2 == Add(a / 2, b / 2);
    }
  }

  /** The reversal digit by digit, for evaluation. */
  function ReverseOnto(w: nat, a: Poly, high: Poly): Poly {
    if w == 0 then high else ReverseOnto(w - 1, a / 2, 2 * high + a % 2)
  }

  lemma {:induction false} ReverseByDigits(w: nat, a: Poly, high: Poly)
    ensures ReverseOnto(w, a, high) == Shl(high, w) + Reverse(w, a)
  {
    if w > 0 {
      ReverseByDigits(w - 1, a / 2, 2 * high + a % 2);
      ShlOfSum(2 * high, a % 2, w - 1);
      ShlTwice(high, 1, w - 1);
    }
  }

  lemma {:induction false} ReverseOnes(w: nat)
    ensures Reverse(w, Pow2(w) - 1) == Pow2(w) - 1
  {
    if w > 0 {
      ReverseOnes(w - 1);
      ShlOne(w - 1);
      assert (Pow2(w) - 1) % 2 == 1 && (Pow2(w) - 1) / 2 == Pow2(w - 1) - 1;
    }
  }

  lemma ReverseFromDigits(w: nat, a: Poly)
    ensures Reverse(w, a) == ReverseOnto(w, a, 0)
  {
    ReverseByDigits(w, a, 0);
    ShlZero(w);
  }

  lemma ReverseDigit(w: nat, b: nat, rest: Poly, high: Poly)
    requires b < 2
    ensures ReverseOnto(w + 1, 2 * rest + b, high) == ReverseOnto(w, rest, 2 * high + b)
  {
    assert (2 * rest + b) / 2 == rest && (2 * rest + b) % 2 == b;
  }

  /** Four digits at once, b0 the lowest. */
  lemma ReverseNibble(w: nat, b3: nat, b2: nat, b1: nat, b0: nat, rest: Poly, high: Poly)
    requires b0 < 2 && b1 < 2 && b2 < 2 && b3 < 2
    ensures ReverseOnto(w + 4, 16 * rest + 8 * b3 + 4 * b2 + 2 * b1 + b0, high)
         == ReverseOnto(w, rest, 16 * high + 8 * b0 + 4 * b1 + 2 * b2 + b3)
  {
    ReverseDigit(w + 3, b0, 8 * rest + 4 * b3 + 2 * b2 + b1, high);
    ReverseDigit(w + 2, b1, 4 * rest + 2 * b3 + b2, 2 * high + b0);
    ReverseDigit(w + 1, b2, 2 * rest + b3, 4 * high + 2 * b0 + b1);
    ReverseDigit(w, b3, rest, 8 * high + 4 * b0 + 2 * b1 + b2);
  }

  /** One shift of a register of w + 1 bits, seen in reverse. */
  lemma ReverseShift(w: nat, a: Poly)
    requires a < Pow2(w + 1)
    ensures Reverse(w + 1, 2 * Low(a, w)) == Reverse(w + 1, a) / 2
    ensures Reverse(w + 1, a) % 2 == Shr(a, w)
  {
    ReverseTop(w, a);
    ShlZero(w);
    TopBit(w, a);
  }

  lemma {:induction false} TopBit(w: nat, a: Poly)
    requires a < Pow2(w + 1)
    ensures Shr(a, w) < 2
  {
    if w > 0 {
      TopBit(w - 1, a / 2);
    }
  }

  lemma {:induction false} LowOfSum(x: Poly, k: nat, y: Poly)
    requires y < Pow2(k)
    ensures Low(Shl(x, k) + y, k) == y
  {
    if k > 0 {
      assert (Shl(x, k) + y) / 2 == Shl(x, k - 1) + y / 2 && (Shl(x, k) + y) % 2 == y % 2;
      LowOfSum(x, k - 1, y / 2);
    }
  }

  /** Reversing twice gives the number back. */
  lemma {:induction false} ReverseReverse(w: nat, a: Poly)
    requires a < Pow2(w)
    ensures Reverse(w, Reverse(w, a)) == a
  {
    if w > 0 {
      var d := Reverse(w - 1, a / 2);
      ReverseReverse(w - 1, a / 2);
      ReverseBelow(w, a);
      ReverseBelow(w - 1, a / 2);
      ReverseTop(w - 1, Reverse(w, a));
      ShrOfSum(a % 2, 0, w - 1, d);
      ShrOfSmall(d, w - 1);
      LowOfSum(a % 2, w - 1, d);
    }
  }
}
