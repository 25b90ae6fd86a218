/** Shift registers for cyclic redundancy checks, for any width w, generator x^w + poly and preset:
    the form that shifts towards the highest coefficient, its reflected form, and what they compute. */
module CrcRegister {
  import opened Gf2

  type Bit = n: nat | n < 2

  /** The first bit of a message is its highest coefficient. */
  function Message(bits: seq<Bit>): Poly {
    if bits == [] then 0 else 2 * Message(bits[..|bits| - 1]) + bits[|bits| - 1]
  }

  /** Coefficient by coefficient. */
  lemma {:induction false} MessageBit(bits: seq<Bit>, i: nat)
    requires i < |bits|
    ensures Shr(Message(bits), |bits| - 1 - i) % 2 == bits[i]
    decreases |bits|
  {
    var front := bits[..|bits| - 1];
    assert Message(bits) / 2 == Message(front);
    if i < |front| {
      MessageBit(front, i);
    }
  }

  /** preset * x^n + M * x^w, where M is the message of n bits. */
  function Dividend(w: nat, preset: Poly, bits: seq<Bit>): Poly {
    Add(preset * Pow2(|bits|), Message(bits) * Pow2(w))
  }

  function Generator(w: nat, poly: Poly): Poly {
    Pow2(w) + poly
  }

  function Step(w: nat, poly: Poly, crc: Poly, bit: Bit): Poly
    requires w > 0
  {
    var shifted := 2 * crc % Pow2(w);
    if crc / Pow2(w - 1) == bit then shifted else Add(shifted, poly)
  }

  function Crc(w: nat, poly: Poly, preset: Poly, bits: seq<Bit>): Poly
    requires w > 0
  {
    if bits == [] then preset
    else Step(w, poly, Crc(w, poly, preset, bits[..|bits| - 1]), bits[|bits| - 1])
  }

  function ReflectedStep(poly: Poly, crc: Poly, bit: Bit): Poly {
    if crc % 2 == bit then crc / 2 else Add(crc / 2, poly)
  }

  function ReflectedCrc(poly: Poly, preset: Poly, bits: seq<Bit>): Poly {
    if bits == [] then preset
    else ReflectedStep(poly, ReflectedCrc(poly, preset, bits[..|bits| - 1]), bits[|bits| - 1])
  }

  lemma CrcSnoc(w: nat, poly: Poly, preset: Poly, bits: seq<Bit>, bit: Bit)
    requires w > 0
    ensures Crc(w, poly, preset, bits + [bit]) == Step(w, poly, Crc(w, poly, preset, bits), bit)
  {
    assert (bits + [bit])[..|bits|] == bits;
  }

  lemma ReflectedCrcSnoc(poly: Poly, preset: Poly, bits: seq<Bit>, bit: Bit)
    ensures ReflectedCrc(poly, preset, bits + [bit]) == ReflectedStep(poly, ReflectedCrc(poly, preset, bits), bit)
  {
    assert (bits + [bit])[..|bits|] == bits;
  }

  lemma StepBelow(w: nat, poly: Poly, crc: Poly, bit: Bit)
    requires w > 0 && poly < Pow2(w)
    ensures Step(w, poly, crc, bit) < Pow2(w)
  {
    AddBelow(w, 2 * crc % Pow2(w), poly);
  }

  lemma {:induction false} CrcBelow(w: nat, poly: Poly, preset: Poly, bits: seq<Bit>)
    requires w > 0 && poly < Pow2(w) && preset < Pow2(w)
    ensures Crc(w, poly, preset, bits) < Pow2(w)
  {
    if bits != [] {
      StepBelow(w, poly, Crc(w, poly, preset, bits[..|bits| - 1]), bits[|bits| - 1]);
    }
  }

  lemma ShiftedRegister(w: nat, crc: Poly)
    requires w > 0
    ensures 2 * crc % Pow2(w) == 2 * (crc % Pow2(w - 1)) == 2 * Low(crc, w - 1)
  {
    DoubleMod(crc, Pow2(w - 1));
    ShiftsAreDivisions(crc, w - 1);
  }

  /** The top coefficient and the rest of a register of w bits. */
  lemma RegisterParts(w: nat, crc: Poly)
    requires w > 0 && crc < Pow2(w)
    ensures crc / Pow2(w - 1) == Shr(crc, w - 1) < 2
    ensures 2 * crc == Shl(crc / Pow2(w - 1), w) + 2 * crc % Pow2(w)
  {
    ShiftedRegister(w, crc);
    ShiftsAreDivisions(crc, w - 1);
    TopBit(w - 1, crc);
    ShiftsAreDivisions(crc / Pow2(w - 1), w - 1);
  }

  /** One step of a division by x^k + poly, on a register with top coefficient `top`. */
  lemma DivisionStep(k: nat, top: Bit, low: Poly, bit: Bit, poly: Poly)
    requires low < Pow2(k) && poly < Pow2(k)
    ensures Add(Shl(top, k) + low, Shl(bit, k))
         == if top == bit then low else Add(Shl(1, k) + poly, Add(low, poly))
  {
    ShlZero(k);
    AddSplit(k, top, low, bit, 0);
    AddZero(low);
    if top != bit {
      AddBelow(k, low, poly);
      AddSplit(k, 1, poly, 0, Add(low, poly));
      AddComm(low, poly);
      AddAssoc(poly, poly, low);
      AddSelf(poly);
    }
  }

  /** One step multiplies the register by x, brings in the bit at x^w and takes the generator away if
      the sum reaches x^w. */
  lemma StepIsDivision(w: nat, poly: Poly, crc: Poly, bit: Bit)
    requires w > 0 && poly < Pow2(w) && crc < Pow2(w)
    ensures Add(2 * crc, Shl(bit, w))
         == Add(if crc / Pow2(w - 1) == bit then 0 else Generator(w, poly), Step(w, poly, crc, bit))
  {
    RegisterParts(w, crc);
    DivisionStep(w, crc / Pow2(w - 1), 2 * crc % Pow2(w), bit, poly);
    AddZero(Step(w, poly, crc, bit));
    ShlOne(w);
  }

  lemma DividendSnoc(w: nat, preset: Poly, bits: seq<Bit>, bit: Bit)
    ensures Dividend(w, preset, bits + [bit]) == Add(2 * Dividend(w, preset, bits), Shl(bit, w))
  {
    assert (bits + [bit])[..|bits|] == bits;
    var m := Message(bits);
    var p := preset * Pow2(|bits|);
    assert preset * Pow2(|bits| + 1) == 2 * p;
    ShiftsAreDivisions(m, w);
    ShiftsAreDivisions(2 * m + bit, w);
    ShlSum(m, bit, w);
    AddDouble(p, Shl(m, w));
    AddAssoc(2 * p, 2 * Shl(m, w), Shl(bit, w));
  }

  lemma {:induction false} ShlSum(m: Poly, bit: Bit, k: nat)
    ensures Shl(2 * m + bit, k) == Add(2 * Shl(m, k), Shl(bit, k))
  {
    if k == 0 {
      AddZero(m);
      assert 2 * m / 2 == m && bit / 2 == 0;
    } else {
      ShlSum(m, bit, k - 1);
    }
  }

  /** The quotient of the division the register performs. */
  lemma {:induction false} Quotient(w: nat, poly: Poly, preset: Poly, bits: seq<Bit>) returns (q: nat)
    requires w > 0 && poly < Pow2(w) && preset < Pow2(w)
    ensures Dividend(w, preset, bits) == Add(Mul(q, Generator(w, poly)), Crc(w, poly, preset, bits))
    decreases |bits|
  {
    var g := Generator(w, poly);
    if |bits| == 0 {
      q := 0;
      AddZero(preset);
    } else {
      var front, bit := bits[..|bits| - 1], bits[|bits| - 1];
      assert front + [bit] == bits;
      q := Quotient(w, poly, preset, front);
      var c, m := Crc(w, poly, preset, front), Mul(q, g);
      CrcBelow(w, poly, preset, front);
      DividendSnoc(w, preset, front, bit);
      StepIsDivision(w, poly, c, bit);
      AddDouble(m, c);
      AddAssoc(2 * m, 2 * c, Shl(bit, w));
      var taken := if c / Pow2(w - 1) == bit then 0 else g;
      AddAssoc(2 * m, taken, Crc(w, poly, preset, bits));
      AddZero(2 * m);
      MulDouble(q, g);
      q := if taken == 0 then 2 * q else 2 * q + 1;
    }
  }

  /** For every bit string the register holds the remainder of the dividend by the generator, and
      nothing else is one. */
  lemma CrcIsTheRemainder(w: nat, poly: Poly, preset: Poly, bits: seq<Bit>, r: Poly)
    requires w > 0 && poly < Pow2(w) && preset < Pow2(w)
    ensures IsRemainder(r, Dividend(w, preset, bits), Generator(w, poly), w) <==> r == Crc(w, poly, preset, bits)
  {
    var q := Quotient(w, poly, preset, bits);
    var c := Crc(w, poly, preset, bits);
    CrcBelow(w, poly, preset, bits);
    assert IsRemainder(c, Dividend(w, preset, bits), Generator(w, poly), w);
    if IsRemainder(r, Dividend(w, preset, bits), Generator(w, poly), w) {
      RemainderIsUnique(r, c, Dividend(w, preset, bits), Generator(w, poly), w);
    }
  }

  lemma ReflectStep(w: nat, poly: Poly, crc: Poly, bit: Bit)
    requires w > 0 && poly < Pow2(w) && crc < Pow2(w)
    ensures Reverse(w, Step(w, poly, crc, bit)) == ReflectedStep(Reverse(w, poly), Reverse(w, crc), bit)
  {
    RegisterParts(w, crc);
    ShiftedRegister(w, crc);
    ReverseShift(w - 1, crc);
    ReverseAdd(w, 2 * Low(crc, w - 1), poly);
  }

  /** After every bit the two registers are each other's reversal. */
  lemma {:induction false} FormsAgree(w: nat, poly: Poly, preset: Poly, bits: seq<Bit>)
    requires w > 0 && poly < Pow2(w) && preset < Pow2(w)
    ensures Reverse(w, Crc(w, poly, preset, bits)) == ReflectedCrc(Reverse(w, poly), Reverse(w, preset), bits)
    ensures Reverse(w, ReflectedCrc(Reverse(w, poly), Reverse(w, preset), bits)) == Crc(w, poly, preset, bits)
    decreases |bits|
  {
    if bits != [] {
      var front := bits[..|bits| - 1];
      FormsAgree(w, poly, preset, front);
      CrcBelow(w, poly, preset, front);
      ReflectStep(w, poly, Crc(w, poly, preset, front), bits[|bits| - 1]);
    }
    CrcBelow(w, poly, preset, bits);
    ReverseReverse(w, Crc(w, poly, preset, bits));
  }
}
