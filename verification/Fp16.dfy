/**
  Conversions to and from binary16.  Encodings are natural numbers, and the exact value of
  every finite float, double and half is an integer number of units of 2^-u, for any u of at
  least 1074, so that rounding is judged on exact values.
 */
module Fp16 {
  // -------------------------------------------------------------------------
  // Powers of two
  // -------------------------------------------------------------------------

  function Pow2(n: nat): (p: nat)
    ensures p > 0
  {
    if n == 0 then 1 else 2 * Pow2(n - 1)
  }

  lemma {:induction false} Pow2Add(a: nat, b: nat)
    ensures Pow2(a + b) == Pow2(a) * Pow2(b)
  {
    if a > 0 {
      Pow2Add(a - 1, b);
      assert Pow2(a) * Pow2(b) == 2 * (Pow2(a - 1) * Pow2(b));
    }
  }

  lemma {:induction false} Pow2Monotone(a: nat, b: nat)
    requires a <= b
    ensures Pow2(a) <= Pow2(b)
    decreases b - a
  {
    if a < b {
      Pow2Monotone(a + 1, b);
    }
  }

  lemma Pow2Values()
    ensures Pow2(10) == 0x400 && Pow2(12) == 0x1000 && Pow2(13) == 0x2000 && Pow2(23) == 0x80_0000
    ensures Pow2(42) == 0x400_0000_0000 && Pow2(52) == 0x10_0000_0000_0000
  {
    assert Pow2(5) == 32;
    Pow2Add(5, 5);
    Pow2Add(10, 3);
    Pow2Add(10, 10);
    Pow2Add(13, 10);
    Pow2Add(20, 20);
    Pow2Add(40, 2);
    Pow2Add(42, 10);
  }

  // -------------------------------------------------------------------------
  // Exact values
  // -------------------------------------------------------------------------

  type Bits16 = n: nat | n < 0x1_0000
  type Bits32 = n: nat | n < 0x1_0000_0000
  type Bits64 = n: nat | n < 0x1_0000_0000_0000_0000

  datatype Kind = Finite | Infinite | NaN

  function KindOf(exponent: nat, significand: nat, top: nat): Kind {
    if exponent != top then Finite else if significand == 0 then Infinite else NaN
  }

  function Negative16(h: Bits16): bool { h / 0x8000 == 1 }
  function Exponent16(h: Bits16): nat { h / 0x400 % 32 }
  function Significand16(h: Bits16): nat { h % 0x400 }
  function Kind16(h: Bits16): Kind { KindOf(Exponent16(h), Significand16(h), 31) }

  function Negative32(b: Bits32): bool { b / 0x8000_0000 == 1 }
  function Exponent32(b: Bits32): nat { b / 0x80_0000 % 256 }
  function Significand32(b: Bits32): nat { b % 0x80_0000 }
  function Kind32(b: Bits32): Kind { KindOf(Exponent32(b), Significand32(b), 255) }

  function Negative64(b: Bits64): bool { b / 0x8000_0000_0000_0000 == 1 }
  function Exponent64(b: Bits64): nat { b / 0x10_0000_0000_0000 % 2048 }
  function Significand64(b: Bits64): nat { b % 0x10_0000_0000_0000 }
  function Kind64(b: Bits64): Kind { KindOf(Exponent64(b), Significand64(b), 2047) }

  /** A magnitude with the given fields, in units of its format's smallest subnormal. */
  function Scaled(exponent: nat, significand: nat, hidden: nat): nat {
    if exponent == 0 then significand else (hidden + significand) * Pow2(exponent - 1)
  }

  /** The magnitude of a half without its sign bit.  One past the largest finite half, where
      infinity is encoded, counts as 2^16: this is where rounding overflows to. */
  ghost function Half(u: nat, code: nat): nat
    requires u >= 1074
  {
    Scaled(code / 0x400, code % 0x400, 0x400) * Pow2(u - 24)
  }

  ghost function Magnitude32(u: nat, b: Bits32): nat
    requires u >= 1074
  {
    Scaled(Exponent32(b), Significand32(b), 0x80_0000) * Pow2(u - 149)
  }

  ghost function Magnitude64(u: nat, b: Bits64): nat
    requires u >= 1074
  {
    Scaled(Exponent64(b), Significand64(b), 0x10_0000_0000_0000) * Pow2(u - 1074)
  }

  // -------------------------------------------------------------------------
  // Round to nearest, ties to even
  // -------------------------------------------------------------------------

  const INFINITY: nat := 0x7C00

  /** The values that codes stand for. */
  type Values = nat -> nat

  ghost function Distance(v: nat, w: nat): nat { if v < w then w - v else v - w }

  /** code is nearer to v than d, or as near and even. */
  ghost predicate Beats(value: Values, v: nat, code: nat, d: nat) {
    var x, y := Distance(v, value(code)), Distance(v, value(d));
    x < y || (x == y && code % 2 == 0)
  }

  /** No code up to infinity is nearer to v, and if another one is as near, this is the even one. */
  ghost predicate IsNearestEven(value: Values, v: nat, code: nat) {
    && code <= INFINITY
    && forall d {:trigger Beats(value, v, code, d)} :: 0 <= d <= INFINITY && d != code ==> Beats(value, v, code, d)
  }

  ghost predicate Increasing(value: Values) {
    forall c: nat, d: nat {:trigger value(c), value(d)} :: c < d ==> value(c) < value(d)
  }

  /** Two even codes have another one between them, so only one of them can be nearest. */
  lemma NearestIsUnique(value: Values, v: nat, c: nat, d: nat)
    requires Increasing(value) && IsNearestEven(value, v, c) && IsNearestEven(value, v, d)
    ensures c == d
  {
    if c < d {
      NotBothNearest(value, v, c, d);
    } else if d < c {
      NotBothNearest(value, v, d, c);
    }
  }

  lemma NotBothNearest(value: Values, v: nat, c: nat, d: nat)
    requires Increasing(value) && c < d
    ensures !(Beats(value, v, c, d) && Beats(value, v, d, c) && Beats(value, v, c, c + 1))
  {
    assert value(c) < value(c + 1) && (c + 1 < d ==> value(c + 1) < value(d));
  }

  /** One more when the bits shifted out are more than half, or half and out is odd. */
  function RoundedUp(out: nat, rem: nat, half: nat): (r: nat)
    ensures out <= r <= out + 1
  {
    if rem > half || (rem == half && out % 2 == 1) then out + 1 else out
  }

  lemma {:induction false} Parity(q: nat, m: nat)
    ensures (q + 2 * m) % 2 == q % 2
  {
    if m > 0 {
      Parity(q, m - 1);
    }
  }

  lemma RoundedUpShifts(q: nat, e: nat, rem: nat, half: nat)
    requires e > 0
    ensures RoundedUp(q + (e - 1) * 0x400, rem, half) == RoundedUp(q, rem, half) + (e - 1) * 0x400
  {
    Parity(q, (e - 1) * 0x200);
  }

  /** One of two neighbours around v, if it beats the other, beats every code. */
  lemma NeighbourIsNearest(value: Values, v: nat, c: nat, r: nat)
    requires Increasing(value) && c < INFINITY && value(c) <= v <= value(c + 1)
    requires (r == c && Beats(value, v, c, c + 1)) || (r == c + 1 && Beats(value, v, c + 1, c))
    ensures IsNearestEven(value, v, r)
  {
    forall d | 0 <= d <= INFINITY && d != r
      ensures Beats(value, v, r, d)
    {
      assert d < c ==> value(d) < value(c);
      assert c + 1 < d ==> value(c + 1) < value(d);
    }
  }

  /** Rounding between two neighbours: v is rem of the 2 * half parts of the gap above c. */
  lemma RoundBetween(value: Values, v: nat, c: nat, rem: nat, half: nat, part: nat)
    requires Increasing(value) && c < INFINITY && part > 0 && rem < 2 * half
    requires v == value(c) + rem * part && value(c + 1) == value(c) + 2 * half * part
    ensures IsNearestEven(value, v, RoundedUp(c, rem, half))
  {
    Compare(rem, half, part);
    NeighbourIsNearest(value, v, c, RoundedUp(c, rem, half));
  }

  lemma Compare(rem: nat, half: nat, u: nat)
    requires u > 0
    ensures rem < half ==> 2 * (rem * u) < 2 * half * u
    ensures rem > half ==> 2 * (rem * u) > 2 * half * u
    ensures rem == half ==> 2 * (rem * u) == 2 * half * u
    ensures rem < 2 * half ==> rem * u < 2 * half * u
  {
    assert 2 * half * u - 2 * (rem * u) == 2 * ((half - rem) * u);
    assert 2 * half * u - rem * u == (2 * half - rem) * u;
  }

  lemma RoundToInfinity(value: Values, v: nat)
    requires Increasing(value) && v >= value(INFINITY)
    ensures IsNearestEven(value, v, INFINITY)
  {
    forall d | 0 <= d <= INFINITY && d != INFINITY
      ensures Beats(value, v, INFINITY, d)
    {
      assert value(d) < value(INFINITY);
    }
  }

  lemma ExactIsNearest(value: Values, c: nat)
    requires Increasing(value) && c <= INFINITY
    ensures IsNearestEven(value, value(c), c)
  {
    forall d | 0 <= d <= INFINITY && d != c
      ensures Beats(value, value(c), c, d)
    {
      assert value(d) < value(c) || value(c) < value(d);
    }
  }

  // -------------------------------------------------------------------------
  // The values of halves
  // -------------------------------------------------------------------------

  ghost function Halves(u: nat): Values
    requires u >= 1074
  {
    (code: nat) => Half(u, code)
  }

  /** The gap above a code. */
  ghost function Gap(u: nat, code: nat): nat
    requires u >= 1074
  {
    Pow2(if code < 0x400 then u - 24 else code / 0x400 + u - 25)
  }

  lemma HalfStep(u: nat, code: nat)
    requires u >= 1074
    ensures Half(u, code + 1) == Half(u, code) + Gap(u, code)
    ensures code >= 0x400 ==> Half(u, code) == (0x400 + code % 0x400) * Gap(u, code)
    ensures code < 0x400 ==> Half(u, code) == code * Gap(u, code)
  {
    var e := code / 0x400;
    if code < 0x400 {
      HalfBelow(u, code);
    } else {
      HalfAbove(u, code);
      if code % 0x400 == 0x3FF {
        assert (code + 1) / 0x400 == e + 1 && (code + 1) % 0x400 == 0;
        HalfAbove(u, code + 1);
      } else {
        assert (code + 1) / 0x400 == e && (code + 1) % 0x400 == code % 0x400 + 1;
        HalfAbove(u, code + 1);
        Distribute(0x400 + code % 0x400, 1, Gap(u, code));
      }
    }
  }

  lemma Distribute(a: nat, b: nat, u: nat)
    ensures (a + b) * u == a * u + b * u
  {
  }

  lemma HalfAbove(u: nat, code: nat)
    requires u >= 1074
    requires code >= 0x400
    ensures Half(u, code) == (0x400 + code % 0x400) * Gap(u, code)
  {
    var e := code / 0x400;
    Pow2Add(e - 1, u - 24);
    Associate(0x400 + code % 0x400, Pow2(e - 1), Pow2(u - 24));
  }

  lemma Associate(a: nat, b: nat, c: nat)
    ensures a * b * c == a * (b * c)
  {
  }

  lemma HalfBelow(u: nat, code: nat)
    requires u >= 1074
    requires code < 0x400
    ensures Half(u, code) == code * Pow2(u - 24) && Half(u, code + 1) == (code + 1) * Pow2(u - 24)
  {
    if code == 0x3FF {
      assert Half(u, 0x400) == 0x400 * Pow2(0) * Pow2(u - 24);
    }
  }

  lemma {:induction false} HalfMonotone(u: nat, c: nat, d: nat)
    requires u >= 1074 && c < d
    ensures Half(u, c) < Half(u, d)
    decreases d - c
  {
    HalfStep(u, c);
    if c + 1 < d {
      HalfMonotone(u, c + 1, d);
    }
  }

  lemma HalvesIncrease(u: nat)
    requires u >= 1074
    ensures Increasing(Halves(u))
  {
    forall c: nat, d: nat | c < d
      ensures Halves(u)(c) < Halves(u)(d)
    {
      HalfMonotone(u, c, d);
    }
  }

  lemma RoundToZero(u: nat, v: nat)
    requires u >= 1074 && v < Pow2(u - 25)
    ensures IsNearestEven(Halves(u), v, 0)
  {
    HalvesIncrease(u);
    HalfBelow(u, 0);
    RoundBetween(Halves(u), v, 0, v, Pow2(u - 25), 1);
  }

  // -------------------------------------------------------------------------
  // Narrowing a double
  // -------------------------------------------------------------------------

  /** sign | code. */
  function Signed(negative: bool, code: nat): (h: Bits16)
    requires code < 0x8000
    ensures Negative16(h) == negative && h % 0x8000 == code
  {
    if negative then 0x8000 + code else code
  }

  /** n >> k. */
  function Shr(n: nat, k: nat): nat {
    if k == 0 then n else Shr(n / 2, k - 1)
  }

  /** n & ((1 << k) - 1). */
  function LowBits(n: nat, k: nat): nat {
    if k == 0 then 0 else n % 2 + 2 * LowBits(n / 2, k - 1)
  }

  lemma {:induction false} ShiftSplits(n: nat, k: nat)
    ensures n == Shr(n, k) * Pow2(k) + LowBits(n, k) && LowBits(n, k) < Pow2(k)
  {
    if k > 0 {
      var q, p := Shr(n / 2, k - 1), Pow2(k - 1);
      ShiftSplits(n / 2, k - 1);
      TwiceProduct(q, p);
      HalfSplits(n, q * p, LowBits(n / 2, k - 1));
    }
  }

  lemma TwiceProduct(q: nat, p: nat)
    ensures q * (2 * p) == 2 * (q * p)
  {
  }

  lemma HalfSplits(n: nat, x: nat, r: nat)
    requires n / 2 == x + r
    ensures n == 2 * x + (n % 2 + 2 * r)
  {
  }

  lemma ShiftBounded(n: nat, k: nat, bound: nat)
    ensures n < bound * Pow2(k) ==> Shr(n, k) < bound
    ensures n >= bound * Pow2(k) ==> Shr(n, k) >= bound
  {
    ShiftSplits(n, k);
    QuotientBounded(n, Shr(n, k), Pow2(k), LowBits(n, k), bound);
  }

  lemma QuotientBounded(n: nat, q: nat, p: nat, r: nat, bound: nat)
    requires n == q * p + r && r < p
    ensures n < bound * p ==> q < bound
    ensures n >= bound * p ==> q >= bound
  {
    if q >= bound {
      Larger(q, bound, p, p);
    } else {
      Larger(bound - 1, q, p, p);
      Distribute(bound - 1, 1, p);
    }
  }

  /** Shift right, rounding to nearest even at the new position. */
  function ShiftedRight(full: nat, shift: nat): (out: nat)
    requires shift > 0
  {
    RoundedUp(Shr(full, shift), LowBits(full, shift), Pow2(shift - 1))
  }

  lemma Fits53(full: nat, shift: nat)
    requires full < 0x20_0000_0000_0000 && shift >= 42
    ensures Shr(full, shift) < if shift == 42 then 0x800 else 0x400
    ensures shift == 42 && full >= 0x10_0000_0000_0000 ==> Shr(full, shift) >= 0x400
  {
    Pow2Values();
    if shift == 42 {
      ShiftBounded(full, shift, 0x800);
      ShiftBounded(full, shift, 0x400);
    } else {
      Pow2Monotone(43, shift);
      ShiftBounded(full, shift, 0x400);
    }
  }

  /** from_f64 without the sign. */
  function Narrow64(rawexp: nat, sig: nat): (code: nat)
    requires sig < 0x10_0000_0000_0000
    ensures code <= 0x7E00
  {
    if rawexp == 0x7FF then if sig != 0 then 0x7E00 else 0x7C00
    else
      var exp := rawexp - 1023 + 15;
      if exp >= 0x1F then 0x7C00
      else if rawexp == 0 && sig == 0 then 0
      else
        var full := if rawexp == 0 then sig else sig + 0x10_0000_0000_0000;
        var e := if rawexp == 0 then 1 - 1023 + 15 else exp;
        var shift := if e <= 0 then 42 + 1 - e else 42;
        if shift > 63 then 0
        else
          Fits53(full, shift);
          var out := ShiftedRight(full, shift);
          if e > 0 then
            var moved := out + (e - 1) * 0x400;
            if moved >= 0x7C00 then 0x7C00 else moved
          else out
  }

  function FromF64(bits: Bits64): (h: Bits16) {
    Signed(Negative64(bits), Narrow64(Exponent64(bits), Significand64(bits)))
  }

  /** Finite doubles are correctly rounded; infinities and NaNs stay what they are. */
  lemma FromF64Rounds(u: nat, bits: Bits64)
    requires u >= 1074
    ensures var h := FromF64(bits);
            && Negative16(h) == Negative64(bits)
            && match Kind64(bits)
               case Finite => IsNearestEven(Halves(u), Magnitude64(u, bits), h % 0x8000)
               case Infinite => h % 0x8000 == 0x7C00
               case NaN => h % 0x8000 == 0x7E00
  {
    var rawexp, sig := Exponent64(bits), Significand64(bits);
    if rawexp != 0x7FF {
      Narrow64Rounds(u, rawexp, sig);
    }
  }

  lemma Narrow64Rounds(u: nat, rawexp: nat, sig: nat)
    requires u >= 1074 && sig < 0x10_0000_0000_0000 && rawexp < 0x7FF
    ensures IsNearestEven(Halves(u), Scaled(rawexp, sig, 0x10_0000_0000_0000) * Pow2(u - 1074), Narrow64(rawexp, sig))
  {
    if rawexp == 0 {
      Pow2Below(u, sig, u - 1074);
      RoundToZero(u, sig * Pow2(u - 1074));
    } else {
      var full := sig + 0x10_0000_0000_0000;
      Pow2Add(rawexp - 1, u - 1074);
      Associate(full, Pow2(rawexp - 1), Pow2(u - 1074));
      if rawexp >= 1039 {
        TooLarge64(u, rawexp, full);
      } else if rawexp > 1008 {
        Normal64(u, rawexp - 1008, full);
      } else if rawexp >= 988 {
        Subnormal64(u, rawexp - 1008, full);
      } else {
        Pow2Below(u, full, rawexp + u - 1075);
        RoundToZero(u, full * Pow2(rawexp + u - 1075));
      }
    }
  }

  lemma TooLarge64(u: nat, rawexp: nat, full: nat)
    requires u >= 1074 && rawexp >= 1039 && full >= 0x10_0000_0000_0000
    ensures IsNearestEven(Halves(u), full * Pow2(rawexp + u - 1075), INFINITY)
  {
    var n := rawexp + u - 1075;
    Pow2Monotone(u - 36, n);
    Pow2Values();
    Pow2Add(42, u - 36);
    HalfAbove(u, INFINITY);
    Larger(full, 0x400 * 0x400_0000_0000, Pow2(n), Pow2(u - 36));
    Associate(0x400, 0x400_0000_0000, Pow2(u - 36));
    HalvesIncrease(u);
    RoundToInfinity(Halves(u), full * Pow2(n));
  }

  lemma Larger(a: nat, b: nat, x: nat, y: nat)
    requires a >= b && x >= y
    ensures a * x >= b * y
  {
    assert a * x >= b * x;
  }

  /** A double below 2^-36 or so. */
  lemma Pow2Below(u: nat, full: nat, n: nat)
    requires u >= 1074 && full < 0x20_0000_0000_0000 && n <= u - 88
    ensures full * Pow2(n) < Pow2(u - 25)
  {
    Pow2Values();
    Pow2Monotone(n + 54, u - 25);
    Pow2Add(52, n);
    Larger(0x20_0000_0000_0000, full, Pow2(n), Pow2(n));
  }

  lemma Normal64(u: nat, e: nat, full: nat)
    requires u >= 1074 && 0 < e < 0x1F && 0x10_0000_0000_0000 <= full < 0x20_0000_0000_0000
    ensures var moved := ShiftedRight(full, 42) + (e - 1) * 0x400;
            IsNearestEven(Halves(u), full * Pow2(e + u - 67), if moved >= 0x7C00 then 0x7C00 else moved)
  {
    Fits53(full, 42);
    ShiftSplits(full, 42);
    RoundNormal(u, e, full, 42, Shr(full, 42), LowBits(full, 42), e + u - 67);
  }

  /** A normal result: the significand's top eleven bits are q, hidden bit included. */
  lemma RoundNormal(u: nat, e: nat, full: nat, shift: nat, q: nat, rem: nat, scale: nat)
    requires u >= 1074 && 0 < e < 0x1F && 0x400 <= q < 0x800
    requires shift > 0 && full == q * Pow2(shift) + rem && rem < Pow2(shift) && shift + scale == e + u - 25
    ensures IsNearestEven(Halves(u), full * Pow2(scale), RoundedUp(q, rem, Pow2(shift - 1)) + (e - 1) * 0x400)
  {
    SplitValue(full, q, rem, shift, scale);
    HalfNormal(u, q, e);
    RoundedUpShifts(q, e, rem, Pow2(shift - 1));
    HalvesIncrease(u);
    RoundBetween(Halves(u), full * Pow2(scale), q + (e - 1) * 0x400, rem, Pow2(shift - 1), Pow2(scale));
  }

  lemma HalfNormal(u: nat, q: nat, e: nat)
    requires u >= 1074 && e > 0 && 0x400 <= q < 0x800
    ensures var c := q + (e - 1) * 0x400;
            Half(u, c) == q * Pow2(e + u - 25) && Half(u, c + 1) == Half(u, c) + Pow2(e + u - 25)
  {
    CodeFields(q, e);
    HalfStep(u, q + (e - 1) * 0x400);
  }

  lemma CodeFields(q: nat, e: nat)
    requires e > 0 && 0x400 <= q < 0x800
    ensures var c := q + (e - 1) * 0x400; c / 0x400 == e && c % 0x400 == q - 0x400
  {
    var c := q + (e - 1) * 0x400;
    assert c == e * 0x400 + (q - 0x400);
  }

  lemma Subnormal64(u: nat, e: int, full: nat)
    requires u >= 1074 && -20 <= e <= 0 && 0x10_0000_0000_0000 <= full < 0x20_0000_0000_0000
    ensures IsNearestEven(Halves(u), full * Pow2(e + u - 67), ShiftedRight(full, 43 - e))
  {
    var shift := 43 - e;
    Fits53(full, shift);
    ShiftSplits(full, shift);
    RoundSubnormal(u, full, shift, Shr(full, shift), LowBits(full, shift), e + u - 67);
  }

  lemma RoundSubnormal(u: nat, full: nat, shift: nat, q: nat, rem: nat, scale: nat)
    requires u >= 1074 && q < 0x400
    requires shift > 0 && full == q * Pow2(shift) + rem && rem < Pow2(shift) && shift + scale == u - 24
    ensures IsNearestEven(Halves(u), full * Pow2(scale), RoundedUp(q, rem, Pow2(shift - 1)))
  {
    SplitValue(full, q, rem, shift, scale);
    HalfBelow(u, q);
    HalvesIncrease(u);
    RoundBetween(Halves(u), full * Pow2(scale), q, rem, Pow2(shift - 1), Pow2(scale));
  }

  /** A significand cut in two at a bit, scaled. */
  lemma SplitValue(full: nat, q: nat, rem: nat, shift: nat, scale: nat)
    requires shift > 0 && full == q * Pow2(shift) + rem
    ensures full * Pow2(scale) == q * Pow2(shift + scale) + rem * Pow2(scale)
    ensures 2 * Pow2(shift - 1) * Pow2(scale) == Pow2(shift + scale)
  {
    Pow2Add(shift, scale);
    Distribute(q * Pow2(shift), rem, Pow2(scale));
    Associate(q, Pow2(shift), Pow2(scale));
  }

  // -------------------------------------------------------------------------
  // Narrowing a float
  // -------------------------------------------------------------------------

  /** from_f32 without the sign. */
  function Narrow32(rawexp: nat, sig: nat): (code: nat)
    requires sig < 0x80_0000
    ensures code <= 0x7E00
  {
    var exp := rawexp - 127 + 15;
    if rawexp == 0xFF then if sig != 0 then 0x7E00 else 0x7C00
    else if exp >= 0x1F then 0x7C00
    else if exp <= 0 then
      if exp < -10 then 0
      else
        Fits24(sig + 0x80_0000, 14 - exp);
        ShiftedRight(sig + 0x80_0000, 14 - exp)
    else
      Fits24(sig + 0x80_0000, 13);
      RoundedUp(exp * 0x400 + Shr(sig, 13), LowBits(sig, 13), 0x1000)
  }

  lemma Fits24(full: nat, shift: nat)
    requires 0x80_0000 <= full < 0x100_0000 && shift >= 13
    ensures shift > 13 ==> Shr(full, shift) < 0x400
    ensures shift == 13 ==> Shr(full - 0x80_0000, shift) < 0x400
  {
    Pow2Values();
    if shift == 13 {
      ShiftBounded(full - 0x80_0000, shift, 0x400);
    } else {
      Pow2Monotone(14, shift);
      ShiftBounded(full, shift, 0x400);
    }
  }

  function FromF32(bits: Bits32): (h: Bits16) {
    Signed(Negative32(bits), Narrow32(Exponent32(bits), Significand32(bits)))
  }

  lemma FromF32Rounds(u: nat, bits: Bits32)
    requires u >= 1074
    ensures var h := FromF32(bits);
            && Negative16(h) == Negative32(bits)
            && match Kind32(bits)
               case Finite => IsNearestEven(Halves(u), Magnitude32(u, bits), h % 0x8000)
               case Infinite => h % 0x8000 == 0x7C00
               case NaN => h % 0x8000 == 0x7E00
  {
    var rawexp, sig := Exponent32(bits), Significand32(bits);
    if rawexp != 0xFF {
      Narrow32Rounds(u, rawexp, sig);
    }
  }

  lemma Narrow32Rounds(u: nat, rawexp: nat, sig: nat)
    requires u >= 1074 && sig < 0x80_0000 && rawexp < 0xFF
    ensures IsNearestEven(Halves(u), Scaled(rawexp, sig, 0x80_0000) * Pow2(u - 149), Narrow32(rawexp, sig))
  {
    if rawexp == 0 {
      Small32(u, sig, u - 149);
      RoundToZero(u, sig * Pow2(u - 149));
    } else {
      var full := sig + 0x80_0000;
      Pow2Add(rawexp - 1, u - 149);
      Associate(full, Pow2(rawexp - 1), Pow2(u - 149));
      if rawexp >= 143 {
        TooLarge32(u, rawexp, full);
      } else if rawexp > 112 {
        Normal32(u, rawexp - 112, sig);
      } else if rawexp >= 102 {
        Subnormal32(u, rawexp - 112, full);
      } else {
        Small32(u, full, rawexp + u - 150);
        RoundToZero(u, full * Pow2(rawexp + u - 150));
      }
    }
  }

  lemma TooLarge32(u: nat, rawexp: nat, full: nat)
    requires u >= 1074 && rawexp >= 143 && full >= 0x80_0000
    ensures IsNearestEven(Halves(u), full * Pow2(rawexp + u - 150), INFINITY)
  {
    var n := rawexp + u - 150;
    Pow2Monotone(u - 7, n);
    Pow2Values();
    Pow2Add(13, u - 7);
    HalfAbove(u, INFINITY);
    Larger(full, 0x400 * 0x2000, Pow2(n), Pow2(u - 7));
    Associate(0x400, 0x2000, Pow2(u - 7));
    HalvesIncrease(u);
    RoundToInfinity(Halves(u), full * Pow2(n));
  }

  lemma Small32(u: nat, full: nat, n: nat)
    requires u >= 1074 && full < 0x100_0000 && n <= u - 49
    ensures full * Pow2(n) < Pow2(u - 25)
  {
    Pow2Values();
    Pow2Monotone(n + 24, u - 25);
    Pow2Add(23, n);
    Larger(0x100_0000 - 1, full, Pow2(n), Pow2(n));
  }

  lemma Normal32(u: nat, e: nat, sig: nat)
    requires u >= 1074 && 0 < e < 0x1F && sig < 0x80_0000
    ensures IsNearestEven(Halves(u), (sig + 0x80_0000) * Pow2(e + u - 38),
                          RoundedUp(e * 0x400 + Shr(sig, 13), LowBits(sig, 13), 0x1000))
  {
    var q, rem := Shr(sig, 13) + 0x400, LowBits(sig, 13);
    Pow2Values();
    Fits24(sig + 0x80_0000, 13);
    ShiftSplits(sig, 13);
    RoundNormal(u, e, sig + 0x80_0000, 13, q, rem, e + u - 38);
    RoundedUpShifts(q, e, rem, 0x1000);
  }

  lemma Subnormal32(u: nat, e: int, full: nat)
    requires u >= 1074 && -10 <= e <= 0 && 0x80_0000 <= full < 0x100_0000
    ensures IsNearestEven(Halves(u), full * Pow2(e + u - 38), ShiftedRight(full, 14 - e))
  {
    var shift := 14 - e;
    Fits24(full, shift);
    ShiftSplits(full, shift);
    RoundSubnormal(u, full, shift, Shr(full, shift), LowBits(full, shift), e + u - 38);
  }

  /** b and w are the same number, or the same infinity, or both NaN, with the same sign. */
  ghost predicate SameFloat(u: nat, b: Bits32, w: Bits64)
    requires u >= 1074
  {
    && Negative32(b) == Negative64(w) && Kind32(b) == Kind64(w)
    && (Kind32(b) == Finite ==> Magnitude32(u, b) == Magnitude64(u, w))
  }

  /** Narrowing a float, or the double that is exactly its value, makes no difference. */
  lemma NarrowingAgrees(u: nat, b: Bits32, w: Bits64)
    requires u >= 1074 && SameFloat(u, b, w)
    ensures FromF32(b) == FromF64(w)
  {
    FromF32Rounds(u, b);
    FromF64Rounds(u, w);
    var h, k := FromF32(b), FromF64(w);
    if Kind32(b) == Finite {
      HalvesIncrease(u);
      NearestIsUnique(Halves(u), Magnitude32(u, b), h % 0x8000, k % 0x8000);
    }
    SameHalf(h, k);
  }

  lemma SameHalf(h: Bits16, k: Bits16)
    requires Negative16(h) == Negative16(k) && h % 0x8000 == k % 0x8000
    ensures h == k
  {
  }

  // -------------------------------------------------------------------------
  // Widening
  // -------------------------------------------------------------------------

  /** b is exactly h. */
  ghost predicate Widened(u: nat, h: Bits16, b: Bits32)
    requires u >= 1074
  {
    && Negative32(b) == Negative16(h) && Kind32(b) == Kind16(h)
    && match Kind16(h)
       case Finite => Magnitude32(u, b) == Half(u, h % 0x8000)
       case Infinite => true
       case NaN => Significand32(b) == Significand16(h) * 0x2000
  }

  /** sign | (exponent << 23) | (significand << 13). */
  function Assemble32(negative: bool, exponent: nat, sig: nat): (b: Bits32)
    requires exponent < 256 && sig < 0x400
    ensures Negative32(b) == negative && Exponent32(b) == exponent && Significand32(b) == sig * 0x2000
  {
    (if negative then 0x8000_0000 else 0) + exponent * 0x80_0000 + sig * 0x2000
  }

  lemma Fields16(h: Bits16)
    ensures h % 0x8000 / 0x400 == Exponent16(h) && h % 0x8000 % 0x400 == Significand16(h)
  {
  }

  /** A float assembled from eleven significant bits. */
  lemma Scale32(u: nat, e: nat, sig: nat)
    requires u >= 1074 && e > 0
    ensures Scaled(e, sig * 0x2000, 0x80_0000) * Pow2(u - 149) == (0x400 + sig) * Pow2(e + u - 137)
  {
    var x := 0x400 + sig;
    Pow2Values();
    Pow2Add(e - 1, u - 149);
    Pow2Add(13, e + u - 150);
    Associate(x * 0x2000, Pow2(e - 1), Pow2(u - 149));
    Associate(x, 0x2000, Pow2(e + u - 150));
  }

  lemma WidenNormal(u: nat, h: Bits16, b: Bits32)
    requires u >= 1074 && 0 < Exponent16(h) < 31
    requires Negative32(b) == Negative16(h)
    requires Exponent32(b) == Exponent16(h) + 112 && Significand32(b) == Significand16(h) * 0x2000
    ensures Widened(u, h, b)
  {
    Fields16(h);
    Scale32(u, Exponent32(b), Significand16(h));
    HalfAbove(u, h % 0x8000);
  }

  lemma WidenSubnormal(u: nat, h: Bits16, k: nat, sig: nat, b: Bits32)
    requires u >= 1074 && Exponent16(h) == 0 && k <= 10 && 0x400 + sig == Significand16(h) * Pow2(k)
    requires Negative32(b) == Negative16(h)
    requires Exponent32(b) == 113 - k && Significand32(b) == sig * 0x2000
    ensures Widened(u, h, b)
  {
    Fields16(h);
    Scale32(u, 113 - k, sig);
    Pow2Add(k, u - 24 - k);
    Associate(Significand16(h), Pow2(k), Pow2(u - 24 - k));
    HalfBelow(u, h % 0x8000);
  }

  lemma DoublingEnds(sig: nat, k: nat)
    requires sig > 0 && sig * Pow2(k) < 0x400
    ensures k < 10 && sig * Pow2(k + 1) == 2 * (sig * Pow2(k))
  {
    if k >= 10 {
      Pow2Values();
      Pow2Monotone(10, k);
      Larger(sig, 1, Pow2(k), Pow2(k));
    }
  }

  /** Shift a subnormal significand up to its hidden bit, and drop that; exp is 32 bits wide. */
  method Renormalise(subnormal: nat) returns (exp: nat, sig: nat, ghost k: nat)
    requires 0 < subnormal < 0x400
    ensures k <= 10 && sig < 0x400 && 0x400 + sig == subnormal * Pow2(k)
    ensures exp == (1 - k) % 0x1_0000_0000
  {
    exp, sig, k := 1, subnormal, 0;
    while sig < 0x400
      invariant k <= 10 && 0 < sig < 0x800 && sig == subnormal * Pow2(k)
      invariant exp == (1 - k) % 0x1_0000_0000
      decreases 0x800 - sig
    {
      DoublingEnds(subnormal, k);
      sig := 2 * sig;
      exp := (exp - 1) % 0x1_0000_0000;
      k := k + 1;
    }
    sig := sig - 0x400;
  }

  method ToF32(h: Bits16) returns (b: Bits32)
    ensures forall u: nat | u >= 1074 :: Widened(u, h, b)
  {
    var negative := Negative16(h);
    var exp: nat := Exponent16(h);
    var sig: nat := Significand16(h);
    Fields16(h);
    if exp == 0x1F {
      b := Assemble32(negative, 0xFF, sig);
    } else if exp == 0 {
      if sig == 0 {
        b := Assemble32(negative, 0, 0);
      } else {
        ghost var k: nat;
        exp, sig, k := Renormalise(sig);
        b := Assemble32(negative, (exp + (127 - 15)) % 0x1_0000_0000, sig);
        forall u: nat | u >= 1074 ensures Widened(u, h, b) {
          WidenSubnormal(u, h, k, sig, b);
        }
      }
    } else {
      b := Assemble32(negative, exp + (127 - 15), sig);
      forall u: nat | u >= 1074 ensures Widened(u, h, b) {
        WidenNormal(u, h, b);
      }
    }
  }

  /** Narrowing takes every half but NaN back to itself, from either wider format. */
  lemma NarrowingInvertsWidening(u: nat, h: Bits16, b: Bits32, w: Bits64)
    requires u >= 1074 && Widened(u, h, b) && SameFloat(u, b, w) && Kind16(h) != NaN
    ensures FromF32(b) == h && FromF64(w) == h
  {
    Fields16(h);
    FromF32Rounds(u, b);
    if Kind16(h) == Finite {
      HalvesIncrease(u);
      ExactIsNearest(Halves(u), h % 0x8000);
      HalvesIncrease(u);
      NearestIsUnique(Halves(u), Half(u, h % 0x8000), h % 0x8000, FromF32(b) % 0x8000);
    }
    SameHalf(FromF32(b), h);
    NarrowingAgrees(u, b, w);
  }

  /** A NaN stays a NaN and keeps its sign, but comes back quiet and without its payload. */
  lemma NarrowingNaN(u: nat, h: Bits16, b: Bits32)
    requires u >= 1074 && Widened(u, h, b) && Kind16(h) == NaN
    ensures Kind16(FromF32(b)) == NaN && Negative16(FromF32(b)) == Negative16(h) && FromF32(b) % 0x8000 == 0x7E00
  {
    FromF32Rounds(u, b);
    Fields16(FromF32(b));
  }

  // -------------------------------------------------------------------------
  // Every float is exactly some double
  // -------------------------------------------------------------------------

  function Assemble64(negative: bool, exponent: nat, sig: nat): (w: Bits64)
    requires exponent < 2048 && sig < 0x10_0000_0000_0000
    ensures Negative64(w) == negative && Exponent64(w) == exponent && Significand64(w) == sig
  {
    (if negative then 0x8000_0000_0000_0000 else 0) + exponent * 0x10_0000_0000_0000 + sig
  }

  lemma Scale64(u: nat, e: nat, x: nat)
    requires u >= 1074 && e > 0 && x >= 0x80_0000
    ensures Scaled(e, (x - 0x80_0000) * 0x2000_0000, 0x10_0000_0000_0000) * Pow2(u - 1074) == x * Pow2(e + u - 1046)
  {
    Pow2Values();
    Pow2Add(13, 16);
    Pow2Add(3, 13);
    Pow2Add(e - 1, u - 1074);
    Pow2Add(29, e + u - 1075);
    Associate(x * 0x2000_0000, Pow2(e - 1), Pow2(u - 1074));
    Associate(x, 0x2000_0000, Pow2(e + u - 1075));
  }

  /** How far a subnormal significand has to move. */
  lemma Normalise(sig: nat, k: nat) returns (n: nat)
    requires 0 < sig && sig * Pow2(k) < 0x100_0000 && k <= 23
    ensures 0x80_0000 <= sig * Pow2(n) < 0x100_0000 && n <= 23
    decreases 23 - k
  {
    if sig * Pow2(k) >= 0x80_0000 {
      n := k;
    } else {
      NormaliseEnds(sig, k);
      n := Normalise(sig, k + 1);
    }
  }

  lemma NormaliseEnds(sig: nat, k: nat)
    requires 0 < sig && sig * Pow2(k) < 0x80_0000
    ensures k < 23 && sig * Pow2(k + 1) == 2 * (sig * Pow2(k))
  {
    if k >= 23 {
      Pow2Values();
      Pow2Monotone(23, k);
      Larger(sig, 1, Pow2(k), Pow2(k));
    }
  }

  lemma ExactDouble(u: nat, b: Bits32) returns (w: Bits64)
    requires u >= 1074
    ensures SameFloat(u, b, w)
  {
    var e, sig := Exponent32(b), Significand32(b);
    if e == 255 {
      w := Assemble64(Negative32(b), 2047, sig);
    } else if e > 0 {
      w := Assemble64(Negative32(b), e + 896, sig * 0x2000_0000);
      Scale64(u, e + 896, sig + 0x80_0000);
      Pow2Add(e - 1, u - 149);
      Associate(sig + 0x80_0000, Pow2(e - 1), Pow2(u - 149));
    } else if sig == 0 {
      w := Assemble64(Negative32(b), 0, 0);
    } else {
      var n := Normalise(sig, 0);
      var x := sig * Pow2(n);
      w := Assemble64(Negative32(b), 897 - n, (x - 0x80_0000) * 0x2000_0000);
      Scale64(u, 897 - n, x);
      Pow2Add(n, u - 149 - n);
      Associate(sig, Pow2(n), Pow2(u - 149 - n));
    }
  }
}
