/** Comparison in conditions: integers are converted to double precision first. */
module Rounding {
  import opened Values

  /** Up to here every integer is a double. */
  const EXACT: nat := 0x20_0000_0000_0000

  /** The distance of neighbouring doubles at a magnitude. */
  function Ulp(m: nat): (u: nat)
    ensures u >= 1
  {
    if m < EXACT then 1 else 2 * Ulp(m / 2)
  }

  /** How many of these distances fit. */
  function Mantissa(m: nat): nat {
    if m < EXACT then m else Mantissa(m / 2)
  }

  /** The nearest multiple; a tie goes to the even one. */
  function RoundUp(q: nat, r: int, u: nat): nat {
    if 2 * r > u || (2 * r == u && q % 2 == 1) then q + 1 else q
  }

  function RoundNat(m: nat): nat {
    RoundUp(Mantissa(m), m - Mantissa(m) * Ulp(m), Ulp(m)) * Ulp(m)
  }

  function Dbl(i: int): int {
    var n := RoundNat(if i >= 0 then i else -i);
    if i >= 0 then n else 0 - n
  }

  /** What a comparison sees of a value. */
  function Rounded(v: Value): Value {
    if v.Int? then Int(Dbl(v.i)) else v
  }

  // ---- Rounding keeps the order ----

  /** Two distances are equal, or the larger is at least twice the smaller. */
  lemma {:induction false} UlpGrows(a: nat, b: nat)
    requires a <= b
    ensures Ulp(a) == Ulp(b) || 2 * Ulp(a) <= Ulp(b)
  {
    if a >= EXACT { UlpGrows(a / 2, b / 2); }
  }

  lemma Twice(q: nat, u: nat)
    ensures q * (2 * u) == 2 * (q * u)
  {
  }

  lemma TimesMono(a: nat, b: nat, u: nat)
    requires a <= b
    ensures a * u <= b * u
  {
  }

  lemma OneMore(q: nat, u: nat)
    ensures (q + 1) * u == q * u + u
  {
  }

  /** A magnitude is its distances and less than one more. */
  lemma {:induction false} MantissaCounts(m: nat)
    ensures Mantissa(m) * Ulp(m) <= m < Mantissa(m) * Ulp(m) + Ulp(m)
  {
    if m >= EXACT {
      MantissaCounts(m / 2);
      Twice(Mantissa(m / 2), Ulp(m / 2));
    }
  }

  /** There are less than 2^53 distances, and at least half as many unless the magnitude is small. */
  lemma {:induction false} MantissaFits(m: nat)
    ensures Mantissa(m) < EXACT && (m >= EXACT ==> Mantissa(m) >= EXACT / 2)
  {
    if m >= EXACT { MantissaFits(m / 2); }
  }

  lemma RoundSameUlp(a: nat, b: nat, p: nat, q: nat, u: nat)
    requires a <= b && p * u <= a < p * u + u && q * u <= b < q * u + u
    ensures RoundUp(p, a - p * u, u) <= RoundUp(q, b - q * u, u)
  {
    if p > q {
      TimesMono(q + 1, p, u);
      OneMore(q, u);
    }
  }

  /** Across two distances the multiples stay on their sides of a power of two. */
  lemma RoundOtherUlp(p: nat, q: nat, u: nat, w: nat)
    requires p <= EXACT && q >= EXACT / 2 && 2 * u <= w
    ensures p * u <= q * w
  {
    TimesMono(p, EXACT, u);
    TimesMono(EXACT / 2, q, w);
  }

  lemma RoundNatMonotone(a: nat, b: nat)
    requires a <= b
    ensures RoundNat(a) <= RoundNat(b)
  {
    MantissaCounts(a);
    MantissaCounts(b);
    UlpGrows(a, b);
    MantissaFits(a);
    MantissaFits(b);
    RoundParts(a, b, Mantissa(a), Mantissa(b), Ulp(a), Ulp(b));
  }

  lemma RoundParts(a: nat, b: nat, p: nat, q: nat, u: nat, w: nat)
    requires a <= b && p * u <= a < p * u + u && q * w <= b < q * w + w
    requires u == w || (2 * u <= w && p < EXACT && q >= EXACT / 2)
    ensures RoundUp(p, a - p * u, u) * u <= RoundUp(q, b - q * w, w) * w
  {
    var p', q' := RoundUp(p, a - p * u, u), RoundUp(q, b - q * w, w);
    if u == w {
      RoundSameUlp(a, b, p, q, u);
      TimesMono(p', q', u);
    } else {
      RoundOtherUlp(p', q', u, w);
    }
  }

  lemma DblMonotone(a: int, b: int)
    requires a <= b
    ensures Dbl(a) <= Dbl(b)
  {
    if a >= 0 { RoundNatMonotone(a, b); }
    if b < 0 { RoundNatMonotone(0 - b, 0 - a); }
  }

  /** The error is at most half the distance of the doubles around. */
  lemma DblClose(i: int)
    ensures var m, n := if i >= 0 then i else 0 - i, if i >= 0 then Dbl(i) else 0 - Dbl(i);
      0 - Ulp(m) <= 2 * (n - m) <= Ulp(m)
  {
    var m := if i >= 0 then i else 0 - i;
    MantissaCounts(m);
    OneMore(Mantissa(m), Ulp(m));
  }

  /** Integers up to 2^53 are compared as they are. */
  lemma DblSmall(i: int)
    requires 0 - EXACT <= i <= EXACT
    ensures Dbl(i) == i
  {
    var m := if i < 0 then -i else i;
    if m == EXACT { assert Ulp(m / 2) == 1 && Mantissa(m / 2) == EXACT / 2; }
  }

  /** 2^53 + 1 is compared as 2^53. */
  lemma DblLarge()
    ensures Dbl(EXACT + 1) == EXACT == Dbl(EXACT)
  {
    assert Ulp((EXACT + 1) / 2) == 1 && Mantissa((EXACT + 1) / 2) == EXACT / 2;
    DblSmall(EXACT);
  }

  /** What compares less is less; equal values compare as equal. */
  lemma RoundedMonotone(a: Value, b: Value)
    ensures Less(Rounded(a), Rounded(b)) ==> Less(a, b)
    ensures Rounded(a) == Null <==> a == Null
  {
    if a.Int? && b.Int? && b.i <= a.i { DblMonotone(b.i, a.i); }
  }

  /** Different integers that compare as equal. */
  predicate RoundsOnto(a: Value, b: Value) {
    a != b && Rounded(a) == Rounded(b)
  }
}
