/** The bfloat16 helpers the generator writes into the shaders. A float is its 32-bit pattern; a
    bfloat16 value is the 16-bit pattern of the upper half of one. */
module BFloat16 {
  import opened GlslUint

  // ----- the emitted helpers, as bit expressions -----

  function RoundBits(b: uint32): uint32 {
    AndMasks(Shr(b, 16));
    Shr(Add(Add(b, 0x7FFF), And(Shr(b, 16), 1)), 16)
  }

  function ReadBF16(packed: uint32, offset: nat): uint32
    requires offset < 2
  {
    AndMasks(Shr(packed, offset * 16));
    Shl(And(Shr(packed, offset * 16), 0xFFFF), 16)
  }

  function PackBF16Pair(v0: uint32, v1: uint32): uint32 {
    hide RoundBits, Or, Shl;
    RoundBitsIs(v0);
    RoundBitsIs(v1);
    ShiftBy16(RoundBits(v1));
    OrHalves(RoundBits(v1), RoundBits(v0));
    Or(RoundBits(v0), Shl(RoundBits(v1), 16))
  }

  /** The two components of the GLSL `vec2` result. */
  function UnpackBF16x2(packed: uint32): (uint32, uint32) {
    AndMasks(packed);
    (Shl(And(packed, 0xFFFF), 16), And(packed, 0xFFFF_0000))
  }

  function PackBF16x2(v: (uint32, uint32)): uint32 {
    PackBF16Pair(v.0, v.1)
  }

  // ----- what patterns mean -----

  predicate Negative(b: uint32) { b >= 0x8000_0000 }

  function Magnitude(b: uint32): nat { b % 0x8000_0000 }

  predicate IsNaN(b: uint32) { Magnitude(b) > 0x7F80_0000 }

  function Widen(h: uint16): uint32 { h * TWO16 }

  /** The magnitude of a pattern without sign, scaled by 2^149 so that it is an integer. Infinity
      gets the value its exponent would have, 2^128. */
  function Scaled(p: nat): nat {
    if p / 0x80_0000 == 0 then p else (0x80_0000 + p % 0x80_0000) * Pow2(p / 0x80_0000 - 1)
  }

  function Signed(negative: bool, m: int): int { if negative then -m else m }

  function Value(b: uint32): int {
    Signed(Negative(b), Scaled(Magnitude(b)))
  }

  function Abs(x: int): nat { if x < 0 then -x else x }

  /** Section 4.3.1 of IEEE 754-2019: h is a value nearest to b, and where two different values are
      equally near, h is the one with an even significand. Zero and infinity keep the sign of b. */
  ghost predicate RoundsTiesToEven(b: uint32, h: uint16)
  {
    && !IsNaN(Widen(h))
    && Negative(Widen(h)) == Negative(b)
    && forall g: uint16 | !IsNaN(Widen(g)) ::
         var near, far := Abs(Value(b) - Value(Widen(h))), Abs(Value(b) - Value(Widen(g)));
         near <= far && (near == far && Value(Widen(g)) != Value(Widen(h)) ==> h % 2 == 0)
  }

  // ----- arithmetic of the emitted expression -----

  lemma RoundBitsUnfolded(b: uint32)
    ensures RoundBits(b) == Add(Add(b, 0x7FFF), b / TWO16 % 2) / TWO16
  {
    var top: uint32 := b / TWO16;
    assert Shr(b, 16) == top by { ShiftBy16(b); }
    assert And(top, 1) == top % 2 by { AndMasks(top); }
    ShiftBy16(Add(Add(b, 0x7FFF), top % 2));
  }

  /** Adding the rounding term wraps exactly from 0xFFFF8000 on, which are NaN patterns. */
  lemma RoundBitsIs(b: uint32)
    ensures RoundBits(b) < TWO16
    ensures b < 0xFFFF_8000 ==> RoundBits(b) == (b + 0x7FFF + b / TWO16 % 2) / TWO16
    ensures b >= 0xFFFF_8000 ==> RoundBits(b) == 0
  {
    RoundBitsUnfolded(b);
    RoundingSum(b, Add(Add(b, 0x7FFF), b / TWO16 % 2));
  }

  lemma RoundingSum(b: nat, s: nat)
    requires b < TWO32
    requires s == ((b + 0x7FFF) % TWO32 + b / TWO16 % 2) % TWO32
    ensures s / TWO16 < TWO16
    ensures b < 0xFFFF_8000 ==> s / TWO16 == (b + 0x7FFF + b / TWO16 % 2) / TWO16
    ensures b >= 0xFFFF_8000 ==> s / TWO16 == 0
  {
  }

  /** The sign bit does not take part: rounding commutes with negation on every number. */
  lemma SignCommutes(p: uint32)
    requires p <= 0x7F80_0000
    ensures RoundBits(p) == (p + 0x7FFF + p / TWO16 % 2) / TWO16 <= 0x7F80
    ensures RoundBits(p + 0x8000_0000) == RoundBits(p) + 0x8000
  {
    RoundBitsIs(p);
    RoundBitsIs(p + 0x8000_0000);
    SignedSum(p, RoundBits(p), RoundBits(p + 0x8000_0000));
  }

  lemma SignedSum(p: nat, r: nat, n: nat)
    requires p <= 0x7F80_0000
    requires r == (p + 0x7FFF + p / TWO16 % 2) / TWO16
    requires n == (p + 0x8000_0000 + 0x7FFF + (p + 0x8000_0000) / TWO16 % 2) / TWO16
    ensures r <= 0x7F80 && n == r + 0x8000
  {
  }

  /** Within one step of bfloat16 the scaled magnitude is linear, binade edges and the subnormal
      range included. */
  function Ulp(q: nat): nat {
    if q / 128 == 0 then 1 else Pow2(q / 128 - 1)
  }

  lemma StepIsLinear(q: nat, t: nat)
    requires t <= TWO16
    ensures Ulp(q) >= 1
    ensures Scaled(q * TWO16 + t) == Scaled(q * TWO16) + t * Ulp(q)
  {
    FieldsInStep(q, t);
    var e := q / 128;
    if q % 128 * TWO16 + t >= 0x80_0000 && e > 0 {
      assert Pow2(e) == 2 * Pow2(e - 1);
    }
  }

  /** Exponent and significand fields within a step; its end may be the next binade's start. */
  lemma FieldsInStep(q: nat, t: nat)
    requires t <= TWO16
    ensures var p, e, m := q * TWO16, q / 128, q % 128 * TWO16;
            && p / 0x80_0000 == e && p % 0x80_0000 == m && m + t <= 0x80_0000
            && (p + t) / 0x80_0000 == (if m + t < 0x80_0000 then e else e + 1)
            && (p + t) % 0x80_0000 == (if m + t < 0x80_0000 then m + t else 0)
  {
    var p, e, m := q * TWO16, q / 128, q % 128 * TWO16;
    assert p == e * 0x80_0000 + m;
    if m + t >= 0x80_0000 {
      assert p + t == (e + 1) * 0x80_0000;
    }
  }

  lemma {:induction false} StepsIncrease(q: nat, r: nat)
    requires q < r
    ensures Scaled(q * TWO16) < Scaled(r * TWO16)
    decreases r - q
  {
    hide Scaled, Ulp;
    StepIsLinear(q, TWO16);
    assert q * TWO16 + TWO16 == (q + 1) * TWO16;
    assert TWO16 * Ulp(q) > 0;
    if q + 1 < r {
      StepsIncrease(q + 1, r);
    }
  }

  // ----- the emitted expression is IEEE rounding -----

  /** The step of bfloat16 a magnitude falls to: down in the lower half of its step, up in the upper
      half, to the even end at the midpoint. */
  function RoundStep(p: nat): nat {
    var q, t := p / TWO16, p % TWO16;
    if t < 0x8000 || (t == 0x8000 && q % 2 == 0) then q else q + 1
  }

  /** What the expression computes on every number, as sign and step. */
  lemma RoundBitsIsRoundStep(b: uint32)
    requires !IsNaN(b)
    ensures RoundStep(Magnitude(b)) <= 0x7F80
    ensures RoundBits(b) == RoundStep(Magnitude(b)) + (if Negative(b) then 0x8000 else 0)
  {
    var p := Magnitude(b);
    SignCommutes(p);
    RoundStepSum(p, RoundBits(p));
    assert b == if Negative(b) then p + 0x8000_0000 else p;
  }

  lemma RoundStepSum(p: nat, r: nat)
    requires r == (p + 0x7FFF + p / TWO16 % 2) / TWO16
    ensures r == RoundStep(p)
  {
  }

  /** Around p = qt: v and w are the distances to the ends of its step, and every other step lies
      beyond them. */
  lemma StepEnds(q: nat, t: nat, g: nat) returns (v: nat, w: nat)
    requires t < TWO16
    ensures Scaled(q * TWO16 + t) == Scaled(q * TWO16) + v
    ensures Scaled((q + 1) * TWO16) == Scaled(q * TWO16) + v + w
    ensures w > 0 && (t == 0 <==> v == 0)
    ensures (t < 0x8000 ==> v < w) && (t > 0x8000 ==> v > w) && (t == 0x8000 ==> v == w)
    ensures g < q ==> Scaled(g * TWO16) < Scaled(q * TWO16)
    ensures g > q + 1 ==> Scaled(g * TWO16) > Scaled((q + 1) * TWO16)
  {
    hide Scaled, Ulp;
    v, w := StepParts(q, t);
    if g < q {
      StepsIncrease(g, q);
    } else if g > q + 1 {
      StepsIncrease(q + 1, g);
    }
  }

  lemma StepParts(q: nat, t: nat) returns (v: nat, w: nat)
    requires t < TWO16
    ensures Scaled(q * TWO16 + t) == Scaled(q * TWO16) + v
    ensures Scaled((q + 1) * TWO16) == Scaled(q * TWO16) + v + w
    ensures w > 0 && (t == 0 <==> v == 0)
    ensures (t < 0x8000 ==> v < w) && (t > 0x8000 ==> v > w) && (t == 0x8000 ==> v == w)
  {
    hide Scaled, Ulp;
    StepIsLinear(q, t);
    StepIsLinear(q, TWO16);
    assert q * TWO16 + TWO16 == (q + 1) * TWO16;
    Parts(t, Ulp(q));
    v, w := t * Ulp(q), (TWO16 - t) * Ulp(q);
  }

  lemma Parts(t: nat, u: nat)
    requires t <= TWO16 && u >= 1
    ensures t * u + (TWO16 - t) * u == TWO16 * u
    ensures t < 0x8000 ==> t * u < (TWO16 - t) * u
    ensures t > 0x8000 ==> t * u > (TWO16 - t) * u
    ensures t == 0 <==> t * u == 0
    ensures t < TWO16 ==> (TWO16 - t) * u > 0
  {
    if t < 0x8000 {
      ProductsIncrease(t, TWO16 - t, u);
    } else if t > 0x8000 {
      ProductsIncrease(TWO16 - t, t, u);
    }
    if t > 0 {
      ProductsIncrease(0, t, u);
    }
    if t < TWO16 {
      ProductsIncrease(0, TWO16 - t, u);
    }
  }

  /** Among magnitudes, no step is nearer to p than RoundStep(p); equally near is only the other end
      of the step around p, from its midpoint, and then the chosen one is even. */
  lemma NearestMagnitude(p: nat, g: nat)
    ensures var r := RoundStep(p);
            var near, far := Abs(Scaled(p) - Scaled(r * TWO16)), Abs(Scaled(p) - Scaled(g * TWO16));
            near <= far && (near == far && g != r ==> r % 2 == 0 && g % 2 == 1)
  {
    hide Scaled, Abs;
    var q, t := p / TWO16, p % TWO16;
    var v, w := StepEnds(q, t, g);
    assert p == q * TWO16 + t;
    NearerEnd(q, t, g, Scaled(q * TWO16), v, w, Scaled(RoundStep(p) * TWO16), Scaled(g * TWO16));
  }

  /** x is the lower end, v and w the distances to the ends; xr and xg the values of r and g. */
  lemma NearerEnd(q: nat, t: nat, g: nat, x: nat, v: nat, w: nat, xr: nat, xg: nat)
    requires t < TWO16 && w > 0 && (t == 0 ==> v == 0)
    requires (t < 0x8000 ==> v < w) && (t > 0x8000 ==> v > w) && (t == 0x8000 ==> v == w)
    requires xr == if t < 0x8000 || (t == 0x8000 && q % 2 == 0) then x else x + v + w
    requires (g < q ==> xg < x) && (g == q ==> xg == x)
    requires (g == q + 1 ==> xg == x + v + w) && (g > q + 1 ==> xg > x + v + w)
    ensures var r := if t < 0x8000 || (t == 0x8000 && q % 2 == 0) then q else q + 1;
            var near, far := Abs(x + v - xr), Abs(x + v - xg);
            near <= far && (near == far && g != r ==> r % 2 == 0 && g % 2 == 1)
  {
  }

  lemma ScaledIncreases(p: nat, p': nat)
    requires p < p'
    ensures Scaled(p) < Scaled(p')
  {
    hide Scaled, Ulp;
    var q, t, q', t' := p / TWO16, p % TWO16, p' / TWO16, p' % TWO16;
    assert p == q * TWO16 + t && p' == q' * TWO16 + t';
    if q == q' {
      StepIsLinear(q, t);
      StepIsLinear(q, t');
      ProductsIncrease(t, t', Ulp(q));
    } else {
      var v, w := StepEnds(q, t, q');
      var v', w' := StepParts(q', t');
    }
  }

  lemma ProductsIncrease(t: nat, t': nat, u: nat)
    requires t < t' && u >= 1
    ensures t * u < t' * u
  {
  }

  lemma WidenedParts(h: uint16)
    ensures Magnitude(Widen(h)) == h % 0x8000 * TWO16
    ensures Negative(Widen(h)) == (h >= 0x8000)
    ensures IsNaN(Widen(h)) == (h % 0x8000 > 0x7F80)
  {
  }

  lemma DistinctValues(g: uint16, h: uint16)
    requires g != h && (g >= 0x8000) == (h >= 0x8000)
    ensures Value(Widen(g)) != Value(Widen(h))
  {
    WidenedParts(g);
    WidenedParts(h);
    var m, n := g % 0x8000, h % 0x8000;
    if m < n {
      ScaledIncreases(m * TWO16, n * TWO16);
    } else {
      ScaledIncreases(n * TWO16, m * TWO16);
    }
  }

  /** The pattern the expression should give. */
  function RoundedPattern(b: uint32): nat {
    RoundStep(Magnitude(b)) + (if Negative(b) then 0x8000 else 0)
  }

  lemma NearestValue(b: uint32, g: uint16)
    requires !IsNaN(b) && !IsNaN(Widen(g))
    ensures RoundStep(Magnitude(b)) <= 0x7F80
    ensures var r := RoundedPattern(b);
            var near, far := Abs(Value(b) - Value(Widen(r))), Abs(Value(b) - Value(Widen(g)));
            near <= far
            && (near == far && g != r && Negative(Widen(g)) == Negative(b) ==> r % 2 == 0 && g % 2 == 1)
            && (near == far && Value(Widen(g)) != Value(Widen(r)) ==> r % 2 == 0)
  {
    hide Scaled, RoundStep, RoundBits;
    RoundBitsIsRoundStep(b);
    var p, m, n := Magnitude(b), RoundStep(Magnitude(b)), g % 0x8000;
    var r := RoundedPattern(b);
    WidenedParts(r);
    WidenedParts(g);
    assert r % 0x8000 == m;
    NearestMagnitude(p, n);
    NearestMagnitude(p, 0);
    ScaledZero();
    SignedDistances(Negative(b), Negative(Widen(g)), Scaled(p), Scaled(m * TWO16), Scaled(n * TWO16));
  }

  lemma ScaledZero()
    ensures Scaled(0) == 0
  {
  }

  lemma SignedDistances(s: bool, s': bool, x: nat, y: nat, z: nat)
    ensures Abs(Signed(s, x) - Signed(s, y)) == Abs(x - y)
    ensures Abs(Signed(s, x) - Signed(s', z)) == if s == s' then Abs(x - z) else x + z
  {
  }

  /** The emitted expression is roundTiesToEven, and nothing else is: subnormals, binade edges and
      overflow to infinity included. */
  lemma RoundBitsIsRoundTiesToEven(b: uint32, h: uint16)
    requires !IsNaN(b)
    ensures RoundsTiesToEven(b, h) <==> h == RoundBits(b)
  {
    hide RoundBits, RoundStep, Scaled, Abs;
    RoundBitsIsRoundStep(b);
    var r := RoundedPattern(b);
    WidenedParts(r);
    forall g: uint16 | !IsNaN(Widen(g))
      ensures var near, far := Abs(Value(b) - Value(Widen(r))), Abs(Value(b) - Value(Widen(g)));
              near <= far && (near == far && Value(Widen(g)) != Value(Widen(r)) ==> r % 2 == 0)
    {
      NearestValue(b, g);
    }
    assert RoundsTiesToEven(b, r);
    if RoundsTiesToEven(b, h) && h != r {
      NearestValue(b, h);
      WidenedParts(h);
      DistinctValues(h, r);
      assert false;
    }
  }

  /** Overflow: a finite float becomes infinity exactly from the midpoint above the largest finite
      bfloat16 on, 2^127 (2 - 2^-8), the threshold of section 4.3.1. */
  lemma OverflowThreshold(b: uint32)
    requires !IsNaN(b)
    ensures RoundBits(b) % 0x8000 == 0x7F80 <==> Abs(Value(b)) >= 511 * Pow2(268)
  {
    hide Scaled, RoundBits, RoundStep, Pow2;
    RoundBitsIsRoundStep(b);
    var p, mid := Magnitude(b), 0x7F7F_8000;
    MidpointValue();
    TopStep(p);
    assert Abs(Value(b)) == Scaled(p);
    if p < mid {
      ScaledIncreases(p, mid);
    } else if p > mid {
      ScaledIncreases(mid, p);
    }
  }

  lemma TopStep(p: nat)
    requires p <= 0x7F80_0000
    ensures RoundStep(p) == 0x7F80 <==> p >= 0x7F7F_8000
  {
  }

  lemma MidpointValue()
    ensures Scaled(0x7F7F_8000) == 511 * Pow2(268)
  {
    hide Pow2;
    assert 0x7F7F_8000 / 0x80_0000 == 254 && 0x7F7F_8000 % 0x80_0000 == 0x7F_8000;
    Pow2Fifteen();
    Pow2Add(15, 253);
    assert 511 * (0x8000 * Pow2(253)) == 0xFF_8000 * Pow2(253);
  }

  lemma Pow2Fifteen()
    ensures Pow2(15) == 0x8000
  {
    assert Pow2(5) == 32;
    Pow2Add(5, 5);
    Pow2Add(10, 5);
  }

  /** Rounding is monotone in the values. */
  lemma RoundingIsMonotone(a: uint32, b: uint32)
    requires !IsNaN(a) && !IsNaN(b) && Value(a) <= Value(b)
    ensures RoundBits(a) < TWO16 && RoundBits(b) < TWO16
    ensures Value(Widen(RoundBits(a))) <= Value(Widen(RoundBits(b)))
  {
    hide Scaled, RoundBits;
    RoundBitsIsRoundStep(a);
    RoundBitsIsRoundStep(b);
    var p, q := Magnitude(a), Magnitude(b);
    WidenedParts(RoundBits(a));
    WidenedParts(RoundBits(b));
    if Negative(a) && Negative(b) {
      StepsAreMonotone(q, p);
    } else if !Negative(a) {
      ScaledZero();
      StepsAreMonotone(p, if Negative(b) then 0 else q);
      StepsAreMonotone(if Negative(b) then q else 0, 0);
    }
  }

  lemma StepsAreMonotone(p: nat, q: nat)
    requires Scaled(p) <= Scaled(q)
    ensures RoundStep(p) <= RoundStep(q)
    ensures Scaled(RoundStep(p) * TWO16) <= Scaled(RoundStep(q) * TWO16)
  {
    hide Scaled;
    if q < p {
      ScaledIncreases(q, p);
      assert false;
    }
    assert p / TWO16 <= q / TWO16;
    if RoundStep(p) < RoundStep(q) {
      ScaledIncreases(RoundStep(p) * TWO16, RoundStep(q) * TWO16);
    }
  }

  // ----- packed words -----

  function LowHalf(w: uint32): uint16 { w % TWO16 }

  function HighHalf(w: uint32): uint16 { w / TWO16 }

  /** Every bfloat16 pattern is a fixed point, NaN patterns too. */
  lemma RoundingFixesBFloat16(h: uint16)
    ensures RoundBits(Widen(h)) == h
  {
    hide RoundBits;
    RoundBitsIs(Widen(h));
    assert Widen(h) / TWO16 == h;
  }

  lemma PackedHalves(v0: uint32, v1: uint32)
    ensures RoundBits(v0) < TWO16 && RoundBits(v1) < TWO16
    ensures PackBF16Pair(v0, v1) == TWO16 * RoundBits(v1) + RoundBits(v0)
  {
    hide RoundBits, Or, Shl;
    RoundBitsIs(v0);
    RoundBitsIs(v1);
    ShiftBy16(RoundBits(v1));
    OrHalves(RoundBits(v1), RoundBits(v0));
  }

  lemma UnpackedHalves(w: uint32)
    ensures UnpackBF16x2(w) == (Widen(LowHalf(w)), Widen(HighHalf(w)))
  {
    AndMasks(w);
    ShiftBy16(w % TWO16);
  }

  /** Packing what was unpacked gives back every word. */
  lemma PackUnpack(w: uint32)
    ensures PackBF16x2(UnpackBF16x2(w)) == w
  {
    hide RoundBits;
    UnpackedHalves(w);
    PackedHalves(Widen(LowHalf(w)), Widen(HighHalf(w)));
    RoundingFixesBFloat16(LowHalf(w));
    RoundingFixesBFloat16(HighHalf(w));
  }

  /** Unpacking what was packed rounds each component, independently of the other. */
  lemma UnpackPack(v: (uint32, uint32))
    ensures RoundBits(v.0) < TWO16 && RoundBits(v.1) < TWO16
    ensures UnpackBF16x2(PackBF16x2(v)) == (Widen(RoundBits(v.0)), Widen(RoundBits(v.1)))
  {
    hide RoundBits, PackBF16Pair, UnpackBF16x2;
    PackedHalves(v.0, v.1);
    UnpackedHalves(PackBF16x2(v));
    JoinedHalves(RoundBits(v.1), RoundBits(v.0));
  }

  lemma JoinedHalves(hi: uint16, lo: uint16)
    ensures LowHalf(TWO16 * hi + lo) == lo && HighHalf(TWO16 * hi + lo) == hi
  {
  }

  /** The element reader and the pair unpacker see the same two values. */
  lemma ReadAgreesWithUnpack(w: uint32)
    ensures ReadBF16(w, 0) == UnpackBF16x2(w).0 == Widen(LowHalf(w))
    ensures ReadBF16(w, 1) == UnpackBF16x2(w).1 == Widen(HighHalf(w))
  {
    hide And, UnpackBF16x2;
    UnpackedHalves(w);
    ShiftBy16(w);
    AndMasks(w);
    AndMasks(w / TWO16);
    ShiftBy16(w % TWO16);
    ShiftBy16(w / TWO16);
  }

  /** NaN is not kept in general: the rounding carries some payloads into infinity and others through
      the exponent into a zero. It is kept exactly when the payload is clear of both ends. */
  lemma NaNKeptExactly(b: uint32)
    requires IsNaN(b)
    ensures RoundBits(b) < TWO16
    ensures IsNaN(Widen(RoundBits(b))) <==> 0x7F80_8000 < Magnitude(b) < 0x7FFF_8000
  {
    hide RoundBits;
    RoundBitsIs(b);
    NaNSum(b, RoundBits(b));
  }

  lemma NaNSum(b: uint32, r: uint16)
    requires b % 0x8000_0000 > 0x7F80_0000
    requires b < 0xFFFF_8000 ==> r == (b + 0x7FFF + b / TWO16 % 2) / TWO16
    requires b >= 0xFFFF_8000 ==> r == 0
    ensures r % 0x8000 > 0x7F80 <==> 0x7F80_8000 < b % 0x8000_0000 < 0x7FFF_8000
    ensures IsNaN(Widen(r)) == (r % 0x8000 > 0x7F80)
  {
    WidenedParts(r);
  }

  /** The smallest NaN pattern becomes infinity and the largest positive one becomes minus zero. */
  lemma NaNLost()
    ensures IsNaN(0x7F80_0001) && RoundBits(0x7F80_0001) == 0x7F80
    ensures IsNaN(0x7FFF_FFFF) && RoundBits(0x7FFF_FFFF) == 0x8000
  {
    hide RoundBits;
    RoundBitsIs(0x7F80_0001);
    RoundBitsIs(0x7FFF_FFFF);
  }
}
