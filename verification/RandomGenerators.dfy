/** The two generators of src/shared/Util.cpp. Machine integers are newtypes, so every operation on
    them carries a proof that it does not overflow; the wrap-around the source relies on is written
    out. */
module RandomGenerators {
  import opened Basics

  newtype int32 = x: int | -0x8000_0000 <= x < 0x8000_0000
  newtype uint32 = x: int | 0 <= x < 0x1_0000_0000

  const M: int32 := 2147483647
  const A: int32 := 48271
  const Q: int32 := M / A
  const R: int32 := M % A
  const RAND32_MAX: int32 := 2147483645

  const LCG_FACTOR := 214013
  const LCG_STEP := 2531011

  // ---------------------------------------------------------------------------
  // Specifications
  // ---------------------------------------------------------------------------

  /** A state the multiplicative generator may be in. */
  predicate IsState(s: int) {
    0 < s < M as int
  }

  /** The multiplicative congruential generator with factor 48271 modulo the prime 2^31 - 1. */
  function Next(s: int): int {
    A as int * s % M as int
  }

  function Iterate(s: int, n: nat): int {
    if n == 0 then s else Next(Iterate(s, n - 1))
  }

  function Pow(b: int, e: nat): int {
    if e == 0 then 1 else b * Pow(b, e - 1)
  }

  // 48271 * A_INVERSE == 1 + A_QUOTIENT * (2^31 - 1)
  const A_INVERSE := 1899818559
  const A_QUOTIENT := 42704

  /** Multiplying by 48271 is undone by its inverse. */
  function Previous(t: int): int {
    A_INVERSE * t % M as int
  }

  /** The linear congruential generator modulo 2^32. */
  function Lcg(h: int): (r: int)
    ensures 0 <= r < TWO_TO_THE_32
  {
    (h * LCG_FACTOR + LCG_STEP) % TWO_TO_THE_32
  }

  /** What irand returns in generator state h (after the step). */
  function Scaled(h: int, min: int, max: int): int {
    h / 0x2_0000 * (max + 1 - min) / 0x8000 + min
  }

  predicate IsRange(min: int, max: int) {
    min <= max && max - min < 32768
  }

  // ---------------------------------------------------------------------------
  // The generators
  // ---------------------------------------------------------------------------

  class Generators {
    var holdrand: uint32
    var rand32_state: int32

    constructor ()
      ensures holdrand == 0x89abcdef && rand32_state == 1 && IsState(rand32_state as int)
    {
      holdrand := 0x89abcdef;
      rand32_state := 1;
    }

    method RandInit(seed: uint32)
      modifies `holdrand
      ensures holdrand == seed
    {
      holdrand := seed;
    }

    method Rand32() returns (r: int32)
      requires IsState(rand32_state as int)
      modifies `rand32_state
      ensures rand32_state as int == Next(old(rand32_state as int)) && IsState(rand32_state as int)
      ensures r == rand32_state - 1 && 0 <= r <= RAND32_MAX
    {
      hide Next, IsState, A, M, Q, R;
      Constants();
      var hi := rand32_state / Q;
      var lo := rand32_state % Q;
      Schrage(rand32_state as int, hi as int, lo as int);
      var test := A * lo - R * hi;
      if test > 0 {
        rand32_state := test;
      } else {
        rand32_state := test + M;
      }
      r := rand32_state - 1;
    }

    method Irand(min: int32, max: int32) returns (r: int32)
      requires IsRange(min as int, max as int) && max < 0x7FFF_FFFF
      modifies `holdrand
      ensures holdrand as int == Lcg(old(holdrand as int))
      ensures holdrand as int == (old(holdrand as int) * 214013 + 2531011) % 0x1_0000_0000
      ensures r as int == Scaled(holdrand as int, min as int, max as int)
      ensures min <= r <= max
    {
      hide Lcg, Scaled;
      LcgIs(holdrand as int);
      var last := max + 1;
      holdrand := Lcg(holdrand as int) as uint32;
      r := ScaleDown(holdrand, last, min);
      ScaledInRange(holdrand as int, min as int, max as int);
    }
  }

  /** The state's upper bits, scaled to the range from min to before last. */
  method ScaleDown(state: uint32, last: int32, min: int32) returns (r: int32)
    requires IsRange(min as int, last as int - 1)
    ensures r as int == Scaled(state as int, min as int, last as int - 1)
  {
    hide Scaled;
    ScaledInRange(state as int, min as int, last as int - 1);
    ScaledIs(state as int, min as int, last as int - 1);
    var top := state / 0x2_0000;
    var n := (last - min) as uint32;
    var product := top * n;
    r := WrappedSum(product / 0x8000, min);
  }

  /** Unsigned addition of a converted negative number wraps, and converting back wraps again. */
  method WrappedSum(x: uint32, min: int32) returns (r: int32)
    requires -0x8000_0000 <= x as int + min as int < 0x8000_0000
    ensures r as int == x as int + min as int
  {
    var wrapped := (x as int + min as int) % TWO_TO_THE_32;
    r := (if wrapped < 0x8000_0000 then wrapped else wrapped - TWO_TO_THE_32) as int32;
  }

  // ---------------------------------------------------------------------------
  // The multiplicative generator
  // ---------------------------------------------------------------------------

  /** The quotient and the remainder that the macros denote. */
  lemma Constants()
    ensures M == 2147483647 && A == 48271 && Q == 44488 && R == 3399
  {
  }

  /** The split product differs from 48271 * s by a multiple of the modulus and is never zero. */
  lemma Schrage(s: int, hi: int, lo: int)
    requires IsState(s) && hi == s / Q as int && lo == s % Q as int
    ensures 0 <= hi <= 48271 && 0 <= lo < 44488
    ensures var test := A as int * lo - R as int * hi;
            && test != 0
            && -M as int < test < M as int
            && Next(s) == if test > 0 then test else test + M as int
    ensures IsState(Next(s))
  {
    var test := 48271 * lo - 3399 * hi;
    assert s == 44488 * hi + lo;
    assert 48271 * s == 2147483647 * hi + test;
    assert 0 <= hi <= 48271 && 0 <= lo < 44488;
    assert -2147483647 < test < 2147483647;
    ModShift(test, hi);
    NextIsState(s);
  }

  /** The modulus divides 48271 * s - 48271 * t only if it divides s - t. */
  lemma Cancel(s: int, t: int, k: int)
    requires A as int * s == A as int * t + M as int * k
    ensures s - t == M as int * (A_INVERSE * k - A_QUOTIENT * (s - t))
  {
    var d := s - t;
    assert 48271 * d == 2147483647 * k;
    assert A_INVERSE * (48271 * d) == A_INVERSE * (2147483647 * k);
  }

  lemma NextIsState(s: int)
    requires IsState(s)
    ensures IsState(Next(s))
  {
    if Next(s) == 0 {
      Cancel(s, 0, 48271 * s / 2147483647);
    }
  }

  /** Distinct states have distinct successors. */
  lemma NextInjective(s: int, t: int)
    requires IsState(s) && IsState(t) && Next(s) == Next(t)
    ensures s == t
  {
    Cancel(s, t, 48271 * s / 2147483647 - 48271 * t / 2147483647);
  }

  /** Every state has a predecessor: the generator permutes its states. */
  lemma NextOnto(t: int)
    requires IsState(t)
    ensures IsState(Previous(t)) && Next(Previous(t)) == t
  {
    var s := Previous(t);
    var k := A_INVERSE * t / 2147483647;
    assert s == A_INVERSE * t - 2147483647 * k;
    var j := A_QUOTIENT * t - 48271 * k;
    assert 48271 * s == t + 2147483647 * j;
    ModShift(t, j);
  }

  lemma MulModulus(a: int, x: int)
    ensures a * (x % M as int) % M as int == a * x % M as int
  {
    var m := M as int;
    var k := x / m;
    assert x == m * k + x % m;
    assert a * x == m * (a * k) + a * (x % m);
    ModShift(a * (x % m), a * k);
  }

  lemma ModShift(y: int, k: int)
    ensures (M as int * k + y) % M as int == y % M as int
  {
  }

  /** On every run the state stays in range and is the start times a power of 48271. */
  lemma {:induction false} IterateIsPower(s: int, n: nat)
    requires IsState(s)
    ensures IsState(Iterate(s, n))
    ensures Iterate(s, n) == Pow(A as int, n) * s % M as int
  {
    if n > 0 {
      IterateIsPower(s, n - 1);
      NextIsState(Iterate(s, n - 1));
      MulModulus(A as int, Pow(A as int, n - 1) * s);
      assert Pow(A as int, n) * s == A as int * (Pow(A as int, n - 1) * s);
    }
  }

  // ---------------------------------------------------------------------------
  // The scaled generator
  // ---------------------------------------------------------------------------

  /** Neither the product nor the result leaves its range, in any generator state. */
  lemma ScaledInRange(h: int, min: int, max: int)
    requires 0 <= h < TWO_TO_THE_32 && IsRange(min, max)
    ensures 0 <= h / 0x2_0000 * (max + 1 - min) < TWO_TO_THE_32
    ensures min <= Scaled(h, min, max) <= max
  {
    var top, n := h / 0x2_0000, max + 1 - min;
    MulMonotone(top, 0x7FFF, n);
    var product := top * n;
    assert 0 <= product <= 0x7FFF * n;
  }

  lemma ScaledIs(h: int, min: int, max: int)
    ensures Scaled(h, min, max) == h / 0x2_0000 * (max + 1 - min) / 0x8000 + min
  {
  }

  lemma LcgIs(h: int)
    ensures Lcg(h) == (h * 214013 + 2531011) % 0x1_0000_0000
  {
  }

  /** The range is cut into equal parts of the 32768 values of the state's bits 17 to 31: v is returned
      exactly in the part that starts v - min parts up. So results grow with those bits. */
  lemma ScaledIff(h: int, min: int, max: int, v: int)
    requires 0 <= h < TWO_TO_THE_32 && IsRange(min, max)
    ensures Scaled(h, min, max) == v <==>
            (v - min) * 32768 <= h / 131072 * (max - min + 1) < (v - min + 1) * 32768
  {
    var product := h / 131072 * (max - min + 1);
    assert h / 131072 * (max + 1 - min) == product;
  }

  // LCG_FACTOR * LCG_INVERSE == 1 + LCG_QUOTIENT * 2^32
  const LCG_INVERSE := 3115528533
  const LCG_QUOTIENT := 155243

  function LcgPrevious(h: int): int {
    (h - LCG_STEP) * LCG_INVERSE % TWO_TO_THE_32
  }

  lemma WordShift(y: int, k: int)
    requires 0 <= y < TWO_TO_THE_32
    ensures (TWO_TO_THE_32 * k + y) % TWO_TO_THE_32 == y
  {
  }

  /** The generator permutes the words. */
  lemma LcgOnto(h: int)
    requires 0 <= h < TWO_TO_THE_32
    ensures 0 <= LcgPrevious(h) < TWO_TO_THE_32 && Lcg(LcgPrevious(h)) == h
  {
    var p, d := LcgPrevious(h), h - LCG_STEP;
    var k := d * LCG_INVERSE / 0x1_0000_0000;
    assert p == d * LCG_INVERSE - 0x1_0000_0000 * k;
    var j := LCG_QUOTIENT * d - LCG_FACTOR * k;
    assert p * LCG_FACTOR + LCG_STEP == 0x1_0000_0000 * j + h;
    WordShift(h, j);
  }

  /** The least top half that scales to v. */
  function TopFor(min: int, max: int, v: int): int
    requires min <= max
  {
    ((v - min) * 0x8000 + (max - min)) / (max + 1 - min)
  }

  /** Every value of the range is returned from some state of the generator. */
  lemma ScaledOnto(min: int, max: int, v: int)
    requires IsRange(min, max) && min <= v <= max
    ensures var before := LcgPrevious(TopFor(min, max, v) * 0x2_0000);
            0 <= before < TWO_TO_THE_32 && Scaled(Lcg(before), min, max) == v
  {
    var n, w := max + 1 - min, v - min;
    var top := TopFor(min, max, v);
    DivCeiling(w * 0x8000, n);
    var product := top * n;
    assert w * 0x8000 <= product < (w + 1) * 0x8000;
    if top >= 0x8000 {
      MulMonotone(0x8000, top, n);
    }
    LcgOnto(top * 0x2_0000);
    assert Lcg(LcgPrevious(top * 0x2_0000)) / 0x2_0000 == top;
  }

  lemma DivCeiling(x: int, n: int)
    requires 0 <= x && 0 < n
    ensures 0 <= (x + n - 1) / n && x <= (x + n - 1) / n * n < x + n
  {
    var q, r := (x + n - 1) / n, (x + n - 1) % n;
    assert x + n - 1 == q * n + r;
  }
}
