/**
 * `Randoms.ThreadLocalRandom`: a `java.util.Random` subclass with its own 48-bit
 * linear congruential state `rnd`, a seed that may be set only while the
 * superclass constructor runs, and bounded `long` draws built from `next(2)` and
 * the inherited `nextInt(int)`.
 *
 * Java `long` arithmetic wraps modulo 2^64 and `& mask` keeps the low 48 bits of
 * the two's-complement value, which for any `long` is its remainder modulo 2^48.
 */
module ThreadLocalRandoms {
  import opened JavaLang

  const MULTIPLIER: int := 0x5_DEEC_E66D
  const ADDEND: int := 0xB
  const TWO_48: int := 0x1_0000_0000_0000

  /** A power of two. */
  function Pow2(k: nat): (p: nat)
    ensures p >= 1
  {
    if k == 0 then 1 else 2 * Pow2(k - 1)
  }

  lemma {:induction false} Pow2Add(a: nat, b: nat)
    ensures Pow2(a + b) == Pow2(a) * Pow2(b)
    decreases a
  {
    if a > 0 {
      Pow2Add(a - 1, b);
    }
  }

  lemma {:induction false} Pow2Monotone(a: nat, b: nat)
    requires a <= b
    ensures Pow2(a) <= Pow2(b)
    decreases b - a
  {
    if a < b {
      Pow2Monotone(a, b - 1);
    }
  }

  /** The powers of two the generator works with. */
  lemma Pow2Values()
    ensures Pow2(31) == MAX_INT + 1 && Pow2(48) == TWO_48
  {
    assert Pow2(8) == 0x100;
    Pow2Add(8, 8);
    assert Pow2(16) == 0x1_0000;
    Pow2Add(16, 8);
    assert Pow2(24) == 0x100_0000;
    assert Pow2(7) == 0x80;
    Pow2Add(24, 7);
    Pow2Add(24, 24);
  }

  /** The low `k` bits of `a ^ b`, for non-negative `a` and `b`, bit by bit from the lowest. */
  function XorBits(a: nat, b: nat, k: nat): (r: nat)
    ensures r < Pow2(k)
  {
    if k == 0 then 0
    else (if a % 2 == b % 2 then 0 else 1) + 2 * XorBits(a / 2, b / 2, k - 1)
  }

  /** Xor-ing twice with the same value gives back the low `k` bits. */
  lemma {:induction false} XorBitsTwice(a: nat, b: nat, k: nat)
    requires a < Pow2(k)
    ensures XorBits(XorBits(a, b, k), b, k) == a
  {
    if k > 0 {
      var bit := if a % 2 == b % 2 then 0 else 1;
      var rest := XorBits(a / 2, b / 2, k - 1);
      var r := bit + 2 * rest;
      assert XorBits(a, b, k) == r;
      LowBit(bit, rest);
      assert a / 2 < Pow2(k - 1);
      XorBitsTwice(a / 2, b / 2, k - 1);
      assert XorBits(r, b, k) == (if bit == b % 2 then 0 else 1) + 2 * (a / 2);
    }
  }

  /** The lowest bit and the rest of `bit + 2 * rest`. */
  lemma LowBit(bit: int, rest: nat)
    requires 0 <= bit <= 1
    ensures (bit + 2 * rest) % 2 == bit && (bit + 2 * rest) / 2 == rest
  {
  }

  /**
   * `(seed ^ multiplier) & mask`, the state `setSeed(seed)` installs: bit `i < 48`
   * of the result is bit `i` of the seed's two's-complement value, which is bit `i`
   * of `seed mod 2^48`, xor bit `i` of the multiplier.
   */
  function Scramble(seed: int64): (r: int)
    ensures 0 <= r < TWO_48
  {
    Pow2Values();
    XorBits(seed % TWO_48, MULTIPLIER, 48)
  }

  /**
   * Scrambling loses only the high 16 bits of the seed: xor-ing with the multiplier
   * again gives back the seed's low 48 bits.
   */
  lemma ScrambleUndone(seed: int64)
    ensures XorBits(Scramble(seed), MULTIPLIER, 48) == seed % TWO_48
  {
    Pow2Values();
    XorBitsTwice(seed % TWO_48, MULTIPLIER, 48);
  }

  /** Seeds that differ in their low 48 bits install different states. */
  lemma ScrambleInjective(s1: int64, s2: int64)
    requires s1 % TWO_48 != s2 % TWO_48
    ensures Scramble(s1) != Scramble(s2)
  {
    ScrambleUndone(s1);
    ScrambleUndone(s2);
  }

  /** `x & mask` for a `long` `x`: the low 48 bits of its two's-complement value. */
  function Low48(x: int64): (r: int)
    ensures 0 <= r < TWO_48
  {
    x % TWO_48
  }

  /** The state after one step: `(rnd * multiplier + addend) & mask`, exactly. */
  function Step(s: int): (r: int)
    ensures 0 <= r < TWO_48
  {
    (s * MULTIPLIER + ADDEND) % TWO_48
  }

  /** Adding a multiple of 2^64 does not change the low 48 bits. */
  lemma Mod48OfWrap(x: int, k: int)
    ensures (x + k * TWO_64) % TWO_48 == x % TWO_48
  {
    assert k * TWO_64 == (k * 0x1_0000) * TWO_48;
    ModAddMultiple(x, k * 0x1_0000);
  }

  lemma ModAddMultiple(x: int, j: int)
    ensures (x + j * TWO_48) % TWO_48 == x % TWO_48
  {
    var q, r := x / TWO_48, x % TWO_48;
    assert x + j * TWO_48 == (q + j) * TWO_48 + r;
  }

  /**
   * The step as Java computes it, with the product and the sum wrapped to 64 bits
   * before the mask, agrees with the exact step: the wrap-around only touches bits
   * the mask discards.
   */
  lemma JavaStepIsStep(s: int64)
    ensures Low48(Wrap64(Wrap64(s * MULTIPLIER) + ADDEND)) == Step(s)
  {
    var p := Wrap64(s * MULTIPLIER);
    var kp := (p - s * MULTIPLIER) / TWO_64;
    assert p == s * MULTIPLIER + kp * TWO_64;
    var t := Wrap64(p + ADDEND);
    var kt := (t - (p + ADDEND)) / TWO_64;
    assert t == s * MULTIPLIER + ADDEND + (kp + kt) * TWO_64;
    Mod48OfWrap(s * MULTIPLIER + ADDEND, kp + kt);
  }

  /** The inverse of the multiplier modulo 2^48 (the multiplier is odd). */
  const INVERSE: int := 0xDFE0_5BCB_1365

  /** The state one step before `s`. */
  function Unstep(s: int): (r: int)
    ensures 0 <= r < TWO_48
  {
    ((s - ADDEND) * INVERSE) % TWO_48
  }

  /** A step can be undone, so no two states step to the same state. */
  lemma StepUndone(s: int)
    requires 0 <= s < TWO_48
    ensures Unstep(Step(s)) == s
  {
    var q := (s * MULTIPLIER + ADDEND) / TWO_48;
    assert Step(s) == s * MULTIPLIER + ADDEND - q * TWO_48;
    assert MULTIPLIER * INVERSE == 1 + 22050866921 * TWO_48;
    calc {
      (Step(s) - ADDEND) * INVERSE;
      (s * MULTIPLIER - q * TWO_48) * INVERSE;
      s * (MULTIPLIER * INVERSE) - q * INVERSE * TWO_48;
      s * (1 + 22050866921 * TWO_48) - q * INVERSE * TWO_48;
      s + (s * 22050866921 - q * INVERSE) * TWO_48;
    }
    ModAddMultiple(s, s * 22050866921 - q * INVERSE);
  }

  /** The step is one-to-one on 48-bit states. */
  lemma StepInjective(a: int, b: int)
    requires 0 <= a < TWO_48 && 0 <= b < TWO_48
    requires Step(a) == Step(b)
    ensures a == b
  {
    StepUndone(a);
    StepUndone(b);
  }

  /** The state after `k` steps. */
  function StepN(s: int, k: nat): (r: int)
    requires 0 <= s < TWO_48
    ensures 0 <= r < TWO_48
  {
    if k == 0 then s else Step(StepN(s, k - 1))
  }

  /** `(int) (rnd >>> (48 - bits))`: the top `bits` bits of the 48-bit state, cast to `int`. */
  function Output(state: int, bits: int): int32
    requires 0 <= state < TWO_48 && 1 <= bits <= 32
  {
    Wrap32(state / Pow2(48 - bits))
  }

  lemma DivBelow(x: int, a: int, b: int)
    requires 0 <= x < a * b && b > 0
    ensures 0 <= x / b < a
  {
  }

  /** For at most 31 bits the cast never wraps: `next(bits)` lies in `[0, 2^bits)`. */
  lemma OutputRange(state: int, bits: int)
    requires 0 <= state < TWO_48 && 1 <= bits <= 31
    ensures Output(state, bits) == state / Pow2(48 - bits)
    ensures 0 <= Output(state, bits) < Pow2(bits)
  {
    var p, q := Pow2(bits), Pow2(48 - bits);
    Pow2Add(bits, 48 - bits);
    Pow2Values();
    assert state < p * q;
    DivBelow(state, p, q);
    Pow2Monotone(bits, 31);
    assert p <= MAX_INT + 1;
  }

  const TWO_46: int := 0x4000_0000_0000

  /** `next(2)`: the top two bits of the 48-bit state. */
  lemma OutputTwoBits(state: int)
    requires 0 <= state < TWO_48
    ensures Output(state, 2) == state / TWO_46 && 0 <= state / TWO_46 < 4
  {
    Pow2Values();
    Pow2Add(46, 2);
    assert Pow2(2) == 4;
    DivBelow(state, 4, TWO_46);
  }

  /** StepN composes: `a` steps followed by `b` steps are `a + b` steps. */
  lemma {:induction false} StepNAdd(s: int, a: nat, b: nat)
    requires 0 <= s < TWO_48
    ensures StepN(StepN(s, a), b) == StepN(s, a + b)
    decreases b
  {
    if b > 0 {
      StepNAdd(s, a, b - 1);
    }
  }

  /** Where the halving loop of `nextLong(n)` ends: the state, the offset and the `n` left. */
  datatype Halved = Halved(state: int, offset: int, n: int)

  /**
   * The halving loop of `nextLong(n)` run from generator state `state`, with `n`
   * and `offset` as they stand: while `n >= Integer.MAX_VALUE` it takes one step of
   * the generator, reads `bits = next(2)`, keeps the lower half `n >>> 1` when bit 2
   * is clear and the upper half `n - half` otherwise, and when bit 1 is clear adds
   * the part skipped, `n - nextn`, to the offset. The loop ends with `n` below
   * `Integer.MAX_VALUE`, the offset plus the `n` left within what it started with.
   */
  function Halve(state: int, n: int, offset: int): (h: Halved)
    requires 0 <= state < TWO_48 && 0 < n && 0 <= offset
    ensures 0 <= h.state < TWO_48
    ensures 0 < h.n < MAX_INT && 0 <= offset <= h.offset && h.offset + h.n <= offset + n
    decreases n
  {
    if n < MAX_INT then Halved(state, offset, n)
    else
      var s := Step(state);
      var bits := s / TWO_46;
      var half := n / 2;
      var nextn := if bits / 2 % 2 == 0 then half else n - half;
      Halve(s, nextn, if bits % 2 == 0 then offset + (n - nextn) else offset)
  }

  /** The number of rounds the halving loop runs, one generator step each. */
  function Rounds(state: int, n: int): (k: nat)
    requires 0 <= state < TWO_48 && 0 < n
    decreases n
  {
    if n < MAX_INT then 0
    else
      var s := Step(state);
      var bits := s / TWO_46;
      var half := n / 2;
      Rounds(s, if bits / 2 % 2 == 0 then half else n - half) + 1
  }

  /** The state the halving loop leaves is the start state advanced by one step per round. */
  lemma {:induction false} HalveSteps(state: int, n: int, offset: int)
    requires 0 <= state < TWO_48 && 0 < n && 0 <= offset
    ensures Halve(state, n, offset).state == StepN(state, Rounds(state, n))
    decreases n
  {
    if n >= MAX_INT {
      var s := Step(state);
      var bits := s / TWO_46;
      var half := n / 2;
      var nextn := if bits / 2 % 2 == 0 then half else n - half;
      var nextOffset := if bits % 2 == 0 then offset + (n - nextn) else offset;
      var k := Rounds(s, nextn);
      assert Halve(state, n, offset) == Halve(s, nextn, nextOffset);
      assert Rounds(state, n) == k + 1;
      HalveSteps(s, nextn, nextOffset);
      assert StepN(state, 1) == s;
      StepNAdd(state, 1, k);
    }
  }

  class ThreadLocalRandom {
    /** The 48-bit state. */
    var rnd: int
    /** Set once the constructor has finished; `setSeed` is refused from then on. */
    var initialized: bool
    /**
     * The inherited `nextInt(int)`, whose code is not part of this model, as an
     * oracle: its k-th call returns `intTape(k) % n` after `1 + rejections(k)` calls
     * of `next(31)`.
     */
    const intTape: nat -> nat
    const rejections: nat -> nat
    var intDrawn: nat

    ghost predicate Valid()
      reads this
    {
      0 <= rnd < TWO_48
    }

    /**
     * The value `nextLong(n)` returns for a positive `n` from state `state` when its
     * `nextInt` is the `k`-th call, with the state it leaves: the offset the halving
     * loop reaches plus the draw on the `n` it leaves, after one generator step per
     * round and the steps of the draw.
     */
    function LongDraw(state: int, n: int, k: nat): (d: (int, int))
      requires 0 <= state < TWO_48 && n > 0
      ensures 0 <= d.0 < n && 0 <= d.1 < TWO_48
    {
      var h := Halve(state, n, 0);
      (h.offset + intTape(k) % h.n, StepN(state, Rounds(state, n) + 1 + rejections(k)))
    }

    /**
     * `ThreadLocalRandom()`: the superclass constructor calls the overriding
     * `setSeed` with a seed derived from the clock (here the parameter `seed`),
     * which succeeds because `initialized` is still false; then `initialized` is set.
     */
    constructor (seed: int64, intTape: nat -> nat, rejections: nat -> nat)
      ensures Valid()
      ensures initialized && rnd == Scramble(seed)
      ensures this.intTape == intTape && this.rejections == rejections && intDrawn == 0
    {
      this.intTape := intTape;
      this.rejections := rejections;
      intDrawn := 0;
      initialized := false;
      rnd := 0;
      new;
      var accepted := SetSeed(seed);
      initialized := true;
    }

    /** `setSeed(seed)`: throws once initialized, otherwise installs the scrambled seed. */
    method SetSeed(seed: int64) returns (res: Result<()>)
      requires Valid()
      modifies this
      ensures initialized ==> res == Throw(UnsupportedOperation) && unchanged(this)
      ensures !initialized ==> res == Ok(()) && rnd == Scramble(seed)
      ensures initialized == old(initialized) && intDrawn == old(intDrawn)
      ensures Valid()
    {
      if initialized {
        return Throw(UnsupportedOperation);
      }
      rnd := Scramble(seed);
      res := Ok(());
    }

    /** `next(bits)`: one step of the generator, returning the top `bits` bits of the new state. */
    method Next(bits: int) returns (r: int32)
      requires Valid() && 1 <= bits <= 32
      modifies this
      ensures Valid()
      ensures rnd == Step(old(rnd)) && r == Output(rnd, bits)
      ensures 1 <= bits <= 31 ==> 0 <= r < Pow2(bits)
      ensures initialized == old(initialized) && intDrawn == old(intDrawn)
    {
      rnd := Step(rnd);
      r := Output(rnd, bits);
      if bits <= 31 {
        OutputRange(rnd, bits);
      }
    }

    /** The inherited `nextInt(n)`: throws for a non-positive `n`, otherwise a value in `[0, n)`. */
    method NextInt(n: int32) returns (res: Result<int32>)
      requires Valid()
      modifies this
      ensures Valid()
      ensures n <= 0 ==> res == Throw(IllegalArgument) && unchanged(this)
      ensures n > 0 ==>
        && res == Ok(intTape(old(intDrawn)) % n)
        && 0 <= res.value < n
        && rnd == StepN(old(rnd), 1 + rejections(old(intDrawn)))
        && intDrawn == old(intDrawn) + 1
      ensures initialized == old(initialized)
    {
      if n <= 0 {
        return Throw(IllegalArgument);
      }
      rnd := StepN(rnd, 1 + rejections(intDrawn));
      res := Ok(intTape(intDrawn) % n);
      intDrawn := intDrawn + 1;
    }

    /**
     * The halving loop of `nextLong(n)` and its final draw, on an exact positive
     * `n`: `offset + nextInt((int) n)` with the offset and `n` the loop ends with.
     * Every round takes one generator step and the draw its own steps.
     */
    method Halving(n0: int) returns (r: int)
      requires Valid() && n0 > 0
      modifies this
      ensures Valid()
      ensures (r, rnd) == LongDraw(old(rnd), n0, old(intDrawn)) && intDrawn == old(intDrawn) + 1
      ensures initialized == old(initialized)
    {
      ghost var h0 := Halve(rnd, n0, 0);
      HalveSteps(rnd, n0, 0);
      StepNAdd(rnd, Rounds(rnd, n0), 1 + rejections(intDrawn));
      var n := n0;
      var offset := 0;
      while n >= MAX_INT
        invariant Valid()
        invariant 0 < n && 0 <= offset
        invariant Halve(rnd, n, offset) == h0
        invariant intDrawn == old(intDrawn) && initialized == old(initialized)
        decreases n
      {
        n, offset := HalvingRound(n, offset);
      }
      var d := NextInt(n as int32);
      r := offset + d.value;
    }

    /** One round of the halving loop: one `next(2)` step, leaving the rest of the loop's run unchanged. */
    method HalvingRound(n: int, offset: int) returns (nextn: int, nextOffset: int)
      requires Valid() && MAX_INT <= n && 0 <= offset
      modifies this
      ensures Valid()
      ensures rnd == Step(old(rnd))
      ensures 0 < nextn < n && 0 <= nextOffset
      ensures Halve(rnd, nextn, nextOffset) == Halve(old(rnd), n, offset)
      ensures intDrawn == old(intDrawn) && initialized == old(initialized)
    {
      var bits := Next(2);
      OutputTwoBits(rnd);
      var half := n / 2;
      nextn := if bits / 2 % 2 == 0 then half else n - half;
      nextOffset := offset;
      if bits % 2 == 0 {
        nextOffset := offset + (n - nextn);
      }
    }

    /** `nextLong(n)`: throws for a non-positive `n`, otherwise a value in `[0, n)`. */
    method NextLong(n: int64) returns (res: Result<int64>)
      requires Valid()
      modifies this
      ensures Valid()
      ensures n <= 0 ==> res == Throw(IllegalArgument) && unchanged(this)
      ensures n > 0 ==> res.Ok? && 0 <= res.value < n
      ensures n > 0 ==> (res.value, rnd) == LongDraw(old(rnd), n, old(intDrawn)) && intDrawn == old(intDrawn) + 1
      ensures initialized == old(initialized)
    {
      if n <= 0 {
        return Throw(IllegalArgument);
      }
      var r := Halving(n);
      res := Ok(r);
    }

    /**
     * `nextLong(least, bound)` as written: `nextLong(bound - least) + least` in
     * `long` arithmetic. When `bound - least` overflows (it exceeds Long.MAX_VALUE)
     * the wrapped difference is negative and the call throws, although
     * `least < bound`.
     */
    method NextLongRange(least: int64, bound: int64) returns (res: Result<int64>)
      requires Valid()
      modifies this
      ensures Valid()
      ensures least >= bound ==> res == Throw(IllegalArgument) && unchanged(this)
      ensures least < bound && bound - least <= MAX_LONG ==> res.Ok? && least <= res.value < bound
      ensures least < bound && bound - least <= MAX_LONG ==>
        var (v, state) := LongDraw(old(rnd), bound - least, old(intDrawn));
        res.value == Wrap64(v + least) && rnd == state && intDrawn == old(intDrawn) + 1
      ensures least < bound && bound - least > MAX_LONG ==> res == Throw(IllegalArgument) && unchanged(this)
      ensures initialized == old(initialized)
    {
      if least >= bound {
        return Throw(IllegalArgument);
      }
      var diff := Wrap64(bound - least);
      if bound - least > MAX_LONG {
        WrapOverflowNegative(bound - least);
      }
      var m := NextLong(diff);
      if m.Throw? {
        return Throw(m.error);
      }
      res := Ok(Wrap64(m.value + least));
    }

    /**
     * `nextLong(least, bound)` as evidently intended: the exact difference, which is
     * positive whenever `least < bound`, goes through the same halving; the result
     * always lies in `[least, bound)`.
     */
    method NextLongRangeExact(least: int64, bound: int64) returns (res: Result<int64>)
      requires Valid()
      modifies this
      ensures Valid()
      ensures least >= bound ==> res == Throw(IllegalArgument) && unchanged(this)
      ensures least < bound ==> res.Ok? && least <= res.value < bound
      ensures least < bound ==>
        var (v, state) := LongDraw(old(rnd), bound - least, old(intDrawn));
        res.value == v + least && rnd == state && intDrawn == old(intDrawn) + 1
      ensures initialized == old(initialized)
    {
      if least >= bound {
        return Throw(IllegalArgument);
      }
      var r := Halving(bound - least);
      res := Ok(least + r);
    }
  }

  /** A difference of two `long`s above Long.MAX_VALUE wraps to a negative `long`. */
  lemma WrapOverflowNegative(d: int)
    requires MAX_LONG < d < TWO_64
    ensures Wrap64(d) == d - TWO_64 < 0
  {
    var w := Wrap64(d);
    var k := (w - d) / TWO_64;
    assert w - d == k * TWO_64;
  }

  /** `nextLong(Long.MIN_VALUE, 1)` throws: the wrapped difference is negative although `least < bound`. */
  lemma NextLongRangeOverflowExample()
    ensures MIN_LONG < 1 && 1 - MIN_LONG > MAX_LONG && Wrap64(1 - MIN_LONG) < 0
  {
    WrapOverflowNegative(1 - MIN_LONG);
  }
}
