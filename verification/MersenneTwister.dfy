/** rand.c: MT19937 with in-place regeneration of its 624-word state, and rejection sampling. */
module MersenneTwister {

  const N := 624
  const M := 397
  const NUM_RAND := 0x8000_0000

  // ---------- The sequence the generator is meant to produce ----------

  /** The three word operations of rand.c.  What is proved about the array holds whatever they are. */
  datatype Ops = Ops(next: bv32 -> bv32, combine: (bv32, bv32, bv32) -> bv32, draw: bv32 -> int)

  /** The sequence x[0], x[1], ... that starts from `seed` with sgenrand's generator and goes on with
      x[k + 624] = combine(x[k + 397], x[k], x[k + 1]). */
  ghost function X(ops: Ops, seed: bv32, k: nat): bv32 {
    if k == 0 then seed
    else if k < N then ops.next(X(ops, seed, k - 1))
    else ops.combine(X(ops, seed, k - N + M), X(ops, seed, k - N), X(ops, seed, k - N + 1))
  }

  /** The k-th number drawn since seeding. */
  ghost function Output(ops: Ops, seed: bv32, k: nat): int {
    ops.draw(X(ops, seed, N + k))
  }

  ghost predicate InRange(ops: Ops) {
    forall y :: 0 <= ops.draw(y) < NUM_RAND
  }

  function Next(x: bv32): bv32 {
    69069 * x
  }

  function Combine(z: bv32, u: bv32, v: bv32): bv32 {
    var y := (u & 0x8000_0000) | (v & 0x7fff_ffff);
    z ^ (y >> 1) ^ (if y & 1 == 0 then 0 else 0x9908_b0df)
  }

  /** The seed's successor is 69069 times the seed, modulo 2^32. */
  lemma NextIs(x: bv32)
    ensures Next(0) == 0 && Next(x + 1) == Next(x) + 69069
  {
  }

  lemma Pieces(u: bv32, v: bv32)
    ensures u & 0x8000_0000 == if u >= 0x8000_0000 then 0x8000_0000 else 0
    ensures v & 0x7fff_ffff == v % 0x8000_0000
    ensures (u & 0x8000_0000) | (v & 0x7fff_ffff) == (u & 0x8000_0000) + (v & 0x7fff_ffff)
  {
  }

  lemma Halves(u: bv32, v: bv32, y: bv32)
    requires y == (u & 0x8000_0000) | (v & 0x7fff_ffff)
    ensures y >> 1 == y / 2 && (y & 1 == 0 <==> v % 2 == 0) && (v % 2 == 0 || v % 2 == 1)
  {
  }

  /** The twist in arithmetic: half of the number with u's top bit and v's low 31 bits, and the matrix if v is odd. */
  lemma CombineIs(z: bv32, u: bv32, v: bv32, y: bv32)
    requires y == (if u >= 0x8000_0000 then 0x8000_0000 else 0) + v % 0x8000_0000
    ensures Combine(z, u, v) == z ^ (y / 2) ^ (if v % 2 == 1 then 0x9908_b0df else 0)
  {
    Pieces(u, v);
    Halves(u, v, y);
  }

  /** From a new word and the word M places on: the top bit of u and the low bits of v. */
  function Uncombine(z: bv32, x: bv32): bv32 {
    var w := x ^ z;
    if w & 0x8000_0000 == 0 then w << 1 else ((w ^ 0x9908_b0df) << 1) | 1
  }

  /** The twist loses nothing of the two half-words it is given. */
  lemma CombineInvertible(z: bv32, u: bv32, v: bv32)
    ensures Uncombine(z, Combine(z, u, v)) == (u & 0x8000_0000) | (v & 0x7fff_ffff)
  {
  }

  function TemperU(y: bv32): bv32 { y ^ (y >> 11) }
  function TemperS(y: bv32, w: bv32): bv32 { y ^ ((w << 7) & 0x9d2c_5680) }
  function TemperT(y: bv32): bv32 { y ^ ((y << 15) & 0xefc6_0000) }
  function TemperL(y: bv32): bv32 { y ^ (y >> 18) }

  function Temper(y: bv32): bv32 {
    TemperL(TemperT(TemperS(TemperU(y), TemperU(y))))
  }

  function UntemperU(x: bv32): bv32 { x ^ (x >> 11) ^ (x >> 22) }
  function UntemperS(x: bv32): bv32 { TemperS(x, TemperS(x, TemperS(x, TemperS(x, x)))) }

  /** Undo the four tempering steps, last first. */
  function Untemper(t: bv32): bv32 {
    UntemperU(UntemperS(TemperT(TemperL(t))))
  }

  lemma ShiftU(y: bv32)
    ensures (y ^ (y >> 11)) ^ ((y ^ (y >> 11)) >> 11) ^ ((y ^ (y >> 11)) >> 22) == y
  {
  }

  lemma ShiftL(y: bv32)
    ensures (y ^ (y >> 18)) ^ ((y ^ (y >> 18)) >> 18) == y
  {
  }

  lemma UndoU(y: bv32)
    ensures UntemperU(TemperU(y)) == y
  {
    assert TemperU(y) == y ^ (y >> 11);
    assert UntemperU(y ^ (y >> 11)) == y by { ShiftU(y); }
  }

  lemma UndoL(y: bv32)
    ensures TemperL(TemperL(y)) == y
  {
    assert TemperL(y) == y ^ (y >> 18);
    assert TemperL(y ^ (y >> 18)) == y by { ShiftL(y); }
  }

  lemma UndoS(y: bv32)
    ensures UntemperS(TemperS(y, y)) == y
  {
  }

  lemma UndoT(y: bv32)
    ensures TemperT(TemperT(y)) == y
  {
  }

  /** Tempering loses nothing: it permutes the 32-bit words. */
  lemma TemperInvertible(y: bv32)
    ensures Untemper(Temper(y)) == y
  {
    var y1 := TemperU(y);
    UndoU(y);
    UndoS(y1);
    UndoT(TemperS(y1, y1));
    UndoL(TemperT(TemperS(y1, y1)));
  }

  lemma StepU(y: bv32)
    ensures TemperU(y) == y ^ (y / 2048)
  {
    assert y >> 11 == y / 2048;
  }

  lemma StepS(y: bv32)
    ensures TemperS(y, y) == y ^ ((128 * y) & 0x9d2c_5680)
  {
    assert y << 7 == 128 * y;
  }

  lemma StepT(y: bv32)
    ensures TemperT(y) == y ^ ((32768 * y) & 0xefc6_0000)
  {
    assert y << 15 == 32768 * y;
  }

  lemma StepL(y: bv32)
    ensures TemperL(y) == y ^ (y / 262144)
  {
    assert y >> 18 == y / 262144;
  }

  /** Tempering in arithmetic: the four shifts are by 2^11, 2^7, 2^15 and 2^18, the masks 0x9d2c5680 and 0xefc60000. */
  lemma TemperIs(y: bv32, y1: bv32, y2: bv32, y3: bv32)
    requires y1 == y ^ (y / 2048) && y2 == y1 ^ ((128 * y1) & 0x9d2c_5680) && y3 == y2 ^ ((32768 * y2) & 0xefc6_0000)
    ensures Temper(y) == y3 ^ (y3 / 262144)
  {
    StepU(y);
    StepS(y1);
    StepT(y2);
    StepL(y3);
  }

  /** The number is the word without its top bit. */
  lemma Low31Is(y: bv32)
    ensures 0 <= Low31(y) < 0x8000_0000 && Low31(y) as bv31 == (y % 0x8000_0000) as bv31
  {
    assert y % 0x8000_0000 == y & 0x7fff_ffff;
  }

  function Low31(y: bv32): int {
    ((y & 0x7fff_ffff) as bv31) as int
  }

  function Mt19937(): Ops {
    Ops(Next, Combine, y => Low31(Temper(y)))
  }

  lemma Mt19937InRange()
    ensures InRange(Mt19937())
  {
    forall y: bv32 ensures 0 <= Mt19937().draw(y) < NUM_RAND {
      assert Mt19937().draw(y) == Low31(Temper(y));
    }
  }

  /** The words of rand.c's own generator. */
  ghost function Twister(seed: bv32, k: nat): bv32 {
    X(Mt19937(), seed, k)
  }

  lemma XRecurs(ops: Ops, seed: bv32, k: nat)
    ensures X(ops, seed, 0) == seed && (k + 1 < N ==> X(ops, seed, k + 1) == ops.next(X(ops, seed, k)))
    ensures X(ops, seed, k + N) == ops.combine(X(ops, seed, k + M), X(ops, seed, k), X(ops, seed, k + 1))
  {
  }

  lemma OpsAre(x: bv32, u: bv32, v: bv32)
    ensures Mt19937().next(x) == Next(x) && Mt19937().combine(x, u, v) == Combine(x, u, v)
  {
  }

  /** They start with sgenrand's steps and go on with the twist. */
  lemma TwisterRecurs(seed: bv32, k: nat)
    ensures Twister(seed, 0) == seed && (k + 1 < 624 ==> Twister(seed, k + 1) == Next(Twister(seed, k)))
    ensures Twister(seed, k + 624) == Combine(Twister(seed, k + 397), Twister(seed, k), Twister(seed, k + 1))
  {
    XRecurs(Mt19937(), seed, k);
    OpsAre(Twister(seed, k), Twister(seed, k), Twister(seed, k + 1));
    OpsAre(Twister(seed, k + M), Twister(seed, k), Twister(seed, k + 1));
  }

  /** The recurrence at place k of a stretch of words. */
  ghost predicate Recurs(ops: Ops, xs: seq<bv32>, k: nat)
    requires |xs| == 2 * N && k < N
  {
    xs[k + N] == ops.combine(xs[k + M], xs[k], xs[k + 1])
  }

  /** The 2N words of the sequence from number b on. */
  ghost function Words(ops: Ops, seed: bv32, b: nat): (xs: seq<bv32>)
    ensures |xs| == 2 * N && forall k :: 0 <= k < 2 * N ==> xs[k] == X(ops, seed, b + k)
    ensures forall k {:trigger Recurs(ops, xs, k)} :: 0 <= k < N ==> Recurs(ops, xs, k)
  {
    seq(2 * N, k requires k >= 0 => X(ops, seed, b + k))
  }

  // ---------- Rejection sampling ----------

  function BinSize(max: nat): nat { NUM_RAND / (max + 1) }

  function Limit(max: nat): int { NUM_RAND - NUM_RAND % (max + 1) }

  class Generator {
    const ops: Ops
    var mt: array<bv32>
    var mti: nat
    ghost var seed: bv32
    ghost var base: nat
    ghost var calls: nat

    /** The array is a window of the recurrence, and the next word to hand out is number N + calls.
        mti == N + 1 marks a generator that was never seeded. */
    ghost predicate Valid()
      reads this, mt
    {
      && mt.Length == N && mti <= N + 1
      && (mti == N + 1 ==> seed == 4357 && calls == 0)
      && (mti <= N ==> base + mti == N + calls && forall j :: 0 <= j < N ==> mt[j] == X(ops, seed, base + j))
    }

    /** The static state before any call. */
    constructor (ops: Ops)
      ensures this.ops == ops && Valid() && seed == 4357 && calls == 0 && fresh(mt)
    {
      this.ops := ops;
      mt := new bv32[N];
      mti, seed, base, calls := N + 1, 4357, 0, 0;
    }

    /** rand.c's generator in that state. */
    constructor Kernel()
      ensures ops == Mt19937() && Valid() && seed == 4357 && calls == 0 && fresh(mt)
    {
      ops := Mt19937();
      mt := new bv32[N];
      mti, seed, base, calls := N + 1, 4357, 0, 0;
    }

    /** sgenrand */
    method Seed(s: bv32)
      requires mt.Length == N
      modifies this, mt
      ensures Valid() && seed == s && calls == 0 && mt == old(mt) && mti == N
    {
      mt[0] := s;
      seed, base, calls, mti := s, 0, 0, 1;
      while mti < N
        invariant 1 <= mti <= N && mt == old(mt) && seed == s && base == 0 && calls == 0
        invariant forall j :: 0 <= j < mti ==> mt[j] == X(ops, seed, j)
      {
        mt[mti] := ops.next(mt[mti - 1]);
        mti := mti + 1;
      }
    }

    /** Of 2N consecutive words xs, the array holds number N + j for j < kk and number j for the rest. */
    ghost predicate Half(xs: seq<bv32>, kk: nat)
      reads this, mt
    {
      && mt.Length == N && kk <= N && |xs| == 2 * N
      && (forall j :: 0 <= j < kk ==> mt[j] == xs[N + j])
      && (forall j :: kk <= j < N ==> mt[j] == xs[j])
    }

    /** One word of the new window, from the word M places on and the word's own successor.  Both
        indices wrap around, and by then refer to words that are already regenerated. */
    method RegenerateWord(ghost xs: seq<bv32>, kk: nat, far: nat, succ: nat)
      requires Half(xs, kk) && kk < N && Recurs(ops, xs, kk)
      requires far == (if kk < N - M then kk + M else kk + M - N)
      requires succ == (if kk < N - 1 then kk + 1 else 0)
      modifies mt
      ensures Half(xs, kk + 1)
    {
      assert mt[far] == xs[kk + M] && mt[succ] == xs[kk + 1];
      mt[kk] := ops.combine(mt[far], mt[kk], mt[succ]);
    }

    /** The regeneration loops: the whole window moves on by N words, in place. */
    method Shift(ghost xs: seq<bv32>)
      requires Half(xs, 0)
      requires forall k {:trigger Recurs(ops, xs, k)} :: 0 <= k < N ==> Recurs(ops, xs, k)
      modifies mt
      ensures Half(xs, N)
    {
      var kk := 0;
      while kk < N - M
        invariant 0 <= kk <= N - M && Half(xs, kk)
      {
        RegenerateWord(xs, kk, kk + M, kk + 1);
        kk := kk + 1;
      }
      while kk < N - 1
        invariant N - M <= kk <= N - 1 && Half(xs, kk)
      {
        RegenerateWord(xs, kk, kk + M - N, kk + 1);
        kk := kk + 1;
      }
      RegenerateWord(xs, N - 1, M - 1, 0);
    }

    method Regenerate()
      requires Valid() && mti == N
      modifies this`mti, this`base, mt
      ensures Valid() && mti == 0 && base == old(base) + N
    {
      Shift(Words(ops, seed, base));
      mti := 0;
      base := base + N;
    }

    /** genrand: call number k returns the k-th output of the recurrence, for every seed and every k. */
    method GenRand() returns (r: int)
      requires Valid()
      modifies this, mt
      ensures Valid() && mt == old(mt) && seed == old(seed) && calls == old(calls) + 1
      ensures r == Output(ops, seed, old(calls))
    {
      if mti >= N {
        if mti == N + 1 {
          Seed(4357);
        }
        Regenerate();
      }
      var y := mt[mti];
      mti := mti + 1;
      calls := calls + 1;
      r := ops.draw(y);
    }

    /** random_at_most: the first draw below the limit, scaled down.  The loop ends because some
        draw to come, number `witnessCall`, is below the limit. */
    method RandomAtMost(max: nat, ghost witnessCall: nat) returns (r: int)
      requires Valid() && max < NUM_RAND && InRange(ops)
      requires calls <= witnessCall && Output(ops, seed, witnessCall) < Limit(max)
      modifies this, mt
      ensures Valid() && mt == old(mt) && seed == old(seed) && old(calls) < calls <= witnessCall + 1
      ensures forall k :: old(calls) <= k < calls - 1 ==> Output(ops, seed, k) >= Limit(max)
      ensures Output(ops, seed, calls - 1) < Limit(max)
      ensures r == Output(ops, seed, calls - 1) / BinSize(max)
      ensures 0 <= r <= max
    {
      var numBins := max + 1;
      var binSize := NUM_RAND / numBins;
      var defect := NUM_RAND % numBins;
      var x := GenRand();
      while NUM_RAND - defect <= x
        invariant Valid() && mt == old(mt) && seed == old(seed) && old(calls) < calls <= witnessCall + 1
        invariant forall k :: old(calls) <= k < calls - 1 ==> Output(ops, seed, k) >= Limit(max)
        invariant x == Output(ops, seed, calls - 1)
        decreases witnessCall + 1 - calls
      {
        x := GenRand();
      }
      BinRange(max, x);
      r := x / binSize;
    }
  }

  /** genrand as rand.c has it: the tempered words of the twister from number 624 on, cut to 31 bits. */
  method KernelRand(gen: Generator) returns (r: int)
    requires gen.Valid() && gen.ops == Mt19937()
    modifies gen, gen.mt
    ensures gen.Valid() && gen.mt == old(gen.mt) && gen.seed == old(gen.seed) && gen.calls == old(gen.calls) + 1
    ensures r == Low31(Temper(Twister(gen.seed, 624 + old(gen.calls)))) && 0 <= r < 0x8000_0000
  {
    Mt19937InRange();
    r := gen.GenRand();
  }

  /** No smaller limit and no larger bins would do: less than one value to a bin is rejected. */
  lemma LimitIs(max: nat)
    requires max < NUM_RAND
    ensures Limit(max) <= 0x8000_0000 < Limit(max) + (max + 1)
  {
    assert 0 <= NUM_RAND % (max + 1) < max + 1;
  }

  /** Below the limit, bins 0 to max are complete: each holds exactly the next BinSize values. */
  lemma BinRange(max: nat, x: int)
    requires max < NUM_RAND && 0 <= x < Limit(max)
    ensures BinSize(max) > 0 && Limit(max) == BinSize(max) * (max + 1)
    ensures 0 <= x / BinSize(max) <= max
  {
    var n, b := max + 1, BinSize(max);
    assert NUM_RAND == n * b + NUM_RAND % n;
    var q := x / b;
    assert x == b * q + x % b;
    if q > max {
      assert b * q >= b * n by { MulMono(b, n, q); }
    }
  }

  lemma MulMono(a: nat, x: int, y: int)
    requires x <= y
    ensures a * x <= a * y
  {
  }
}
