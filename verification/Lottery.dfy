/** The lottery of proc.c's scheduler() on top of rand.c's random_at_most(). */
module Lottery {
  import opened Common
  import opened MersenneTwister

  /** What the scheduler reads of a process-table slot. */
  datatype Slot = Slot(runnable: bool, tickets: nat)

  /** The constant the scheduler passes to random_at_most. */
  const DRAW_MAX := 982343221

  function Total(slots: seq<Slot>): nat {
    if slots == [] then 0 else Total(slots[..|slots| - 1]) + slots[|slots| - 1].tickets
  }

  /** Every slot counts, in whatever state: changing one changes the sum by the difference, and without tickets it is
      zero. */
  lemma {:induction false} TotalChange(slots: seq<Slot>, i: nat, s: Slot)
    requires i < |slots|
    ensures Total(slots[i := s]) - s.tickets == Total(slots) - slots[i].tickets
    ensures (forall j :: 0 <= j < |slots| ==> slots[j].tickets == 0) ==> Total(slots) == 0
    decreases |slots|
  {
    var n := |slots| - 1;
    var first := slots[..n];
    assert slots[i := s][..n] == if i < n then first[i := s] else first;
    if i < n {
      TotalChange(first, i, s);
    } else if n > 0 {
      TotalChange(first, 0, s);
    }
  }

  function Tickets(s: Slot): nat {
    if s.runnable then s.tickets else 0
  }

  /** The tickets held by RUNNABLE slots before slot i. */
  function Before(slots: seq<Slot>, i: nat): nat
    requires i <= |slots|
  {
    if i == 0 then 0 else Before(slots, i - 1) + Tickets(slots[i - 1])
  }

  /** Here RUNNABLE slots count and others do not. */
  lemma {:induction false} BeforeChange(slots: seq<Slot>, i: nat, s: Slot, k: nat)
    requires i < |slots| && k <= |slots|
    ensures Before(slots[i := s], k) - (if i < k && s.runnable then s.tickets else 0) ==
      Before(slots, k) - if i < k && slots[i].runnable then slots[i].tickets else 0
    ensures (forall j :: 0 <= j < k && slots[j].runnable ==> slots[j].tickets == 0) ==> Before(slots, k) == 0
    decreases k
  {
    if k > 0 {
      BeforeChange(slots, i, s, k - 1);
    }
  }

  /** The draw falls in slot i's interval of the cumulative ticket line. */
  predicate Wins(slots: seq<Slot>, i: nat, draw: int)
    requires i < |slots|
  {
    slots[i].runnable && Before(slots, i) <= draw < Before(slots, i) + slots[i].tickets
  }

  lemma {:induction false} BeforeMono(slots: seq<Slot>, i: nat, j: nat)
    requires i <= j <= |slots|
    ensures Before(slots, i) <= Before(slots, j)
  {
    if i < j {
      BeforeMono(slots, i, j - 1);
    }
  }

  lemma {:induction false} BeforeBelowTotal(slots: seq<Slot>, i: nat)
    requires i <= |slots|
    ensures Before(slots, i) <= Total(slots[..i])
  {
    if i > 0 {
      BeforeBelowTotal(slots, i - 1);
      assert slots[..i][..i - 1] == slots[..i - 1];
    }
  }

  /** At most one slot wins a draw. */
  lemma WinnerUnique(slots: seq<Slot>, i: nat, j: nat, draw: int)
    requires i < |slots| && j < |slots| && Wins(slots, i, draw) && Wins(slots, j, draw)
    ensures i == j
  {
    if i < j {
      BeforeMono(slots, i + 1, j);
    } else if j < i {
      BeforeMono(slots, j + 1, i);
    }
  }

  /** The first loop of the scheduler. */
  method TotalTickets(slots: seq<Slot>) returns (total: nat)
    ensures total == Total(slots)
  {
    total := 0;
    var p := 0;
    while p < |slots|
      invariant 0 <= p <= |slots|
      invariant total == Total(slots[..p])
    {
      assert slots[..p + 1][..p] == slots[..p];
      total := total + slots[p].tickets;
      p := p + 1;
    }
    assert slots[..p] == slots;
  }

  /** The selection loop: the slot in whose interval the draw lies, if there is one, and none
      exactly when the draw is past all RUNNABLE slots. */
  method Select(slots: seq<Slot>, draw: nat) returns (r: Option<nat>)
    ensures r.None? <==> draw >= Before(slots, |slots|)
    ensures forall i: nat :: i < |slots| ==> (r == Some(i) <==> Wins(slots, i, draw))
  {
    var sum := 0;
    var p := 0;
    while p < |slots|
      invariant 0 <= p <= |slots|
      invariant sum == Before(slots, p) <= draw
      invariant forall i: nat :: i < p ==> !Wins(slots, i, draw)
    {
      if slots[p].runnable {
        if slots[p].tickets + sum > draw {
          forall i: nat | i < |slots| ensures Some(p) == Some(i) <==> Wins(slots, i, draw) {
            if Wins(slots, i, draw) {
              WinnerUnique(slots, p, i, draw);
            }
          }
          BeforeMono(slots, p + 1, |slots|);
          return Some(p);
        }
        sum := sum + slots[p].tickets;
      }
      p := p + 1;
    }
    return None;
  }

  // ---------- Counting the generator outputs ----------

  /** How many of 0, ..., n - 1 satisfy p. */
  ghost function Count(n: nat, p: int -> bool): nat {
    if n == 0 then 0 else Count(n - 1, p) + if p(n - 1) then 1 else 0
  }

  /** Counting agrees with the size of the set. */
  lemma {:induction false} CountIsCardinality(n: nat, p: int -> bool, s: set<int>)
    requires forall x :: x in s <==> 0 <= x < n && p(x)
    ensures |s| == Count(n, p)
  {
    if n == 0 {
      assert s == {};
    } else if p(n - 1) {
      CountIsCardinality(n - 1, p, s - {n - 1});
    } else {
      CountIsCardinality(n - 1, p, s);
    }
  }

  /** Over a stretch on which p is constant, the count grows by its length or not at all. */
  lemma {:induction false} CountStretch(start: nat, j: nat, p: int -> bool, value: bool)
    requires forall x :: start <= x < start + j ==> p(x) == value
    ensures Count(start + j, p) == Count(start, p) + if value then j else 0
  {
    if j > 0 {
      CountStretch(start, j - 1, p, value);
    }
  }

  /** x lies in bin number q of width b. */
  ghost predicate InBin(x: int, q: int, b: int) {
    q * b <= x < (q + 1) * b
  }

  /** Every bin below n has exactly b members. */
  lemma {:induction false} CountBins(n: nat, b: nat, m: nat, p: int -> bool, pBin: int -> bool)
    requires m == n * b
    requires forall x, q {:trigger InBin(x, q, b)} :: InBin(x, q, b) && 0 <= q < n ==> p(x) == pBin(q)
    ensures Count(m, p) == b * Count(n, pBin)
    decreases n
  {
    if n > 0 {
      var m' := (n - 1) * b;
      Distribute(n - 1, 1, b);
      CountBins(n - 1, b, m', p, pBin);
      forall x | m' <= x < m' + b ensures p(x) == pBin(n - 1) {
        assert InBin(x, n - 1, b);
      }
      CountStretch(m', b, p, pBin(n - 1));
      Distribute(Count(n - 1, pBin), 1, b);
    }
  }

  lemma Distribute(x: int, y: int, z: int)
    ensures (x + y) * z == x * z + y * z && z * (x + y) == z * x + z * y
  {
  }

  lemma MulSmall(b: int, d: int)
    requires b > 0 && -b < b * d < b
    ensures d == 0
  {
    if d > 0 {
      MulMono(b, 1, d);
    } else if d < 0 {
      MulMono(b, d, -1);
    }
  }

  lemma Quotient(b: int, q: int, r: int)
    requires 0 <= r < b
    ensures (q * b + r) / b == q && (q * b + r) % b == r
  {
    var x := q * b + r;
    var q' := x / b;
    Distribute(q', -q, b);
    MulSmall(b, q' - q);
  }

  /** Adding one to n: the quotient by t moves on exactly when the remainder wraps. */
  lemma DivStep(n: nat, t: nat)
    requires t > 0
    ensures if n % t == t - 1 then (n + 1) / t == n / t + 1 && (n + 1) % t == 0
            else (n + 1) / t == n / t && (n + 1) % t == n % t + 1
  {
    var q, r := n / t, n % t;
    assert n == q * t + r;
    if r == t - 1 {
      Distribute(q, 1, t);
      Quotient(t, q + 1, 0);
    } else {
      Quotient(t, q, r + 1);
    }
  }

  /** How much of [lo, lo + k) lies below r. */
  function Part(r: int, lo: nat, k: nat): nat {
    if r <= lo then 0 else if r - lo <= k then r - lo else k
  }

  /** The remainder of v by t lies in [lo, lo + k). */
  predicate Falls(v: int, t: nat, lo: nat, k: nat)
    requires t > 0
  {
    lo <= v % t < lo + k
  }

  /** How many of 0, ..., n - 1 leave a remainder in [lo, lo + k): k for each full turn, and the
      part of the range that the last, incomplete turn reaches. */
  lemma {:induction false} CountResidues(n: nat, t: nat, lo: nat, k: nat, p: int -> bool)
    requires t > 0 && lo + k <= t
    requires forall v :: 0 <= v < n ==> p(v) == Falls(v, t, lo, k)
    ensures Count(n, p) == k * (n / t) + Part(n % t, lo, k)
  {
    if n > 0 {
      CountResidues(n - 1, t, lo, k, p);
      DivStep(n - 1, t);
      Distribute((n - 1) / t, 1, k);
    } else {
      Quotient(t, 0, 0);
    }
  }

  /** The generator outputs that random_at_most accepts and that make the scheduler choose slot i. */
  ghost predicate Elects(slots: seq<Slot>, i: nat, x: int)
    requires i < |slots| && Total(slots) > 0
  {
    0 <= x < Limit(DRAW_MAX) && Wins(slots, i, x / BinSize(DRAW_MAX) % Total(slots))
  }

  /** In numbers: two outputs for each of the 982343222 draws. */
  lemma ElectsIs(slots: seq<Slot>, i: nat, x: int)
    requires i < |slots| && Total(slots) > 0
    ensures Elects(slots, i, x) <==>
      && 0 <= x < 2 * 982343222 && slots[i].runnable
      && Before(slots, i) <= x / 2 % Total(slots) < Before(slots, i) + slots[i].tickets
  {
  }

  lemma {:induction false} CountOne(n: nat, v: int, p: int -> bool)
    requires forall x :: 0 <= x < n ==> p(x) == (x == v)
    ensures Count(n, p) == if 0 <= v < n then 1 else 0
  {
    if n > 0 {
      CountOne(n - 1, v, p);
    }
  }

  /** Each value that random_at_most(max) can return has exactly BinSize(max) accepted outputs. */
  lemma EqualPreimages(max: nat, v: int, s: set<int>)
    requires max < NUM_RAND && 0 <= v <= max
    requires forall x :: x in s <==> 0 <= x < Limit(max) && BinSize(max) > 0 && x / BinSize(max) == v
    ensures |s| == BinSize(max)
  {
    var n, b := max + 1, BinSize(max);
    BinRange(max, 0);
    var p: int -> bool := x => b > 0 && x / b == v;
    var pBin: int -> bool := q => q == v;
    CountIsCardinality(Limit(max), p, s);
    forall x, q | InBin(x, q, b) && 0 <= q < n ensures p(x) == pBin(q) {
      Distribute(q, 1, b);
      Quotient(b, q, x - q * b);
    }
    CountBins(n, b, Limit(max), p, pBin);
    CountOne(n, v, pBin);
  }

  /** One turn of scheduler(): total, draw, reduce, select, on a snapshot of the process table.
      The slot chosen is the one that the accepted generator output elects. */
  method PickProcess(slots: seq<Slot>, gen: Generator, ghost witnessCall: nat) returns (r: Option<nat>)
    requires gen.Valid() && InRange(gen.ops)
    requires gen.calls <= witnessCall && Output(gen.ops, gen.seed, witnessCall) < Limit(DRAW_MAX)
    modifies gen, gen.mt
    ensures gen.Valid() && gen.calls > 0
    ensures var x := Output(gen.ops, gen.seed, gen.calls - 1);
      Total(slots) > 0 ==> forall i: nat :: i < |slots| ==> (r == Some(i) <==> Elects(slots, i, x))
    ensures Total(slots) == 0 ==> r.None?
  {
    var total := TotalTickets(slots);
    var draw := gen.RandomAtMost(DRAW_MAX, witnessCall);
    ghost var x := Output(gen.ops, gen.seed, gen.calls - 1);
    assert 0 <= x;
    if total > 0 {
      draw := draw % total;
    } else {
      draw := 0;
      BeforeBelowTotal(slots, |slots|);
      assert slots[..|slots|] == slots;
    }
    r := Select(slots, draw);
  }

  function Ceil(n: nat, t: nat): nat
    requires t > 0
  {
    n / t + if n % t == 0 then 0 else 1
  }

  /** The exact number of accepted outputs that elect a RUNNABLE slot. */
  lemma LotteryCount(slots: seq<Slot>, i: nat, winners: set<int>)
    requires i < |slots| && slots[i].runnable && Total(slots) > 0
    requires forall x :: x in winners <==> Elects(slots, i, x)
    ensures var n, t, T := DRAW_MAX + 1, slots[i].tickets, Total(slots);
      |winners| == 2 * (t * (n / T) + Part(n % T, Before(slots, i), t))
  {
    var n, t, T, lo := DRAW_MAX + 1, slots[i].tickets, Total(slots), Before(slots, i);
    BeforeBelowTotal(slots, i + 1);
    TotalMono(slots, i + 1);
    var p: int -> bool := x => T > 0 && Falls(x / 2, T, lo, t);
    var pBin: int -> bool := v => T > 0 && Falls(v, T, lo, t);
    CountIsCardinality(Limit(DRAW_MAX), p, winners);
    forall x, q | InBin(x, q, 2) && 0 <= q < n ensures p(x) == pBin(q) {
      assert x / 2 == q;
    }
    CountBins(n, 2, Limit(DRAW_MAX), p, pBin);
    CountResidues(n, T, lo, t, pBin);
  }

  /** A RUNNABLE slot with t of the T tickets is elected by between t * b * floor(N / T) and
      t * b * ceil(N / T) of the accepted outputs, where N = DRAW_MAX + 1 and b is the bin size. */
  lemma LotteryShare(slots: seq<Slot>, i: nat, winners: set<int>)
    requires i < |slots| && slots[i].runnable && Total(slots) > 0
    requires forall x :: x in winners <==> Elects(slots, i, x)
    ensures var n, t, T, b := DRAW_MAX + 1, slots[i].tickets, Total(slots), BinSize(DRAW_MAX);
      b * (t * (n / T)) <= |winners| <= b * (t * Ceil(n, T))
  {
    var n, t, T := DRAW_MAX + 1, slots[i].tickets, Total(slots);
    LotteryCount(slots, i, winners);
    Distribute(n / T, 1, t);
  }

  lemma {:induction false} TotalMono(slots: seq<Slot>, i: nat)
    requires i <= |slots|
    ensures Total(slots[..i]) <= Total(slots)
    decreases |slots| - i
  {
    if i < |slots| {
      TotalMono(slots, i + 1);
      assert slots[..i + 1][..i] == slots[..i];
    } else {
      assert slots[..i] == slots;
    }
  }
}
