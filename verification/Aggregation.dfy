/**
 mini_project/data_aggregation: the sliding-window statistics of source.c and the weighted mean of aggregator.c,
 with doubles as reals.
 */
module Aggregation {
  import opened Options

  const WINDOW_SIZE: nat := 100
  const NUM_NODES: nat := 3

  // ----- sums over a window -----

  function Sum(s: seq<int>): int {
    if s == [] then 0 else s[0] + Sum(s[1..])
  }

  function SumSquares(s: seq<int>): int {
    if s == [] then 0 else s[0] * s[0] + SumSquares(s[1..])
  }

  /** The sum of the squared distances from mu. */
  function Deviation(s: seq<int>, mu: real): real {
    if s == [] then 0.0 else (s[0] as real - mu) * (s[0] as real - mu) + Deviation(s[1..], mu)
  }

  function Mean(s: seq<int>): real
    requires s != []
  {
    Sum(s) as real / |s| as real
  }

  /** The population variance, by its definition. */
  function Variance(s: seq<int>): real
    requires s != []
  {
    Deviation(s, Mean(s)) / |s| as real
  }

  function Last(s: seq<int>, n: nat): seq<int> {
    if |s| <= n then s else s[|s| - n..]
  }

  lemma {:induction false} SumSnoc(s: seq<int>, x: int)
    ensures Sum(s + [x]) == Sum(s) + x && SumSquares(s + [x]) == SumSquares(s) + x * x
  {
    if s == [] {
      assert s + [x] == [x] && [x][1..] == [];
    } else {
      assert (s + [x])[0] == s[0] && (s + [x])[1..] == s[1..] + [x];
      SumSnoc(s[1..], x);
    }
  }

  lemma {:induction false} DeviationExpanded(s: seq<int>, mu: real)
    ensures Deviation(s, mu) == Expanded(SumSquares(s) as real, Sum(s) as real, |s| as real, mu)
  {
    if s != [] {
      DeviationExpanded(s[1..], mu);
      ExpandStep(s[0], mu, SumSquares(s[1..]), Sum(s[1..]), |s[1..]|, Deviation(s[1..], mu));
    }
  }

  /** The sum of (x - mu) squared, from the sum q of squares, the sum r and the number n of the x. */
  function Expanded(q: real, r: real, n: real, mu: real): real {
    q - mu * (2.0 * r - n * mu)
  }

  lemma ExpandStep(x: int, mu: real, q: int, r: int, n: int, d: real)
    requires d == Expanded(q as real, r as real, n as real, mu)
    ensures (x as real - mu) * (x as real - mu) + d
         == Expanded((x * x + q) as real, (x + r) as real, (n + 1) as real, mu)
  {
    SquaresAsReal(x, 0);
    Binomial(x as real, mu, q as real, r as real, n as real);
  }

  lemma Binomial(x: real, mu: real, q: real, r: real, n: real)
    ensures (x - mu) * (x - mu) + (q - mu * (2.0 * r - n * mu)) == x * x + q - mu * (2.0 * (x + r) - (n + 1.0) * mu)
  {
  }

  lemma {:induction false} DeviationNonNegative(s: seq<int>, mu: real)
    ensures Deviation(s, mu) >= 0.0
  {
    if s != [] {
      DeviationNonNegative(s[1..], mu);
      SquareNonNegative(s[0] as real - mu);
    }
  }

  lemma SquareNonNegative(x: real)
    ensures x * x >= 0.0
  {
  }

  lemma DivNonNegative(x: real, y: real)
    requires x >= 0.0 && y > 0.0
    ensures x / y >= 0.0
  {
  }

  lemma VarianceNonNegative(s: seq<int>)
    requires s != []
    ensures Variance(s) >= 0.0
  {
    DeviationNonNegative(s, Mean(s));
    DivNonNegative(Deviation(s, Mean(s)), |s| as real);
  }

  /** The formula of the code, from the size, the sum and the sum of squares, is the population variance. */
  lemma VarianceFormula(s: seq<int>, n: real, r: real, q: real, mu: real)
    requires s != [] && n == |s| as real && r == Sum(s) as real && q == SumSquares(s) as real && mu == r / n
    ensures Mean(s) == mu && Variance(s) == q / n - mu * mu
  {
    DeviationExpanded(s, mu);
    Quotient(n, r, q, mu, Deviation(s, mu));
  }

  lemma Quotient(n: real, r: real, q: real, mu: real, d: real)
    requires n > 0.0 && mu == r / n && d == Expanded(q, r, n, mu)
    ensures d / n == q / n - mu * mu
  {
    assert r == mu * n;
    Combine(n, mu);
    DivSub(q, (mu * mu) * n, n);
    DivTimes(mu * mu, n);
  }

  lemma Combine(n: real, mu: real)
    ensures mu * (2.0 * (mu * n) - n * mu) == (mu * mu) * n
  {
  }

  lemma DivTimes(x: real, n: real)
    requires n > 0.0
    ensures (x * n) / n == x
  {
  }

  lemma DivSub(x: real, y: real, n: real)
    requires n > 0.0
    ensures (x - y) / n == x / n - y / n
  {
  }

  // ----- the window of the code -----

  /** What the running sums cover: all samples while the window fills, then the last WINDOW_SIZE - 1 and a zero. */
  function Window(h: seq<int>): (w: seq<int>)
    ensures h != [] ==> w != []
  {
    if |h| < WINDOW_SIZE then h else Last(h, WINDOW_SIZE - 1) + [0]
  }

  lemma WindowSums(h: seq<int>)
    ensures Sum(Window(h)) == Sum(Last(h, WINDOW_SIZE - 1))
    ensures SumSquares(Window(h)) == SumSquares(Last(h, WINDOW_SIZE - 1))
    ensures |Window(h)| == if |h| < WINDOW_SIZE then |h| else WINDOW_SIZE
  {
    SumSnoc(Last(h, WINDOW_SIZE - 1), 0);
  }

  /** The mean of the code is the mean of the last WINDOW_SIZE samples exactly while the window fills, or if the
      sample that is left out is zero. */
  lemma MeanExactIff(h: seq<int>)
    requires h != []
    ensures Mean(Window(h)) == Mean(Last(h, WINDOW_SIZE)) <==> |h| < WINDOW_SIZE || h[|h| - WINDOW_SIZE] == 0
  {
    if |h| >= WINDOW_SIZE {
      WindowSums(h);
      var l := Last(h, WINDOW_SIZE);
      assert l[1..] == Last(h, WINDOW_SIZE - 1);
      QuotientsEqual(Sum(Window(h)) as real, Sum(l) as real, WINDOW_SIZE as real);
    }
  }

  lemma QuotientsEqual(x: real, y: real, n: real)
    requires n > 0.0
    ensures x / n == y / n <==> x == y
  {
    assert x == (x / n) * n && y == (y / n) * n;
  }

  /** The variance of the code is that of the last WINDOW_SIZE samples exactly while the window fills, or if the sample
      x that is left out is zero or satisfies (WINDOW_SIZE - 1) * x == 2 * s, s being the sum of the others. */
  lemma VarianceExactIff(h: seq<int>)
    requires h != []
    ensures Variance(Window(h)) == Variance(Last(h, WINDOW_SIZE))
       <==> |h| < WINDOW_SIZE
            || var x, s := h[|h| - WINDOW_SIZE], Sum(Last(h, WINDOW_SIZE - 1)); x * ((WINDOW_SIZE - 1) * x - 2 * s) == 0
  {
    if |h| >= WINDOW_SIZE {
      WindowSums(h);
      var l, rest := Last(h, WINDOW_SIZE), Last(h, WINDOW_SIZE - 1);
      assert l == [l[0]] + rest && l[0] == h[|h| - WINDOW_SIZE];
      VarianceWithout(Window(h), l, l[0], rest);
    }
  }

  /** When x goes from l and a zero comes in. */
  lemma VarianceWithout(w: seq<int>, l: seq<int>, x: int, rest: seq<int>)
    requires |w| == |l| == WINDOW_SIZE && l == [x] + rest
    requires Sum(w) == Sum(rest) && SumSquares(w) == SumSquares(rest)
    ensures Variance(w) == Variance(l) <==> x * ((WINDOW_SIZE - 1) * x - 2 * Sum(rest)) == 0
  {
    SumsCons(x, rest);
    VariancesEqual(w, l);
    Gap(x, Sum(rest), SumSquares(rest));
  }

  lemma SumsCons(x: int, s: seq<int>)
    ensures Sum([x] + s) == x + Sum(s) && SumSquares([x] + s) == x * x + SumSquares(s)
  {
    assert ([x] + s)[0] == x && ([x] + s)[1..] == s;
  }

  lemma Gap(x: int, r: int, q: int)
    ensures WINDOW_SIZE * q - r * r == WINDOW_SIZE * (x * x + q) - (x + r) * (x + r)
       <==> x * ((WINDOW_SIZE - 1) * x - 2 * r) == 0
  {
    assert (x + r) * (x + r) == x * x + 2 * (x * r) + r * r;
    assert x * ((WINDOW_SIZE - 1) * x - 2 * r) == (WINDOW_SIZE - 1) * (x * x) - 2 * (x * r);
  }

  /** Variances of equally many values are equal exactly if n times the sum of squares less the squared sum is. */
  lemma VariancesEqual(s: seq<int>, t: seq<int>)
    requires |s| == |t| > 0
    ensures Variance(s) == Variance(t)
       <==> |s| * SumSquares(s) - Sum(s) * Sum(s) == |s| * SumSquares(t) - Sum(t) * Sum(t)
  {
    var n := |s| as real;
    var mu, mu1 := Sum(s) as real / n, Sum(t) as real / n;
    VarianceFormula(s, n, Sum(s) as real, SumSquares(s) as real, mu);
    VarianceFormula(t, n, Sum(t) as real, SumSquares(t) as real, mu1);
    ScaledEqual(|s|, Sum(s), SumSquares(s), mu, Variance(s), Sum(t), SumSquares(t), mu1, Variance(t));
  }

  lemma ScaledEqual(n: int, r: int, q: int, mu: real, v: real, r1: int, q1: int, mu1: real, v1: real)
    requires n > 0 && mu == r as real / n as real && mu1 == r1 as real / n as real
    requires v == q as real / n as real - mu * mu && v1 == q1 as real / n as real - mu1 * mu1
    ensures v == v1 <==> n * q - r * r == n * q1 - r1 * r1
  {
    Scale(n, r, q, mu, v);
    Scale(n, r1, q1, mu1, v1);
    Product(n as real, n as real);
    SameFactor(v, v1, n as real * n as real);
  }

  lemma Scale(n: int, r: int, q: int, mu: real, v: real)
    requires n > 0 && mu == r as real / n as real && v == q as real / n as real - mu * mu
    ensures v * (n as real * n as real) == (n * q - r * r) as real
  {
    var k, a := n as real, q as real / n as real;
    assert r as real == mu * k && q as real == a * k;
    Expand(k, mu, a);
    ProductAsReal(n, q);
    ProductAsReal(r, r);
  }

  lemma Expand(n: real, mu: real, a: real)
    ensures (a - mu * mu) * (n * n) == n * (a * n) - (mu * n) * (mu * n)
  {
  }

  lemma ProductAsReal(x: int, y: int)
    ensures x as real * y as real == (x * y) as real
  {
  }

  lemma Product(x: real, y: real)
    requires x > 0.0 && y > 0.0
    ensures x * y > 0.0
  {
  }

  lemma SameFactor(x: real, y: real, z: real)
    requires z > 0.0
    ensures x * z == y * z <==> x == y
  {
    if x * z == y * z {
      DivTimes(x, z);
      DivTimes(y, z);
    }
  }

  /** The sample that leaves the sums when another one comes in: the one in the next slot. */
  function Gone(h: seq<int>, sample: int): int {
    if |h| + 1 < WINDOW_SIZE then 0 else (h + [sample])[|h| + 1 - WINDOW_SIZE]
  }

  /** One more sample: the oldest one goes when the next slot is reached. */
  lemma Slide(h: seq<int>, sample: int)
    ensures Sum(Last(h + [sample], WINDOW_SIZE - 1)) == Sum(Last(h, WINDOW_SIZE - 1)) + sample - Gone(h, sample)
    ensures SumSquares(Last(h + [sample], WINDOW_SIZE - 1))
         == SumSquares(Last(h, WINDOW_SIZE - 1)) + sample * sample - Gone(h, sample) * Gone(h, sample)
  {
    var n, l := |h| + 1, Last(h, WINDOW_SIZE - 1);
    SumSnoc(l, sample);
    if n < WINDOW_SIZE {
      assert Last(h + [sample], WINDOW_SIZE - 1) == l + [sample];
    } else {
      var k := n - WINDOW_SIZE;
      assert l + [sample] == (h + [sample])[k..];
      assert Last(h + [sample], WINDOW_SIZE - 1) == (l + [sample])[1..];
      assert (l + [sample])[0] == (h + [sample])[k];
    }
  }

  /** The running sums are those of the last WINDOW_SIZE - 1 samples. */
  ghost predicate SumsUp(sum: real, sum_squared: real, h: seq<int>) {
    && sum == Sum(Last(h, WINDOW_SIZE - 1)) as real
    && sum_squared == SumSquares(Last(h, WINDOW_SIZE - 1)) as real
  }

  lemma SumsSlide(sum: real, sum_squared: real, h: seq<int>, sample: int)
    requires SumsUp(sum, sum_squared, h)
    ensures var gone := Gone(h, sample);
            SumsUp(sum + (sample as real - gone as real),
                   sum_squared + (sample as real * sample as real - gone as real * gone as real), h + [sample])
  {
    Slide(h, sample);
    SquaresAsReal(sample, Gone(h, sample));
  }

  class Distribution {
    const samples: array<int>
    var sample_num: nat
    var sum: real
    var sum_squared: real
    var mean: real
    var variance: real
    var window_full: bool
    /** All samples. */
    ghost var history: seq<int>

    ghost predicate Valid()
      reads this, samples
    {
      && samples.Length == WINDOW_SIZE
      && Counted(sample_num, window_full, |history|)
      && InSlots(samples[..], history)
      && SumsUp(sum, sum_squared, history)
    }

    constructor ()
      ensures Valid() && history == [] && fresh(samples)
    {
      samples := new int[WINDOW_SIZE](i => 0);
      sample_num, sum, sum_squared, mean, variance, window_full := 0, 0.0, 0.0, 0.0, 0.0, false;
      history := [];
    }

    /** update_distribution: mean and variance are those of the window. */
    method Update(sample: int)
      requires Valid()
      modifies this, samples
      ensures Valid() && history == old(history) + [sample]
      ensures mean == Mean(Window(history)) && variance == Variance(Window(history)) >= 0.0
    {
      ghost var h := history;
      var gone := Replace(sample, h);
      ghost var slots := samples[..];
      UpdateSums(sample, gone, h);
      SetMoments(h + [sample]);
      Advance(|h|);
      history := h + [sample];
      assert samples[..] == slots;
    }

    /** The sample goes into its slot; the one in the next slot is the oldest. */
    method Replace(sample: int, ghost h: seq<int>) returns (gone: int)
      requires samples.Length == WINDOW_SIZE && sample_num == |h| % WINDOW_SIZE && InSlots(samples[..], h)
      modifies samples
      ensures InSlots(samples[..], h + [sample]) && gone == Gone(h, sample)
    {
      ghost var slots := samples[..];
      SlotsUpdated(slots, h, sample);
      samples[sample_num] := sample;
      assert samples[..] == slots[sample_num := sample];
      var next_idx := if sample_num + 1 == WINDOW_SIZE then 0 else sample_num + 1;
      gone := samples[next_idx];
    }

    method UpdateSums(sample: int, gone: int, ghost h: seq<int>)
      requires SumsUp(sum, sum_squared, h) && gone == Gone(h, sample)
      modifies `sum, `sum_squared
      ensures SumsUp(sum, sum_squared, h + [sample])
    {
      SumsSlide(sum, sum_squared, h, sample);
      sum := sum + (sample as real - gone as real);
      sum_squared := sum_squared + (sample as real * sample as real - gone as real * gone as real);
    }

    /** The mean and variance of update_distribution, before the counters move on. */
    method SetMoments(ghost h: seq<int>)
      requires h != [] && Counted(sample_num, window_full, |h| - 1) && SumsUp(sum, sum_squared, h)
      modifies `mean, `variance
      ensures mean == Mean(Window(h)) && variance == Variance(Window(h)) >= 0.0
    {
      var n := if window_full then WINDOW_SIZE else sample_num + 1;
      mean := sum / n as real;
      MomentsOf(h, sample_num, window_full, sum, sum_squared, mean);
      variance := sum_squared / n as real - mean * mean;
    }

    /** The counters of update_distribution move on. */
    method Advance(ghost n: nat)
      requires Counted(sample_num, window_full, n)
      modifies `sample_num, `window_full
      ensures Counted(sample_num, window_full, n + 1)
    {
      NextSlot(n);
      if sample_num == WINDOW_SIZE - 1 {
        window_full := true;
      }
      sample_num := (sample_num + 1) % WINDOW_SIZE;
    }
  }

  /** The next slot, and whether the window is full, after n samples. */
  ghost predicate Counted(sample_num: nat, window_full: bool, n: nat) {
    sample_num == n % WINDOW_SIZE && window_full == (n >= WINDOW_SIZE)
  }

  lemma NextSlot(n: nat)
    ensures (n % WINDOW_SIZE + 1) % WINDOW_SIZE == (n + 1) % WINDOW_SIZE
    ensures n % WINDOW_SIZE == WINDOW_SIZE - 1 || n >= WINDOW_SIZE <==> n + 1 >= WINDOW_SIZE
  {
  }

  /** The divisor of the code is the size of the window. */
  lemma WindowSize(h: seq<int>, sample_num: nat, window_full: bool)
    requires h != [] && Counted(sample_num, window_full, |h| - 1)
    ensures |Window(h)| == if window_full then WINDOW_SIZE else sample_num + 1
    ensures Sum(Window(h)) == Sum(Last(h, WINDOW_SIZE - 1))
    ensures SumSquares(Window(h)) == SumSquares(Last(h, WINDOW_SIZE - 1))
  {
    WindowSums(h);
  }

  lemma MomentsOf(h: seq<int>, sample_num: nat, window_full: bool, sum: real, sum_squared: real, mean: real)
    requires h != [] && Counted(sample_num, window_full, |h| - 1) && SumsUp(sum, sum_squared, h)
    requires mean == sum / (if window_full then WINDOW_SIZE else sample_num + 1) as real
    ensures mean == Mean(Window(h))
    ensures sum_squared / (if window_full then WINDOW_SIZE else sample_num + 1) as real - mean * mean
         == Variance(Window(h)) >= 0.0
  {
    WindowSize(h, sample_num, window_full);
    VarianceFormula(Window(h), |Window(h)| as real, sum, sum_squared, mean);
    VarianceNonNegative(Window(h));
  }

  lemma SquaresAsReal(x: int, y: int)
    ensures (x * x) as real == x as real * x as real && (y * y) as real == y as real * y as real
  {
  }

  /** The slots hold the last samples, and zero where there was none. */
  ghost predicate InSlots(slots: seq<int>, h: seq<int>)
    requires |slots| == WINDOW_SIZE
  {
    && (forall i | 0 <= i < |h| && |h| <= i + WINDOW_SIZE :: slots[i % WINDOW_SIZE] == h[i])
    && (forall j | |h| <= j < WINDOW_SIZE :: slots[j] == 0)
  }

  lemma SlotsUpdated(slots: seq<int>, h: seq<int>, sample: int)
    requires |slots| == WINDOW_SIZE && InSlots(slots, h)
    ensures var i := |h| % WINDOW_SIZE;
            var next := if i + 1 == WINDOW_SIZE then 0 else i + 1;
            InSlots(slots[i := sample], h + [sample]) && slots[i := sample][next] == Gone(h, sample)
  {
  }

  // ----- the aggregator -----

  function Weight(variance: real): real {
    if variance == 0.0 then 1.0 else 1.0 / variance
  }

  function Weights(vs: seq<real>): (ws: seq<real>)
    ensures |ws| == |vs| && forall i | 0 <= i < |vs| :: ws[i] == Weight(vs[i])
  {
    seq(|vs|, i requires 0 <= i < |vs| => Weight(vs[i]))
  }

  function Total(ws: seq<real>): real {
    if ws == [] then 0.0 else Total(ws[..|ws| - 1]) + ws[|ws| - 1]
  }

  function Dot(ws: seq<real>, ss: seq<real>): real
    requires |ws| == |ss|
  {
    if ws == [] then 0.0 else Dot(ws[..|ws| - 1], ss[..|ss| - 1]) + ws[|ws| - 1] * ss[|ss| - 1]
  }

  /** aggregate_data as a function: the mean of the samples, weighted with the weights of the variances. */
  function Aggregate(vs: seq<real>, ss: seq<real>): real
    requires |vs| == |ss|
  {
    if Total(Weights(vs)) != 0.0 then Dot(Weights(vs), ss) / Total(Weights(vs)) else 0.0
  }

  lemma WeightPositive(v: real)
    requires v >= 0.0
    ensures Weight(v) > 0.0
  {
  }

  lemma {:induction false} TotalPositive(ws: seq<real>)
    requires forall i | 0 <= i < |ws| :: ws[i] > 0.0
    ensures Total(ws) >= 0.0 && (ws != [] ==> Total(ws) > 0.0)
  {
    if ws != [] {
      TotalPositive(ws[..|ws| - 1]);
    }
  }

  /** The weighted sum of the distances from c. */
  function Excess(ws: seq<real>, ss: seq<real>, c: real): real
    requires |ws| == |ss|
  {
    if ws == [] then 0.0 else Excess(ws[..|ws| - 1], ss[..|ss| - 1], c) + ws[|ws| - 1] * (ss[|ss| - 1] - c)
  }

  lemma {:induction false} ExcessIsDot(ws: seq<real>, ss: seq<real>, c: real)
    requires |ws| == |ss|
    ensures Excess(ws, ss, c) == Dot(ws, ss) - c * Total(ws)
  {
    if ws != [] {
      var k := |ws| - 1;
      ExcessIsDot(ws[..k], ss[..k], c);
      ExcessStep(ws[k], ss[k], c, Total(ws[..k]), Dot(ws[..k], ss[..k]), Excess(ws[..k], ss[..k], c),
                 Total(ws), Dot(ws, ss), Excess(ws, ss, c));
    }
  }

  lemma ExcessStep(w: real, s: real, c: real, t: real, d: real, e: real, t1: real, d1: real, e1: real)
    requires e == d - c * t && t1 == t + w && d1 == d + w * s && e1 == e + w * (s - c)
    ensures e1 == d1 - c * t1
  {
    assert c * (t + w) == c * t + w * c;
    assert w * (s - c) == w * s - w * c;
  }

  lemma {:induction false} ExcessSign(ws: seq<real>, ss: seq<real>, lo: real, hi: real)
    requires |ws| == |ss| && forall i | 0 <= i < |ws| :: ws[i] > 0.0 && lo <= ss[i] <= hi
    ensures Excess(ws, ss, hi) <= 0.0 <= Excess(ws, ss, lo)
  {
    if ws != [] {
      var k := |ws| - 1;
      ExcessSign(ws[..k], ss[..k], lo, hi);
      SignStep(ws[k], ss[k], lo, hi, Excess(ws[..k], ss[..k], hi), Excess(ws[..k], ss[..k], lo));
    }
  }

  lemma SignStep(w: real, s: real, lo: real, hi: real, below: real, above: real)
    requires w > 0.0 && lo <= s <= hi && below <= 0.0 <= above
    ensures below + w * (s - hi) <= 0.0 <= above + w * (s - lo)
  {
    TermSign(w, s, lo);
    TermSign(w, s, hi);
  }

  lemma TermSign(w: real, s: real, c: real)
    requires w > 0.0
    ensures c <= s ==> 0.0 <= w * (s - c)
    ensures s <= c ==> w * (s - c) <= 0.0
  {
  }

  /** On which side of c the aggregate lies. */
  lemma AggregateSide(vs: seq<real>, ss: seq<real>, c: real)
    requires |vs| == |ss| > 0 && forall i | 0 <= i < |vs| :: vs[i] >= 0.0
    ensures c <= Aggregate(vs, ss) <==> 0.0 <= Excess(Weights(vs), ss, c)
    ensures Aggregate(vs, ss) <= c <==> Excess(Weights(vs), ss, c) <= 0.0
  {
    var ws := Weights(vs);
    WeightsPositive(vs);
    ExcessIsDot(ws, ss, c);
    QuotientSide(Dot(ws, ss), Total(ws), c, Aggregate(vs, ss), Excess(ws, ss, c));
  }

  lemma QuotientSide(d: real, t: real, c: real, q: real, e: real)
    requires t > 0.0 && q == d / t && e == d - c * t
    ensures (c <= q <==> 0.0 <= e) && (q <= c <==> e <= 0.0)
  {
    assert d == t * q;
    TermSign(t, q, c);
    if e == 0.0 {
      DivTimes(c, t);
    }
  }

  lemma WeightsPositive(vs: seq<real>)
    requires forall i | 0 <= i < |vs| :: vs[i] >= 0.0
    ensures forall i | 0 <= i < |vs| :: Weights(vs)[i] > 0.0
    ensures vs != [] ==> Total(Weights(vs)) > 0.0
  {
    forall i | 0 <= i < |vs|
      ensures Weights(vs)[i] > 0.0
    {
      WeightPositive(vs[i]);
    }
    TotalPositive(Weights(vs));
  }

  /** With non-negative variances the aggregate lies between the smallest and the largest sample. */
  lemma AggregateBetween(vs: seq<real>, ss: seq<real>, lo: real, hi: real)
    requires |vs| == |ss| > 0 && forall i | 0 <= i < |vs| :: vs[i] >= 0.0 && lo <= ss[i] <= hi
    ensures lo <= Aggregate(vs, ss) <= hi
  {
    WeightsPositive(vs);
    ExcessSign(Weights(vs), ss, lo, hi);
    AggregateSide(vs, ss, lo);
    AggregateSide(vs, ss, hi);
  }

  // ----- the aggregate in terms of the variances -----

  /** What the distance of a sample is divided by: its variance, where a zero counts as 1. */
  function Divisor(v: real): (d: real)
    ensures d != 0.0
  {
    if v == 0.0 then 1.0 else v
  }

  function Term(v: real, s: real, x: real): real {
    (s - x) / Divisor(v)
  }

  function SquareTerm(v: real, s: real, x: real): real {
    (s - x) * (s - x) / Divisor(v)
  }

  /** The sum of the distances of the samples from x, each divided by its variance. */
  function Residual(vs: seq<real>, ss: seq<real>, x: real): real
    requires |vs| == |ss|
  {
    if vs == [] then 0.0
    else var k := |vs| - 1;
         Residual(vs[..k], ss[..k], x) + Term(vs[k], ss[k], x)
  }

  /** The sum of the squared distances, each divided by its variance. */
  function SquaredError(vs: seq<real>, ss: seq<real>, x: real): real
    requires |vs| == |ss|
  {
    if vs == [] then 0.0
    else var k := |vs| - 1;
         SquaredError(vs[..k], ss[..k], x) + SquareTerm(vs[k], ss[k], x)
  }

  lemma WeightDivides(v: real, y: real)
    ensures Weight(v) * y == y / Divisor(v)
  {
    if v != 0.0 {
      InverseTimes(v, y);
    }
  }

  lemma InverseTimes(v: real, y: real)
    requires v != 0.0
    ensures (1.0 / v) * y == y / v
  {
    var u, z := 1.0 / v, y / v;
    assert u * v == 1.0 && z * v == y;
    Regroup(u, z, v);
  }

  lemma Regroup(u: real, z: real, v: real)
    ensures u * (z * v) == (u * v) * z
  {
  }

  lemma {:induction false} ResidualIsExcess(vs: seq<real>, ss: seq<real>, x: real)
    requires |vs| == |ss|
    ensures Residual(vs, ss, x) == Excess(Weights(vs), ss, x)
  {
    if vs != [] {
      var k := |vs| - 1;
      ResidualIsExcess(vs[..k], ss[..k], x);
      assert Weights(vs)[..k] == Weights(vs[..k]);
      WeightDivides(vs[k], ss[k] - x);
    }
  }

  /** The aggregate is the only point about which the distances, each divided by its variance, cancel out. */
  lemma AggregateBalances(vs: seq<real>, ss: seq<real>, x: real)
    requires |vs| == |ss| > 0 && forall i | 0 <= i < |vs| :: vs[i] >= 0.0
    ensures Residual(vs, ss, x) == 0.0 <==> x == Aggregate(vs, ss)
  {
    ResidualIsExcess(vs, ss, x);
    AggregateSide(vs, ss, x);
  }

  /** How the squared error changes from r to x. */
  lemma {:induction false} ErrorShift(vs: seq<real>, ss: seq<real>, r: real, x: real)
    requires |vs| == |ss|
    ensures SquaredError(vs, ss, x) == Shifted(SquaredError(vs, ss, r), Residual(vs, ss, r), Total(Weights(vs)), r - x)
  {
    if vs != [] {
      var k := |vs| - 1;
      ErrorShift(vs[..k], ss[..k], r, x);
      assert Weights(vs)[..k] == Weights(vs[..k]);
      TermShift(vs[k], ss[k], r, x);
      ShiftSum(SquaredError(vs[..k], ss[..k], x), SquaredError(vs[..k], ss[..k], r), Residual(vs[..k], ss[..k], r),
               Total(Weights(vs[..k])), SquareTerm(vs[k], ss[k], x), SquareTerm(vs[k], ss[k], r),
               Term(vs[k], ss[k], r), Weight(vs[k]), r - x);
    }
  }

  /** The squared error at a distance h from a point where it is q, e being the residual there and t the weights. */
  function Shifted(q: real, e: real, t: real, h: real): real {
    q + h * (2.0 * e + h * t)
  }

  lemma TermShift(v: real, s: real, r: real, x: real)
    ensures SquareTerm(v, s, x) == Shifted(SquareTerm(v, s, r), Term(v, s, r), Weight(v), r - x)
  {
    WeightDivides(v, (s - x) * (s - x));
    WeightDivides(v, (s - r) * (s - r));
    WeightDivides(v, s - r);
    WeightedShift(Weight(v), s, r, x);
  }

  lemma WeightedShift(w: real, s: real, r: real, x: real)
    ensures w * ((s - x) * (s - x)) == Shifted(w * ((s - r) * (s - r)), w * (s - r), w, r - x)
  {
    var a, h := s - r, r - x;
    Square(a, h);
    assert s - x == a + h;
    Distribute(w, a * a, h, a);
  }

  /** Both parts shifted, so is the sum. */
  lemma ShiftSum(x: real, q: real, e: real, t: real, x1: real, q1: real, e1: real, t1: real, h: real)
    requires x == Shifted(q, e, t, h) && x1 == Shifted(q1, e1, t1, h)
    ensures x + x1 == Shifted(q + q1, e + e1, t + t1, h)
  {
    ShiftStep(q, e, t, q1, e1, t1, h);
  }

  lemma Square(a: real, h: real)
    ensures (a + h) * (a + h) == a * a + h * (2.0 * a + h)
  {
  }

  lemma Distribute(w: real, q: real, h: real, a: real)
    ensures w * (q + h * (2.0 * a + h)) == w * q + h * (2.0 * (w * a) + h * w)
  {
  }

  lemma ShiftStep(q: real, e: real, t: real, q1: real, e1: real, t1: real, h: real)
    ensures Shifted(q, e, t, h) + Shifted(q1, e1, t1, h) == Shifted(q + q1, e + e1, t + t1, h)
  {
    assert h * (2.0 * e + h * t) + h * (2.0 * e1 + h * t1) == h * ((2.0 * e + h * t) + (2.0 * e1 + h * t1));
    assert h * t + h * t1 == h * (t + t1);
  }

  /** The aggregate is the only point of least squared error, each square divided by its variance. */
  lemma AggregateLeastSquares(vs: seq<real>, ss: seq<real>, x: real)
    requires |vs| == |ss| > 0 && forall i | 0 <= i < |vs| :: vs[i] >= 0.0
    ensures x != Aggregate(vs, ss) ==> SquaredError(vs, ss, Aggregate(vs, ss)) < SquaredError(vs, ss, x)
  {
    var r := Aggregate(vs, ss);
    AggregateBalances(vs, ss, r);
    ErrorShift(vs, ss, r, x);
    WeightsPositive(vs);
    if x != r {
      SquaredPositive(SquaredError(vs, ss, r), r - x, Total(Weights(vs)));
    }
  }

  lemma SquaredPositive(q: real, h: real, t: real)
    requires h != 0.0 && t > 0.0
    ensures Shifted(q, 0.0, t, h) > q
  {
    if h > 0.0 {
      Product(h, t);
      Product(h, h * t);
    } else {
      Product(-h, t);
      Product(-h, (-h) * t);
      assert (-h) * ((-h) * t) == h * (h * t);
    }
  }

  /** Every point, measured against the aggregate r. */
  ghost predicate LeastSquares(vs: seq<real>, ss: seq<real>, r: real)
    requires |vs| == |ss|
  {
    forall x {:trigger SquaredError(vs, ss, x)} {:trigger Residual(vs, ss, x)} ::
      && (Residual(vs, ss, x) == 0.0 <==> x == r)
      && (x != r ==> SquaredError(vs, ss, r) < SquaredError(vs, ss, x))
  }

  lemma AggregateIsLeastSquares(vs: seq<real>, ss: seq<real>)
    requires |vs| == |ss| > 0 && forall i | 0 <= i < |vs| :: vs[i] >= 0.0
    ensures LeastSquares(vs, ss, Aggregate(vs, ss))
  {
    forall x
      ensures Residual(vs, ss, x) == 0.0 <==> x == Aggregate(vs, ss)
      ensures x != Aggregate(vs, ss) ==> SquaredError(vs, ss, Aggregate(vs, ss)) < SquaredError(vs, ss, x)
    {
      AggregateBalances(vs, ss, x);
      AggregateLeastSquares(vs, ss, x);
    }
  }

  lemma SumsSnoc(vs: seq<real>, ss: seq<real>, i: nat)
    requires |vs| == |ss| && i < |vs|
    ensures Total(Weights(vs)[..i + 1]) == Total(Weights(vs)[..i]) + Weight(vs[i])
    ensures Dot(Weights(vs)[..i + 1], ss[..i + 1]) == Dot(Weights(vs)[..i], ss[..i]) + Weight(vs[i]) * ss[i]
  {
    var ws := Weights(vs);
    assert ws[..i + 1][..i] == ws[..i] && ss[..i + 1][..i] == ss[..i];
  }

  /** aggregate_data: the point that the samples are nearest to, the squared distances divided by the variances. */
  method AggregateData(variances: array<real>, samples: array<real>) returns (r: real)
    requires variances.Length == samples.Length == NUM_NODES
    ensures r == Aggregate(variances[..], samples[..])
    ensures (forall i | 0 <= i < NUM_NODES :: variances[i] >= 0.0) ==> LeastSquares(variances[..], samples[..], r)
  {
    ghost var vs, ss := variances[..], samples[..];
    var weighted_sum, sum_weights := 0.0, 0.0;
    for i := 0 to NUM_NODES
      invariant weighted_sum == Dot(Weights(vs)[..i], ss[..i]) && sum_weights == Total(Weights(vs)[..i])
    {
      SumsSnoc(vs, ss, i);
      weighted_sum, sum_weights := AddWeighted(variances[i], samples[i], weighted_sum, sum_weights);
    }
    assert Weights(vs)[..NUM_NODES] == Weights(vs) && ss[..NUM_NODES] == ss;
    r := if sum_weights != 0.0 then weighted_sum / sum_weights else 0.0;
    if forall i | 0 <= i < NUM_NODES :: vs[i] >= 0.0 {
      AggregateIsLeastSquares(vs, ss);
    }
  }

  /** One turn of the loop of aggregate_data. */
  method AddWeighted(variance: real, sample: real, weighted_sum: real, sum_weights: real) returns (ws: real, sw: real)
    ensures ws == weighted_sum + Weight(variance) * sample && sw == sum_weights + Weight(variance)
  {
    var weight := if variance == 0.0 then 1.0 else 1.0 / variance;
    ws := weighted_sum + weight * sample;
    sw := sum_weights + weight;
  }

  // ----- the messages of a round -----

  datatype Message = Message(node_id: nat, sample: int, variance: real)

  function Count(bs: seq<bool>): nat {
    if bs == [] then 0 else Count(bs[..|bs| - 1]) + if bs[|bs| - 1] then 1 else 0
  }

  lemma {:induction false} CountSet(bs: seq<bool>, i: nat)
    requires i < |bs| && !bs[i]
    ensures Count(bs[i := true]) == Count(bs) + 1
    decreases |bs|
  {
    var k := |bs| - 1;
    var cs := bs[i := true];
    if i == k {
      assert cs[..k] == bs[..k];
    } else {
      CountSet(bs[..k], i);
      assert cs[..k] == bs[..k][i := true];
    }
  }

  lemma {:induction false} CountNone(bs: seq<bool>)
    requires forall i | 0 <= i < |bs| :: !bs[i]
    ensures Count(bs) == 0
  {
    if bs != [] {
      CountNone(bs[..|bs| - 1]);
    }
  }

  lemma {:induction false} CountAll(bs: seq<bool>)
    ensures Count(bs) <= |bs|
    ensures Count(bs) == |bs| <==> forall i | 0 <= i < |bs| :: bs[i]
  {
    if bs != [] {
      CountAll(bs[..|bs| - 1]);
    }
  }

  class Aggregator {
    const node_map: seq<nat>
    var message_array: seq<Message>
    var nodes_received: seq<bool>
    var messages_missed: nat
    var message_count: nat
    /** The message array when the round began. */
    ghost var stored: seq<Message>

    ghost predicate Valid()
      reads this
    {
      && |node_map| == |message_array| == |nodes_received| == |stored| == NUM_NODES
      && (forall i | 0 <= i < NUM_NODES && !nodes_received[i] :: message_array[i] == stored[i])
      && (forall i, j | 0 <= i < j < NUM_NODES :: node_map[i] != node_map[j])
      && message_count == Count(nodes_received)
    }

    /** The nodes that this aggregator listens to. */
    constructor (nodes: seq<nat>)
      requires |nodes| == NUM_NODES && forall i, j | 0 <= i < j < NUM_NODES :: nodes[i] != nodes[j]
      ensures Valid() && node_map == nodes && message_count == messages_missed == 0
      ensures forall i | 0 <= i < NUM_NODES :: message_array[i] == Message(0, 0, 0.0) && !nodes_received[i]
    {
      node_map := nodes;
      message_array := seq(NUM_NODES, i => Message(0, 0, 0.0));
      nodes_received := seq(NUM_NODES, i => false);
      messages_missed, message_count := 0, 0;
      stored := seq(NUM_NODES, i => Message(0, 0, 0.0));
      new;
      CountNone(nodes_received);
    }

    /** The first message of a node in a round is stored, every further one is counted as missed, and one of an
        unknown node is ignored. */
    method Store(message: Message)
      requires Valid()
      modifies this
      ensures Valid() && stored == old(stored)
      ensures message.node_id !in node_map ==> unchanged(this)
      ensures forall i | 0 <= i < NUM_NODES && node_map[i] == message.node_id ::
                if old(nodes_received)[i]
                then messages_missed == old(messages_missed) + 1
                     && message_array == old(message_array) && nodes_received == old(nodes_received)
                else messages_missed == old(messages_missed)
                     && message_array == old(message_array)[i := message]
                     && nodes_received == old(nodes_received)[i := true]
    {
      for i := 0 to NUM_NODES
        invariant Valid() && stored == old(stored)
        invariant message.node_id !in node_map[..i] ==> unchanged(this)
        invariant forall j | 0 <= j < i && node_map[j] == message.node_id ::
                    if old(nodes_received)[j]
                    then messages_missed == old(messages_missed) + 1
                         && message_array == old(message_array) && nodes_received == old(nodes_received)
                    else messages_missed == old(messages_missed)
                         && message_array == old(message_array)[j := message]
                         && nodes_received == old(nodes_received)[j := true]
      {
        assert node_map[..i + 1] == node_map[..i] + [node_map[i]];
        if node_map[i] == message.node_id {
          if !nodes_received[i] {
            CountSet(nodes_received, i);
            message_array := message_array[i := message];
            nodes_received := nodes_received[i := true];
            message_count := message_count + 1;
          } else {
            messages_missed := messages_missed + 1;
          }
        }
      }
      assert node_map[..NUM_NODES] == node_map;
    }

    /** The end of udp_rx_callback: once every node was heard, or the timer has expired, the stored samples are
        aggregated and a new round begins. */
    method Finish(expired: bool) returns (result: Option<real>)
      requires Valid()
      modifies this
      ensures Valid() && message_array == old(message_array)
      ensures result.Some? <==> expired || forall i | 0 <= i < NUM_NODES :: old(nodes_received)[i]
      ensures result == None ==> unchanged(this)
      ensures result.Some? ==>
                && message_count == messages_missed == 0 && forall i | 0 <= i < NUM_NODES :: !nodes_received[i]
      ensures result.Some? ==> result.value == AggregateOf(message_array) && stored == message_array
    {
      CountAll(nodes_received);
      result := None;
      if message_count == NUM_NODES || expired {
        var r := AggregateStored();
        result := Some(r);
        message_count := 0;
        messages_missed := 0;
        nodes_received := seq(NUM_NODES, i => false);
        stored := message_array;
        CountNone(nodes_received);
      }
    }

    /** What Finish aggregates is a round of the messages heard on top of what was stored when it began. */
    lemma IsRound(lo: int, hi: int)
      requires Valid()
      requires forall i | 0 <= i < NUM_NODES && nodes_received[i] ::
                 message_array[i].variance >= 0.0 && lo <= message_array[i].sample <= hi
      ensures RoundOf(stored, nodes_received, message_array, lo, hi)
    {
    }

    /** construct_distribution_array and aggregate_data. */
    method AggregateStored() returns (r: real)
      requires Valid()
      ensures r == AggregateOf(message_array)
    {
      var variances, samples := new real[NUM_NODES], new real[NUM_NODES];
      for i := 0 to NUM_NODES
        invariant variances[..i] == Variances(message_array)[..i] && samples[..i] == Samples(message_array)[..i]
      {
        variances[i] := message_array[i].variance;
        samples[i] := message_array[i].sample as real;
      }
      assert variances[..] == Variances(message_array) && samples[..] == Samples(message_array);
      r := AggregateData(variances, samples);
    }
  }

  function Variances(ms: seq<Message>): (vs: seq<real>)
    ensures |vs| == |ms| && forall i | 0 <= i < |ms| :: vs[i] == ms[i].variance
  {
    seq(|ms|, i requires 0 <= i < |ms| => ms[i].variance)
  }

  function Samples(ms: seq<Message>): (ss: seq<real>)
    ensures |ss| == |ms| && forall i | 0 <= i < |ms| :: ss[i] == ms[i].sample as real
  {
    seq(|ms|, i requires 0 <= i < |ms| => ms[i].sample as real)
  }

  function AggregateOf(ms: seq<Message>): real {
    Aggregate(Variances(ms), Samples(ms))
  }

  /** What is sent on lies between the smallest and the largest stored sample. */
  lemma SentBetween(ms: seq<Message>, lo: int, hi: int)
    requires ms != [] && forall i | 0 <= i < |ms| :: ms[i].variance >= 0.0 && lo <= ms[i].sample <= hi
    ensures lo as real <= AggregateOf(ms) <= hi as real
  {
    AggregateBetween(Variances(ms), Samples(ms), lo as real, hi as real);
  }

  /** What a round can leave in the array that it found: messages with samples from lo to hi of the nodes heard, and
      what was stored of the others. */
  ghost predicate RoundOf(stored: seq<Message>, heard: seq<bool>, ms: seq<Message>, lo: int, hi: int)
    requires |heard| == |stored|
  {
    && |ms| == |stored|
    && forall i | 0 <= i < |ms| ::
         if heard[i] then ms[i].variance >= 0.0 && lo <= ms[i].sample <= hi else ms[i] == stored[i]
  }

  /** The stored messages of the nodes not heard. */
  function Stale(stored: seq<Message>, heard: seq<bool>): seq<Message>
    requires |heard| == |stored|
  {
    if stored == [] then
      []
    else
      var k := |stored| - 1;
      Stale(stored[..k], heard[..k]) + if heard[k] then [] else [stored[k]]
  }

  /** What is sent on lies between the smallest and the largest sample heard, whatever these are, exactly if every node
      was heard or the aggregate of what is stored of the others lies there. */
  lemma RoundBetween(stored: seq<Message>, heard: seq<bool>, lo: int, hi: int)
    requires |heard| == |stored| > 0 && lo <= hi
    requires forall i | 0 <= i < |stored| && !heard[i] :: stored[i].variance >= 0.0
    ensures (forall ms | RoundOf(stored, heard, ms, lo, hi) :: lo as real <= AggregateOf(ms) <= hi as real)
       <==> Count(heard) == |heard| || lo as real <= AggregateOf(Stale(stored, heard)) <= hi as real
  {
    StaleSound(stored, heard);
    var stale := Stale(stored, heard);
    if Count(heard) == |heard| || lo as real <= AggregateOf(stale) <= hi as real {
      forall ms | RoundOf(stored, heard, ms, lo, hi)
        ensures lo as real <= AggregateOf(ms) <= hi as real
      {
        ExcessOfRound(stored, heard, ms, lo, hi);
        SideOf(ms, lo);
        SideOf(ms, hi);
        if stale != [] {
          SideOf(stale, lo);
          SideOf(stale, hi);
        }
      }
    } else {
      SideOf(stale, lo);
      SideOf(stale, hi);
      var c := if AggregateOf(stale) < lo as real then lo else hi;
      var ms := Echo(stored, heard, c);
      assert RoundOf(stored, heard, ms, lo, hi);
      ExcessOfRound(stored, heard, ms, c, c);
      SideOf(ms, c);
    }
  }

  /** The round in which every node heard sends c. */
  function Echo(stored: seq<Message>, heard: seq<bool>, c: int): (ms: seq<Message>)
    requires |heard| == |stored|
    ensures RoundOf(stored, heard, ms, c, c)
  {
    seq(|stored|, i requires 0 <= i < |stored| => if heard[i] then Message(0, c, 0.0) else stored[i])
  }

  lemma {:induction false} StaleSound(stored: seq<Message>, heard: seq<bool>)
    requires |heard| == |stored|
    requires forall i | 0 <= i < |stored| && !heard[i] :: stored[i].variance >= 0.0
    ensures forall i | 0 <= i < |Stale(stored, heard)| :: Stale(stored, heard)[i].variance >= 0.0
    ensures Count(heard) <= |heard| && (Stale(stored, heard) == [] <==> Count(heard) == |heard|)
  {
    if stored != [] {
      StaleSound(stored[..|stored| - 1], heard[..|stored| - 1]);
    }
  }

  function ExcessOf(ms: seq<Message>, c: int): real {
    Excess(Weights(Variances(ms)), Samples(ms), c as real)
  }

  lemma SideOf(ms: seq<Message>, c: int)
    requires ms != [] && forall i | 0 <= i < |ms| :: ms[i].variance >= 0.0
    ensures c as real <= AggregateOf(ms) <==> 0.0 <= ExcessOf(ms, c)
    ensures AggregateOf(ms) <= c as real <==> ExcessOf(ms, c) <= 0.0
  {
    AggregateSide(Variances(ms), Samples(ms), c as real);
  }

  /** What one message adds to the excess. */
  function Pull(m: Message, c: int): real {
    Weight(m.variance) * (m.sample as real - c as real)
  }

  lemma ExcessSnoc(ms: seq<Message>, m: Message, c: int)
    ensures ExcessOf(ms + [m], c) == ExcessOf(ms, c) + Pull(m, c)
  {
    var k, ms1 := |ms|, ms + [m];
    var ws, ss := Weights(Variances(ms1)), Samples(ms1);
    assert ws[..k] == Weights(Variances(ms)) && ss[..k] == Samples(ms);
    assert ws[k] == Weight(m.variance) && ss[k] == m.sample as real;
  }

  lemma PullSign(m: Message, c: int)
    requires m.variance >= 0.0
    ensures (c <= m.sample ==> 0.0 <= Pull(m, c)) && (m.sample <= c ==> Pull(m, c) <= 0.0)
  {
    WeightPositive(m.variance);
    TermSign(Weight(m.variance), m.sample as real, c as real);
  }

  /** The nodes heard only pull the aggregate between lo and hi. */
  lemma {:induction false} ExcessOfRound(stored: seq<Message>, heard: seq<bool>, ms: seq<Message>, lo: int, hi: int)
    requires |heard| == |stored| && RoundOf(stored, heard, ms, lo, hi)
    ensures ExcessOf(Stale(stored, heard), lo) <= ExcessOf(ms, lo)
    ensures ExcessOf(ms, hi) <= ExcessOf(Stale(stored, heard), hi)
  {
    if stored == [] {
      assert ms == Stale(stored, heard);
    } else {
      var k := |stored| - 1;
      ExcessOfRound(stored[..k], heard[..k], ms[..k], lo, hi);
      OneMore(Stale(stored[..k], heard[..k]), ms[..k], ms[k], heard[k], lo, hi);
      assert ms == ms[..k] + [ms[k]];
    }
  }

  lemma OneMore(stale: seq<Message>, ms: seq<Message>, m: Message, heard: bool, lo: int, hi: int)
    requires ExcessOf(stale, lo) <= ExcessOf(ms, lo) && ExcessOf(ms, hi) <= ExcessOf(stale, hi)
    requires heard ==> m.variance >= 0.0 && lo <= m.sample <= hi
    ensures var stale1 := stale + if heard then [] else [m];
            ExcessOf(stale1, lo) <= ExcessOf(ms + [m], lo) && ExcessOf(ms + [m], hi) <= ExcessOf(stale1, hi)
  {
    ExcessSnoc(ms, m, lo);
    ExcessSnoc(ms, m, hi);
    if heard {
      PullSign(m, lo);
      PullSign(m, hi);
      assert stale + [] == stale;
    } else {
      ExcessSnoc(stale, m, lo);
      ExcessSnoc(stale, m, hi);
    }
  }

  /** A round that ends by its timer mixes in what is stored of the nodes not heard: when the first round hears only one
      node, which sends 6, the aggregate is 2. */
  method StaleRound() returns (result: Option<real>)
    ensures result == Some(2.0)
  {
    var aggregator := new Aggregator([4, 5, 6]);
    aggregator.Store(Message(4, 6, 0.0));
    result := aggregator.Finish(false);
    aggregator.Store(Message(4, 8, 0.0));
    result := aggregator.Finish(true);
    StaleAverage(aggregator.message_array);
  }

  lemma StaleAverage(ms: seq<Message>)
    requires ms == [Message(4, 6, 0.0), Message(0, 0, 0.0), Message(0, 0, 0.0)]
    ensures AggregateOf(ms) == 2.0
  {
    assert Variances(ms) == [0.0, 0.0, 0.0] && Samples(ms) == [6.0, 0.0, 0.0];
    assert Weights(Variances(ms)) == [1.0, 1.0, 1.0];
    TotalOfThree(1.0, 1.0, 1.0);
    DotOfThree(1.0, 1.0, 1.0, 6.0, 0.0, 0.0);
  }

  lemma TotalOfThree(a: real, b: real, c: real)
    ensures Total([a, b, c]) == a + b + c
  {
    assert [a, b, c][..2] == [a, b] && [a, b][..1] == [a] && [a][..0] == [];
    assert Total([a]) == a && Total([a, b]) == a + b;
  }

  lemma DotOfThree(a: real, b: real, c: real, x: real, y: real, z: real)
    ensures Dot([a, b, c], [x, y, z]) == a * x + b * y + c * z
  {
    assert [a, b, c][..2] == [a, b] && [a, b][..1] == [a] && [a][..0] == [];
    assert [x, y, z][..2] == [x, y] && [x, y][..1] == [x] && [x][..0] == [];
    assert Dot([a], [x]) == a * x && Dot([a, b], [x, y]) == a * x + b * y;
  }
}
