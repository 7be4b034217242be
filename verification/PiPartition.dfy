/** The pi computation of the thread-limit test: the index range [0, numdiv) is split among threads,
    each thread adds up the midpoint rule over its share, and the main thread adds the partial
    results.  Sums are over exact reals. */
module PiPartition {

  import opened Division

  /** First index of thread i's share; thread i + 1's is where it ends. */
  function Start(i: nat, n: nat, threads: nat): int
    requires 0 < threads
  { i * n / threads }

  /** A share is one of the two sizes next to numdiv / threads. */
  lemma ShareSize(i: nat, n: nat, threads: nat)
    requires 0 < threads
    ensures n / threads <= Start(i + 1, n, threads) - Start(i, n, threads) <= n / threads + 1
  {
    var q, r := i * n / threads, i * n % threads;
    var a, b := n / threads, n % threads;
    assert i * n == q * threads + r;
    assert n == a * threads + b;
    assert (i + 1) * n == i * n + n;
    assert (q + a) * threads == q * threads + a * threads;
    if r + b < threads {
      assert (i + 1) * n == (q + a) * threads + (r + b);
      Quotient(q + a, threads, r + b);
    } else {
      assert (i + 1) * n == (q + a + 1) * threads + (r + b - threads);
      Quotient(q + a + 1, threads, r + b - threads);
    }
  }

  lemma Ends(n: nat, threads: nat)
    requires 0 < threads
    ensures Start(0, n, threads) == 0 && Start(threads, n, threads) == n
  {
    assert threads * n == n * threads + 0;
    Quotient(n, threads, 0);
  }

  lemma DivNonNegative(a: nat, b: nat)
    requires 0 < b
    ensures 0 <= a / b
  {}

  lemma MulNonNegative(a: nat, b: nat)
    ensures 0 <= a * b
  {}

  lemma StartNonNegative(i: nat, n: nat, threads: nat)
    requires 0 < threads
    ensures 0 <= Start(i, n, threads)
  {
    MulNonNegative(i, n);
    DivNonNegative(i * n, threads);
  }

  lemma {:induction false} Ordered(i: nat, k: nat, n: nat, threads: nat)
    requires 0 < threads && i <= k
    ensures 0 <= Start(i, n, threads) <= Start(k, n, threads)
    decreases k - i
  {
    hide Start;
    if i < k {
      Ordered(i, k - 1, n, threads);
      ShareSize(k - 1, n, threads);
      DivNonNegative(n, threads);
    } else {
      StartNonNegative(i, n, threads);
    }
  }

  predicate Owns(i: nat, j: nat, n: nat, threads: nat)
    requires 0 < threads
  { Start(i, n, threads) <= j < Start(i + 1, n, threads) }

  lemma {:induction false} OwnerBelow(j: nat, k: nat, n: nat, threads: nat) returns (i: nat)
    requires 0 < threads && j < Start(k, n, threads)
    ensures i < k && Owns(i, j, n, threads)
  {
    hide Start;
    Ends(n, threads);
    assert k > 0;
    if Start(k - 1, n, threads) <= j {
      i := k - 1;
    } else {
      i := OwnerBelow(j, k - 1, n, threads);
    }
  }

  /** Every index belongs to exactly one thread. */
  lemma UniqueOwner(j: nat, n: nat, threads: nat) returns (i: nat)
    requires 0 < threads && j < n
    ensures i < threads && Owns(i, j, n, threads)
    ensures forall k: nat | k < threads && Owns(k, j, n, threads) :: k == i
  {
    hide Start;
    Ends(n, threads);
    i := OwnerBelow(j, threads, n, threads);
    forall k: nat | k < threads && Owns(k, j, n, threads) ensures k == i {
      if k < i { Ordered(k + 1, i, n, threads); }
      if i < k { Ordered(i + 1, k, n, threads); }
    }
  }

  lemma Square(x: real)
    ensures x * x >= 0.0
  {}

  function Curve(x: real): real {
    Square(x);
    4.0 / (1.0 + x * x)
  }

  /** Height of the curve at the middle of strip i of n. */
  function Height(i: int, n: nat): real
    requires 0 < n
  { Curve((i as real + 0.5) * (1.0 / n as real)) }

  /** The curve is 4 / (1 + x^2). */
  lemma CurveIs(x: real)
    ensures Curve(x) * (1.0 + x * x) == 4.0
  {
    Square(x);
  }

  // Order and products, with the product as a named function so that each fact stands alone.

  function Product(a: real, b: real): real { a * b }

  lemma Positive(a: real, b: real)
    requires 0.0 < a && 0.0 < b
    ensures 0.0 < Product(a, b)
  {}

  lemma Inverse(n: real, dx: real)
    requires Product(n, dx) == 1.0 && 0.0 < n
    ensures 0.0 < dx
  {
    assert dx < 0.0 ==> n * -dx > 0.0;
  }

  lemma Distributes(a: real, d: real, c: real)
    ensures Product(a + d, c) == Product(a, c) + Product(d, c)
  {}

  /** Multiplying by a positive number keeps the order. */
  lemma Below(a: real, b: real, c: real)
    requires a < b && 0.0 < c
    ensures Product(a, c) < Product(b, c)
  {
    hide Product;
    Positive(b - a, c);
    Distributes(a, b - a, c);
    assert a + (b - a) == b;
  }

  lemma Midpoint(a: real, n: real, dx: real)
    requires 0.0 < a < n && Product(n, dx) == 1.0
    ensures 0.0 < Product(a, dx) < 1.0
  {
    hide Product;
    Inverse(n, dx);
    Positive(a, dx);
    Below(a, n, dx);
  }

  /** The curve lies between 2 and 4 inside the unit interval, ... */
  lemma CurveBetween(x: real)
    requires 0.0 < x < 1.0
    ensures 2.0 < Curve(x) < 4.0
  {
    var y := Product(x, x);
    assert Product(Curve(x), 1.0 + y) == 4.0 by { CurveIs(x); }
    assert Product(1.0, x) == x;
    hide Product, Curve;
    Positive(x, x);
    Below(x, 1.0, x);
    QuotientBetween(Curve(x), y);
  }

  lemma QuotientBetween(c: real, y: real)
    requires Product(c, 1.0 + y) == 4.0 && 0.0 < y < 1.0
    ensures 2.0 < c < 4.0
  {
    assert Product(2.0, 1.0 + y) == 2.0 + 2.0 * y && Product(4.0, 1.0 + y) == 4.0 + 4.0 * y;
    hide Product;
    if c < 2.0 { Below(c, 2.0, 1.0 + y); }
    if c > 4.0 { Below(4.0, c, 1.0 + y); }
  }

  /** ... where all the midpoints are. */
  lemma HeightBetween(i: nat, n: nat)
    requires i < n
    ensures 2.0 < Height(i, n) < 4.0
  {
    var a, dx := i as real + 0.5, 1.0 / n as real;
    Reciprocal(n as real);
    Midpoint(a, n as real, dx);
    assert Height(i, n) == Curve(Product(a, dx));
    hide Product, Curve, Height;
    CurveBetween(Product(a, dx));
  }

  lemma Reciprocal(n: real)
    requires 0.0 < n
    ensures Product(n, 1.0 / n) == 1.0
  {}

  /** A sum of heights times the strip width. */
  function Area(sum: real, n: nat): real
    requires 0 < n
  { sum * (1.0 / n as real) }

  /** Sum of the heights of strips lo to hi - 1. */
  function Sum(lo: int, hi: int, n: nat): real
    requires 0 < n
    decreases hi - lo
  { if hi <= lo then 0.0 else Sum(lo, hi - 1, n) + Height(hi - 1, n) }

  lemma SumStep(lo: int, hi: int, n: nat)
    requires 0 < n
    ensures hi <= lo ==> Sum(lo, hi, n) == 0.0
    ensures lo < hi ==> Sum(lo, hi, n) == Sum(lo, hi - 1, n) + Height(hi - 1, n)
  {
    hide Height;
  }

  lemma HeightAt(i: int, n: nat, x: real)
    requires 0 < n && x == (i as real + 0.5) * (1.0 / n as real)
    ensures Height(i, n) == Curve(x)
  {}

  lemma {:induction false} SumSplit(lo: int, mid: int, hi: int, n: nat)
    requires 0 < n && lo <= mid <= hi
    ensures Sum(lo, hi, n) == Sum(lo, mid, n) + Sum(mid, hi, n)
    decreases hi - mid
  {
    hide Height;
    if mid < hi { SumSplit(lo, mid, hi - 1, n); }
  }

  datatype PiArg = PiArg(istart: int, iend: int, psum: real, localId: int, waiting: bool)

  function Initial(i: nat, n: nat, threads: nat): PiArg
    requires 0 < threads
  { PiArg(Start(i, n, threads), Start(i + 1, n, threads), 0.0, i + 1, false) }

  /** The loop that fills in the shares before each thread is created. */
  method FillArgs(threads: nat, n: nat) returns (args: array<PiArg>)
    requires 0 < threads
    ensures fresh(args) && args.Length == threads
    ensures forall i | 0 <= i < threads :: args[i] == Initial(i, n, threads)
  {
    hide Start;
    args := new PiArg[threads](_ => PiArg(0, 0, 0.0, 0, false));
    var i := 0;
    while i < threads
      invariant 0 <= i <= threads
      invariant forall k | 0 <= k < i :: args[k] == Initial(k, n, threads)
    {
      args[i] := PiArg(Start(i, n, threads), Start(i + 1, n, threads), 0.0, i + 1, false);
      i := i + 1;
    }
  }

  /** The summing part of pi_calc. */
  method PiCalc(arg: PiArg, n: nat) returns (psum: real)
    requires 0 < n && arg.istart <= arg.iend
    ensures psum == Area(Sum(arg.istart, arg.iend, n), n)
  {
    hide Curve, Height, Sum;
    var dx := 1.0 / n as real;
    SumStep(arg.istart, arg.istart, n);
    var sum, i := 0.0, arg.istart;
    while i < arg.iend
      invariant arg.istart <= i <= arg.iend && sum == Sum(arg.istart, i, n)
    {
      var x := (i as real + 0.5) * dx;
      HeightAt(i, n, x);
      SumStep(arg.istart, i + 1, n);
      sum := sum + Curve(x);
      i := i + 1;
    }
    psum := sum * dx;
  }

  lemma AddPart(a: real, b: real, n: nat)
    requires 0 < n
    ensures Area(a, n) + Area(b, n) == Area(a + b, n)
    ensures Area(0.0, n) == 0.0
  {}

  /** Thread i's record holds its share, and its partial result when it is done. */
  ghost predicate Share(arg: PiArg, i: nat, n: nat, threads: nat, done: bool)
    requires 0 < n && 0 < threads
  {
    && arg.istart == Start(i, n, threads) && arg.iend == Start(i + 1, n, threads)
    && (done ==> arg.psum == Area(Sum(arg.istart, arg.iend, n), n))
  }

  /** The joining loop: partial results are added in thread order. */
  method Reduce(args: array<PiArg>, n: nat) returns (pi: real)
    requires 0 < n && 0 < args.Length
    requires forall i | 0 <= i < args.Length :: Share(args[i], i, n, args.Length, true)
    ensures pi == Area(Sum(0, n, n), n)
  {
    hide Start, Sum, Height, Area;
    var threads := args.Length;
    Ends(n, threads);
    SumStep(0, 0, n);
    AddPart(0.0, 0.0, n);
    pi := 0.0;
    var i := 0;
    while i < threads
      invariant 0 <= i <= threads
      invariant pi == Area(Sum(0, Start(i, n, threads), n), n)
    {
      var a, b := Start(i, n, threads), Start(i + 1, n, threads);
      assert Share(args[i], i, n, threads, true);
      Ordered(0, i, n, threads);
      Ordered(i, i + 1, n, threads);
      SumSplit(0, a, b, n);
      AddPart(Sum(0, a, n), Sum(a, b, n), n);
      pi := pi + args[i].psum;
      i := i + 1;
    }
  }

  /** The whole computation.  The threads finish in any order, each storing into its own record; the
      reduction is the midpoint sum over all strips, as one sequential loop would give it. */
  method PiTest(threads: nat, n: nat, order: seq<nat>) returns (pi: real)
    requires 0 < threads && 0 < n
    requires forall k | 0 <= k < |order| :: order[k] < threads
    requires forall i | 0 <= i < threads :: i in order
    ensures pi == Area(Sum(0, n, n), n) && 2.0 < pi < 4.0
  {
    hide Start, Sum, Height, Area;
    var args := FillArgs(threads, n);
    var k := 0;
    assert order[..0] == [];
    while k < |order|
      invariant 0 <= k <= |order|
      invariant forall i | 0 <= i < threads :: Share(args[i], i, n, threads, i in order[..k])
    {
      var t := order[k];
      assert Share(args[t], t, n, threads, t in order[..k]);
      Ordered(t, t + 1, n, threads);
      var psum := PiCalc(args[t], n);
      args[t] := args[t].(psum := psum);
      assert order[..k + 1] == order[..k] + [t];
      k := k + 1;
    }
    assert order[..k] == order;
    pi := Reduce(args, n);
    PiBetween(n);
  }

  lemma {:induction false} SumBetween(k: nat, n: nat)
    requires 0 < k <= n
    ensures 2.0 * k as real < Sum(0, k, n) < 4.0 * k as real
  {
    hide Height;
    HeightBetween(k - 1, n);
    if k > 1 { SumBetween(k - 1, n); }
  }

  /** So for every number of strips, and whatever the threads, the result lies between 2 and 4. */
  lemma PiBetween(n: nat)
    requires 0 < n
    ensures 2.0 < Area(Sum(0, n, n), n) < 4.0
  {
    hide Sum, Area;
    SumBetween(n, n);
    AreaBetween(Sum(0, n, n), n);
  }

  lemma AreaBetween(s: real, n: nat)
    requires 0 < n && 2.0 * n as real < s < 4.0 * n as real
    ensures 2.0 < Area(s, n) < 4.0
  {
    assert Area(s, n) == Product(s, 1.0 / n as real);
    Reciprocal(n as real);
    hide Product, Area;
    Scaled(s, n as real, 1.0 / n as real);
  }

  lemma Times(k: real, n: real, dx: real)
    requires Product(n, dx) == 1.0
    ensures Product(k * n, dx) == k
  {
    assert (k * n) * dx == k * (n * dx);
  }

  lemma Scaled(s: real, n: real, dx: real)
    requires 2.0 * n < s < 4.0 * n && Product(n, dx) == 1.0 && 0.0 < n
    ensures 2.0 < Product(s, dx) < 4.0
  {
    hide Product;
    Inverse(n, dx);
    Below(2.0 * n, s, dx);
    Below(s, 4.0 * n, dx);
    Times(2.0, n, dx);
    Times(4.0, n, dx);
  }

  /** With one strip it is 3.2. */
  lemma PiOneStrip()
    ensures Area(Sum(0, 1, 1), 1) == 3.2
  {
    assert Height(0, 1) == Curve(0.5);
    CurveIs(0.5);
  }
}
