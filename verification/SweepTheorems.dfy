/**
  What the sweep promises. A rate `n / d` of output per input bounds every way of filling the
  ladder: the part of a level that beats the rate is its surplus (linear-programming duality, kept
  in integers). The greedy walk meets the bound at its marginal level, which gives optimality,
  worsening prices and the round-trip bound for ladders of any length.
 */
module SweepTheorems {
  import opened Common
  import opened Ladder
  import Loops = Sweep

  // ---------------------------------------------------------------- closed form

  function InSum(side: Side, levels: seq<Level>, k: nat): nat
    requires k <= |levels|
  {
    if k == 0 then 0 else In(side, levels[0]) + InSum(side, levels[1..], k - 1)
  }

  function OutSum(side: Side, levels: seq<Level>, k: nat): nat
    requires k <= |levels|
  {
    if k == 0 then 0 else Out(side, levels[0]) + OutSum(side, levels[1..], k - 1)
  }

  /** The first `k` levels are consumed whole and level `k` is not, whatever the reason. */
  ghost predicate StopsAt(side: Side, x: u64, out: u64, levels: seq<Level>, k: nat) {
    && k <= |levels|
    && (forall i :: 0 <= i < k ==> !Degenerate(levels[i]))
    && InSum(side, levels, k) <= x
    && out + OutSum(side, levels, k) <= U64_MAX
    && (|| k == |levels|
        || x == InSum(side, levels, k)
        || Degenerate(levels[k])
        || x - InSum(side, levels, k) < In(side, levels[k])
        || out + OutSum(side, levels, k) + Out(side, levels[k]) > U64_MAX)
  }

  /** The outcome read off the prefix sums at the stopping level. */
  ghost function Verdict(side: Side, x: u64, out: u64, levels: seq<Level>, k: nat): (r: Result<nat, ErrorCode>)
    requires StopsAt(side, x, out, levels, k)
  {
    var rest := x - InSum(side, levels, k);
    var paid := out + OutSum(side, levels, k);
    if rest == 0 then Ok(paid)
    else if k == |levels| then Err(InsufficientLiquidity)
    else if Degenerate(levels[k]) then Err(DegenerateLevelEntry)
    else if rest >= In(side, levels[k]) then Err(Overflow)
    else
      var last := Partial(side, rest, levels[k]);
      if last == 0 then Err(InsufficientLiquidity)
      else if paid + last > U64_MAX then Err(Overflow)
      else Ok(paid + last)
  }

  /** Consuming the first level whole shifts the stopping level by one and changes nothing else. */
  lemma StopShifts(side: Side, x: u64, out: u64, levels: seq<Level>, k: nat)
    requires levels != [] && !Degenerate(levels[0])
    requires x >= In(side, levels[0]) && out + Out(side, levels[0]) <= U64_MAX
    requires StopsAt(side, x - In(side, levels[0]), out + Out(side, levels[0]), levels[1..], k)
    ensures StopsAt(side, x, out, levels, k + 1)
    ensures Verdict(side, x, out, levels, k + 1)
         == Verdict(side, x - In(side, levels[0]), out + Out(side, levels[0]), levels[1..], k)
  {
    SumsSplit(side, levels, k + 1);
    forall i | 0 <= i < k + 1
      ensures !Degenerate(levels[i])
    {
      assert i > 0 ==> levels[i] == levels[1..][i - 1];
    }
    assert k + 1 < |levels| ==> levels[k + 1] == levels[1..][k];
  }

  lemma {:induction false} WalkIsVerdict(side: Side, x: u64, out: u64, levels: seq<Level>) returns (k: nat)
    ensures StopsAt(side, x, out, levels, k)
    ensures Walk(side, x, out, levels) == Verdict(side, x, out, levels, k)
    decreases levels
  {
    if x > 0 && levels != [] && !Degenerate(levels[0]) && x >= In(side, levels[0])
       && out + Out(side, levels[0]) <= U64_MAX
    {
      k := WalkIsVerdict(side, x - In(side, levels[0]), out + Out(side, levels[0]), levels[1..]);
      StopShifts(side, x, out, levels, k);
      k := k + 1;
    } else {
      k := 0;
    }
  }

  lemma {:induction false} StopIsUnique(side: Side, x: u64, out: u64, levels: seq<Level>, j: nat, k: nat)
    requires StopsAt(side, x, out, levels, j) && StopsAt(side, x, out, levels, k)
    ensures j == k
    decreases levels
  {
    if j > 0 && k > 0 {
      var l, tail := levels[0], levels[1..];
      assert forall i :: 0 <= i < |tail| ==> tail[i] == levels[i + 1];
      SumsSplit(side, levels, j);
      SumsSplit(side, levels, k);
      StopIsUnique(side, x - In(side, l), out + Out(side, l), tail, j - 1, k - 1);
    } else if j > 0 {
      SumsSplit(side, levels, j);
    } else if k > 0 {
      SumsSplit(side, levels, k);
    }
  }

  lemma SumsSplit(side: Side, levels: seq<Level>, k: nat)
    requires 0 < k <= |levels|
    ensures InSum(side, levels, k) == In(side, levels[0]) + InSum(side, levels[1..], k - 1) >= In(side, levels[0])
    ensures OutSum(side, levels, k) == Out(side, levels[0]) + OutSum(side, levels[1..], k - 1) >= Out(side, levels[0])
  {
  }

  /** A sweep pays out exactly when the levels it visits, and no others, allow it. */
  ghost predicate Fills(side: Side, x: u64, minOut: u64, levels: seq<Level>, k: nat) {
    && k <= |levels|
    && (forall i :: 0 <= i < k ==> !Degenerate(levels[i]))
    && InSum(side, levels, k) <= x
    && (x > InSum(side, levels, k) ==>
          && k < |levels|
          && !Degenerate(levels[k])
          && x - InSum(side, levels, k) < In(side, levels[k])
          && Partial(side, x - InSum(side, levels, k), levels[k]) > 0)
    && minOut <= Paid(side, x, levels, k) <= U64_MAX
  }

  /** Whole prefix levels plus the floor inside the marginal one. */
  ghost function Paid(side: Side, x: u64, levels: seq<Level>, k: nat): nat
    requires k <= |levels| && InSum(side, levels, k) <= x
    requires x > InSum(side, levels, k) ==> k < |levels| && !Degenerate(levels[k])
  {
    OutSum(side, levels, k)
    + if x == InSum(side, levels, k) then 0 else Partial(side, x - InSum(side, levels, k), levels[k])
  }

  lemma SweepClosedForm(side: Side, x: u64, minOut: u64, levels: seq<Level>)
    ensures Sweep(side, x, minOut, levels).Ok? <==> exists k :: Fills(side, x, minOut, levels, k)
    ensures forall k :: Fills(side, x, minOut, levels, k) ==>
                          Sweep(side, x, minOut, levels) == Ok(Paid(side, x, levels, k))
  {
    var j := WalkIsVerdict(side, x, 0, levels);
    if Sweep(side, x, minOut, levels).Ok? {
      assert Fills(side, x, minOut, levels, j);
    }
    forall k | Fills(side, x, minOut, levels, k)
      ensures Sweep(side, x, minOut, levels) == Ok(Paid(side, x, levels, k))
    {
      assert StopsAt(side, x, 0, levels, k);
      StopIsUnique(side, x, 0, levels, j, k);
    }
  }

  /** What each outcome of a sweep says about its stopping level; no other error is raised. */
  lemma SweepErrors(side: Side, x: u64, minOut: u64, levels: seq<Level>, k: nat)
    requires StopsAt(side, x, 0, levels, k)
    ensures var rest := x - InSum(side, levels, k);
            match Sweep(side, x, minOut, levels)
            case Ok(out) => out >= minOut
            case Err(SlippageExceeded) =>
              Verdict(side, x, 0, levels, k).Ok? && Verdict(side, x, 0, levels, k).value < minOut
            case Err(DegenerateLevelEntry) => rest > 0 && k < |levels| && Degenerate(levels[k])
            case Err(InsufficientLiquidity) =>
              && rest > 0
              && (k == |levels| || (!Degenerate(levels[k]) && rest * Out(side, levels[k]) < In(side, levels[k])))
            case Err(Overflow) =>
              rest > 0 && k < |levels| && !Degenerate(levels[k])
              && OutSum(side, levels, k) + Out(side, levels[k]) > U64_MAX
            case Err(_) => false
  {
    var j := WalkIsVerdict(side, x, 0, levels);
    StopIsUnique(side, x, 0, levels, j, k);
    var rest: u64 := x - InSum(side, levels, k);
    if k < |levels| && !Degenerate(levels[k]) && rest < In(side, levels[k]) {
      MarginalFloor(side, rest, levels[k]);
    }
  }

  lemma MarginalFloor(side: Side, x: u64, l: Level)
    requires !Degenerate(l) && x < In(side, l)
    ensures Partial(side, x, l) < Out(side, l)
    ensures Partial(side, x, l) == 0 <==> x * Out(side, l) < In(side, l)
  {
    Loops.PartialBelowLevel(side, x, l);
    FloorZero(x * Out(side, l), In(side, l));
  }

  lemma FloorZero(n: nat, d: nat)
    requires d > 0
    ensures FloorDiv(n, d) == 0 <==> n < d
  {
    FloorBracket(n, d);
    if FloorDiv(n, d) > 0 { MulMonotone(1, FloorDiv(n, d), d); }
  }

  // ---------------------------------------------------------------- bid and ask are one algorithm

  function Mirror(levels: seq<Level>): seq<Level> {
    seq(|levels|, i requires 0 <= i < |levels| => Level(levels[i].quote, levels[i].base))
  }

  lemma {:induction false} AskIsMirroredBid(amountIn: u64, minOut: u64, levels: seq<Level>)
    ensures Sweep(Ask, amountIn, minOut, levels) == Sweep(Bid, amountIn, minOut, Mirror(levels))
    ensures Sorted(Ask, levels) <==> Sorted(Bid, Mirror(levels))
  {
    MirrorWalk(amountIn, 0, levels);
    var m := Mirror(levels);
    assert forall i, j :: 0 <= i < j < |levels| ==> (Better(Ask, levels[i], levels[j]) <==> Better(Bid, m[i], m[j]));
  }

  lemma {:induction false} MirrorWalk(remaining: u64, out: u64, levels: seq<Level>)
    ensures Walk(Ask, remaining, out, levels) == Walk(Bid, remaining, out, Mirror(levels))
    decreases levels
  {
    if levels != [] {
      assert Mirror(levels)[1..] == Mirror(levels[1..]);
      if !Degenerate(levels[0]) && remaining >= levels[0].base && out + levels[0].quote <= U64_MAX {
        MirrorWalk(remaining - levels[0].base, out + levels[0].quote, levels[1..]);
      }
    }
  }

  // ---------------------------------------------------------------- duality

  /** What a level pays beyond rate `n / d`, scaled by `d`. */
  function LevelSurplus(side: Side, l: Level, n: nat, d: nat): nat {
    var s := Out(side, l) * d - n * In(side, l);
    if s > 0 then s else 0
  }

  function Surplus(side: Side, levels: seq<Level>, n: nat, d: nat): nat {
    if levels == [] then 0 else LevelSurplus(side, levels[0], n, d) + Surplus(side, levels[1..], n, d)
  }

  lemma PartialBelowRate(x: nat, i: nat, o: nat, p: nat, n: nat, d: nat, s: nat)
    requires 0 < i && x < i
    requires p * i <= x * o
    requires o * d - n * i <= s
    ensures p * d <= n * x + s
  {
    calc {
      (p * d) * i;
      ==
      (p * i) * d;
      <= { MulMonotone(p * i, x * o, d); }
      (x * o) * d;
      == { assert (x * o) * d == (o * d) * x; }
      (o * d) * x;
      <= { MulMonotone(o * d, n * i + s, x); }
      (n * i + s) * x;
      == { assert (n * i + s) * x == n * i * x + s * x; }
      n * i * x + s * x;
      <= { MulMonotone(x, i, s); assert s * x == x * s && s * i == i * s; }
      n * i * x + s * i;
      == { assert n * i * x == (n * x) * i; assert (n * x + s) * i == (n * x) * i + s * i; }
      (n * x + s) * i;
    }
    MulCancel(p * d, n * x + s, i);
  }

  lemma FullLevelRate(y: int, x: int, i: nat, o: nat, n: nat, d: nat)
    ensures (y - o) * d == y * d - o * d
    ensures n * (x - i) == n * x - n * i
    ensures (y + 1) * d == y * d + d
  {
  }

  lemma WholeBelowRate(y: int, x: int, i: nat, o: nat, n: nat, d: nat, s: nat, t: nat)
    requires (y - o) * d <= n * (x - i) + t
    requires o * d - n * i <= s
    ensures y * d <= n * x + (s + t)
  {
    FullLevelRate(y, x, i, o, n, d);
  }

  lemma {:induction false} WalkBelowRate(side: Side, x: u64, out: u64, levels: seq<Level>, n: nat, d: nat)
    requires Walk(side, x, out, levels).Ok?
    ensures (Walk(side, x, out, levels).value - out) * d <= n * x + Surplus(side, levels, n, d)
    decreases levels
  {
    var y := Walk(side, x, out, levels).value;
    if x == 0 {
      assert (y - out) * d == 0;
    } else {
      var l := levels[0];
      var i, o := In(side, l), Out(side, l);
      if x >= i {
        WalkBelowRate(side, x - i, out + o, levels[1..], n, d);
        WholeBelowRate(y - out, x, i, o, n, d, LevelSurplus(side, l, n, d), Surplus(side, levels[1..], n, d));
      } else {
        FloorBracket(x * o, i);
        PartialBelowRate(x, i, o, y - out, n, d, LevelSurplus(side, l, n, d));
      }
    }
  }

  /** No level of an ordered ladder beats the rate of its first level. */
  lemma {:induction false} HeadRateHasNoSurplus(side: Side, l: Level, levels: seq<Level>)
    requires forall i :: 0 <= i < |levels| ==> levels[i] == l || Better(side, l, levels[i])
    ensures Surplus(side, levels, Out(side, l), In(side, l)) == 0
  {
    if levels != [] {
      assert levels[0] == l || Better(side, l, levels[0]);
      assert Out(side, levels[0]) * In(side, l) == In(side, l) * Out(side, levels[0]);
      assert Out(side, l) * In(side, levels[0]) == In(side, levels[0]) * Out(side, l);
      HeadRateHasNoSurplus(side, l, levels[1..]);
    }
  }

  lemma SortedHead(side: Side, levels: seq<Level>)
    requires Sorted(side, levels) && levels != []
    ensures Sorted(side, levels[1..])
    ensures Surplus(side, levels, Out(side, levels[0]), In(side, levels[0])) == 0
  {
    forall i | 0 <= i < |levels|
      ensures levels[i] == levels[0] || Better(side, levels[0], levels[i])
    {
    }
    HeadRateHasNoSurplus(side, levels[0], levels);
  }

  /** The greedy walk meets the bound at its marginal level, up to the one atom lost to rounding. */
  lemma {:induction false} WalkMeetsRate(side: Side, x: u64, out: u64, levels: seq<Level>) returns (j: nat)
    requires Sorted(side, levels) && x > 0
    requires Walk(side, x, out, levels).Ok?
    ensures j < |levels| && !Degenerate(levels[j])
    ensures var n, d := Out(side, levels[j]), In(side, levels[j]);
            (Walk(side, x, out, levels).value - out + 1) * d > n * x + Surplus(side, levels, n, d)
    decreases levels
  {
    var y := Walk(side, x, out, levels).value;
    var l := levels[0];
    var i, o := In(side, l), Out(side, l);
    SortedHead(side, levels);
    if x <= i {
      j := 0;
      if x == i {
        FullLevelRate(y - out, x, i, o, o, i);
        assert y - out == o;
      } else {
        FloorBracket(x * o, i);
        assert x * o == o * x;
      }
    } else {
      var t := WalkMeetsRate(side, x - i, out + o, levels[1..]);
      j := t + 1;
      assert levels[1..][t] == levels[j];
      assert Better(side, l, levels[j]);
      var n, d := Out(side, levels[j]), In(side, levels[j]);
      RateStep(y - out, x, i, o, n, d, Surplus(side, levels[1..], n, d));
    }
  }

  lemma RateStep(y: int, x: int, i: nat, o: nat, n: nat, d: nat, s: nat)
    requires i * n < d * o
    requires (y - o + 1) * d > n * (x - i) + s
    ensures (y + 1) * d > n * x + (o * d - n * i) + s
    ensures o * d - n * i > 0
  {
    assert (y - o + 1) * d == (y + 1) * d - o * d;
    assert n * (x - i) == n * x - n * i;
    assert i * n == n * i && d * o == o * d;
  }

  // ---------------------------------------------------------------- greedy optimality

  /** What `x` input atoms yield in a level at its exact price. */
  ghost function Yield(side: Side, l: Level, x: real): real {
    if In(side, l) == 0 then 0.0 else x * Out(side, l) as real / In(side, l) as real
  }

  ghost function Total(alloc: seq<real>): real {
    if alloc == [] then 0.0 else alloc[0] + Total(alloc[1..])
  }

  ghost function Value(side: Side, alloc: seq<real>, levels: seq<Level>): real
    requires |alloc| == |levels|
  {
    if alloc == [] then 0.0 else Yield(side, levels[0], alloc[0]) + Value(side, alloc[1..], levels[1..])
  }

  /** A way to split an input over the levels: any real amount up to the level's size. */
  ghost predicate Feasible(side: Side, alloc: seq<real>, levels: seq<Level>) {
    && |alloc| == |levels|
    && forall i :: 0 <= i < |alloc| ==> 0.0 <= alloc[i] <= In(side, levels[i]) as real
  }

  lemma YieldBelowRate(x: real, i: real, o: real, n: real, d: real, s: real)
    requires 0.0 <= x <= i && i > 0.0
    requires o * d - n * i <= s && s >= 0.0
    ensures x * o / i * d <= n * x + s
  {
    var q := x / i;
    assert q * i == x;
    assert 0.0 <= q <= 1.0;
    assert x * o / i == q * o;
    assert q * (o * d - n * i) <= s by {
      var g := o * d - n * i;
      if g > 0.0 { assert (1.0 - q) * g >= 0.0; } else { assert q * (0.0 - g) >= 0.0; }
    }
    assert q * (o * d - n * i) == q * o * d - n * (q * i);
  }

  /** Value `v` for input `x` stays below rate `n / d` plus the scaled surplus `s`. */
  ghost predicate BelowRate(v: real, x: real, s: nat, n: nat, d: nat) {
    v * d as real <= n as real * x + s as real
  }

  lemma LevelBelowRate(side: Side, x: real, l: Level, n: nat, d: nat)
    requires 0.0 <= x <= In(side, l) as real
    ensures BelowRate(Yield(side, l, x), x, LevelSurplus(side, l, n, d), n, d)
  {
    hide LevelSurplus, Yield, In, Out;
    var i: nat, o: nat := In(side, l), Out(side, l);
    var s := LevelSurplus(side, l, n, d);
    YieldQuotient(side, x, l);
    if i > 0 {
      SurplusCovers(side, l, n, d);
      SurplusAsReal(i, o, n, d, s);
      YieldBelowRate(x, i as real, o as real, n as real, d as real, s as real);
    }
  }

  lemma YieldQuotient(side: Side, x: real, l: Level)
    ensures In(side, l) == 0 ==> Yield(side, l, x) == 0.0
    ensures In(side, l) > 0 ==> Yield(side, l, x) == x * Out(side, l) as real / In(side, l) as real
  {
  }

  lemma SurplusCovers(side: Side, l: Level, n: nat, d: nat)
    ensures Out(side, l) * d - n * In(side, l) <= LevelSurplus(side, l, n, d)
  {
  }

  lemma SurplusAsReal(i: nat, o: nat, n: nat, d: nat, s: nat)
    requires o * d - n * i <= s
    ensures o as real * d as real - n as real * i as real <= s as real
  {
    ProductAsReal(o, d);
    ProductAsReal(n, i);
  }

  lemma ProductAsReal(a: nat, b: nat)
    ensures (a * b) as real == a as real * b as real
  {
  }

  lemma {:induction false} AllocationBelowRate(side: Side, alloc: seq<real>, levels: seq<Level>, n: nat, d: nat)
    requires Feasible(side, alloc, levels)
    ensures BelowRate(Value(side, alloc, levels), Total(alloc), Surplus(side, levels, n, d), n, d)
  {
    if alloc != [] {
      LevelBelowRate(side, alloc[0], levels[0], n, d);
      AllocationBelowRate(side, alloc[1..], levels[1..], n, d);
      AddRates(Yield(side, levels[0], alloc[0]), Value(side, alloc[1..], levels[1..]), alloc[0], Total(alloc[1..]),
               LevelSurplus(side, levels[0], n, d), Surplus(side, levels[1..], n, d), n, d);
    }
  }

  lemma AddRates(v: real, w: real, x: real, y: real, s: nat, t: nat, n: nat, d: nat)
    requires BelowRate(v, x, s, n, d) && BelowRate(w, y, t, n, d)
    ensures BelowRate(v + w, x + y, s + t, n, d)
  {
    assert (v + w) * d as real == v * d as real + w * d as real;
    assert n as real * (x + y) == n as real * x + n as real * y;
  }

  /** The walk's own split of the input. */
  ghost function Greedy(side: Side, x: u64, levels: seq<Level>): seq<real> {
    if levels == [] then []
    else
      var take := if x < In(side, levels[0]) then x else In(side, levels[0]);
      [take as real] + Greedy(side, x - take, levels[1..])
  }

  /** Prepending one level's share to an allocation adds its amount and its yield. */
  lemma Prepend(side: Side, x: real, levels: seq<Level>, alloc: seq<real>)
    requires levels != [] && Feasible(side, alloc, levels[1..])
    requires 0.0 <= x <= In(side, levels[0]) as real
    ensures Feasible(side, [x] + alloc, levels)
    ensures Total([x] + alloc) == x + Total(alloc)
    ensures Value(side, [x] + alloc, levels) == Yield(side, levels[0], x) + Value(side, alloc, levels[1..])
  {
    assert ([x] + alloc)[1..] == alloc;
    forall i | 0 <= i < |levels|
      ensures 0.0 <= ([x] + alloc)[i] <= In(side, levels[i]) as real
    {
      assert i > 0 ==> levels[i] == levels[1..][i - 1] && ([x] + alloc)[i] == alloc[i - 1];
    }
  }

  lemma {:induction false} GreedyAttains(side: Side, x: u64, out: u64, levels: seq<Level>)
    requires Walk(side, x, out, levels).Ok?
    ensures Feasible(side, Greedy(side, x, levels), levels)
    ensures Total(Greedy(side, x, levels)) == x as real
    ensures Value(side, Greedy(side, x, levels), levels).Floor == Walk(side, x, out, levels).value - out
    decreases levels
  {
    if x == 0 {
      GreedyRests(side, levels);
    } else {
      var i, o := In(side, levels[0]), Out(side, levels[0]);
      if x < i {
        GreedyRests(side, levels[1..]);
        Prepend(side, x as real, levels, Greedy(side, 0, levels[1..]));
        YieldPart(side, x, levels[0]);
      } else {
        var tail := Greedy(side, x - i, levels[1..]);
        GreedyAttains(side, x - i, out + o, levels[1..]);
        Prepend(side, i as real, levels, tail);
        YieldWhole(side, levels[0]);
        FloorShift(Value(side, tail, levels[1..]), o);
      }
    }
  }

  lemma {:induction false} GreedyRests(side: Side, levels: seq<Level>)
    ensures Feasible(side, Greedy(side, 0, levels), levels)
    ensures Total(Greedy(side, 0, levels)) == 0.0
    ensures Value(side, Greedy(side, 0, levels), levels) == 0.0
  {
    if levels != [] {
      GreedyRests(side, levels[1..]);
      Prepend(side, 0.0, levels, Greedy(side, 0, levels[1..]));
    }
  }

  lemma FloorShift(v: real, o: nat)
    ensures (o as real + v).Floor == o + v.Floor
  {
  }

  lemma YieldWhole(side: Side, l: Level)
    requires !Degenerate(l)
    ensures Yield(side, l, In(side, l) as real) == Out(side, l) as real
  {
    CancelReal(In(side, l) as real, Out(side, l) as real);
  }

  lemma CancelReal(i: real, o: real)
    requires i > 0.0
    ensures i * o / i == o
  {
    var q := i * o / i;
    assert q * i == o * i;
    if q < o { RealMonotone(q, o, i); }
    if o < q { RealMonotone(o, q, i); }
  }

  lemma YieldPart(side: Side, x: u64, l: Level)
    requires !Degenerate(l)
    ensures Yield(side, l, x as real).Floor == Partial(side, x, l)
  {
    var i: nat, o: nat := In(side, l), Out(side, l);
    ProductAsReal(x, o);
    FloorAsReal(x * o, i);
    assert Yield(side, l, x as real) == (x * o) as real / i as real;
  }

  lemma FloorAsReal(n: nat, d: nat)
    requires d > 0
    ensures (n as real / d as real).Floor == FloorDiv(n, d)
  {
    FloorBracket(n, d);
    var q := FloorDiv(n, d);
    ProductAsReal(q, d);
    ProductAsReal(q + 1, d);
    RealQuotient(n as real, d as real, q as real);
  }

  lemma RealMonotone(a: real, b: real, c: real)
    requires a <= b && c > 0.0
    ensures a * c <= b * c
    ensures a < b ==> a * c < b * c
  {
    assert b * c == a * c + (b - a) * c;
    assert (b - a) * c >= 0.0;
    assert a < b ==> (b - a) * c > 0.0;
  }

  lemma RealQuotient(n: real, d: real, p: real)
    requires d > 0.0
    requires p * d <= n < (p + 1.0) * d
    ensures p <= n / d < p + 1.0
  {
    var q := n / d;
    assert q * d == n;
    if q < p { RealMonotone(q, p, d); }
    if q >= p + 1.0 { RealMonotone(p + 1.0, q, d); }
  }

  /** On an accepted ladder the sweep pays the floor of the best exact value over all splits of the input. */
  lemma GreedyIsOptimal(side: Side, x: u64, minOut: u64, levels: seq<Level>, alloc: seq<real>)
    requires Sorted(side, levels) && x > 0
    requires Sweep(side, x, minOut, levels).Ok?
    requires Feasible(side, alloc, levels) && Total(alloc) == x as real
    ensures Value(side, alloc, levels).Floor <= Sweep(side, x, minOut, levels).value
    ensures Feasible(side, Greedy(side, x, levels), levels)
    ensures Total(Greedy(side, x, levels)) == x as real
    ensures Value(side, Greedy(side, x, levels), levels).Floor == Sweep(side, x, minOut, levels).value
  {
    var y := Sweep(side, x, minOut, levels).value;
    GreedyAttains(side, x, 0, levels);
    var j := WalkMeetsRate(side, x, 0, levels);
    var n, d := Out(side, levels[j]), In(side, levels[j]);
    AllocationBelowRate(side, alloc, levels, n, d);
    var v := Value(side, alloc, levels);
    FloorBelow(v, n, d, x, y, Surplus(side, levels, n, d));
  }

  lemma FloorBelow(v: real, n: nat, d: nat, x: nat, y: nat, s: nat)
    requires d > 0
    requires BelowRate(v, x as real, s, n, d)
    requires (y + 1) * d > n * x + s
    ensures v.Floor <= y
  {
    ProductAsReal(n, x);
    ProductAsReal(y + 1, d);
    if v >= (y + 1) as real {
      RealMonotone((y + 1) as real, v, d as real);
    }
  }

  /** The whole atoms a split pays when each level rounds down on its own. */
  ghost function SplitPays(side: Side, split: seq<nat>, levels: seq<Level>): nat
    requires |split| == |levels|
    requires forall i :: 0 <= i < |levels| ==> In(side, levels[i]) > 0
  {
    if split == [] then 0
    else FloorDiv(split[0] * Out(side, levels[0]), In(side, levels[0])) + SplitPays(side, split[1..], levels[1..])
  }

  ghost function SplitTotal(split: seq<nat>): nat {
    if split == [] then 0 else split[0] + SplitTotal(split[1..])
  }

  /** Whole output `p` for whole input `x` stays below rate `n / d` plus the scaled surplus `s`. */
  ghost predicate PaysBelowRate(p: nat, x: nat, s: nat, n: nat, d: nat) {
    p * d <= n * x + s
  }

  lemma ShareBelowRate(side: Side, x: nat, l: Level, n: nat, d: nat)
    requires x <= In(side, l) && In(side, l) > 0
    ensures PaysBelowRate(FloorDiv(x * Out(side, l), In(side, l)), x, LevelSurplus(side, l, n, d), n, d)
  {
    var i, o := In(side, l), Out(side, l);
    var p := FloorDiv(x * o, i);
    FloorBracket(x * o, i);
    if x < i {
      PartialBelowRate(x, i, o, p, n, d, LevelSurplus(side, l, n, d));
    } else {
      assert p * i <= o * i;
      MulCancel(p, o, i);
      MulMonotone(p, o, d);
      assert o * d <= n * i + LevelSurplus(side, l, n, d);
    }
  }

  lemma AddShares(p: nat, q: nat, x: nat, y: nat, s: nat, t: nat, n: nat, d: nat)
    requires PaysBelowRate(p, x, s, n, d) && PaysBelowRate(q, y, t, n, d)
    ensures PaysBelowRate(p + q, x + y, s + t, n, d)
  {
    DistributeNat(p, q, d);
    DistributeNat(x, y, n);
  }

  lemma {:induction false} SplitBelowRate(side: Side, split: seq<nat>, levels: seq<Level>, n: nat, d: nat)
    requires |split| == |levels|
    requires forall i :: 0 <= i < |levels| ==> split[i] <= In(side, levels[i]) && In(side, levels[i]) > 0
    ensures PaysBelowRate(SplitPays(side, split, levels), SplitTotal(split), Surplus(side, levels, n, d), n, d)
  {
    if split != [] {
      ShareBelowRate(side, split[0], levels[0], n, d);
      SplitBelowRate(side, split[1..], levels[1..], n, d);
      AddShares(FloorDiv(split[0] * Out(side, levels[0]), In(side, levels[0])),
                SplitPays(side, split[1..], levels[1..]),
                split[0], SplitTotal(split[1..]),
                LevelSurplus(side, levels[0], n, d), Surplus(side, levels[1..], n, d), n, d);
    }
  }

  lemma DistributeNat(a: nat, b: nat, c: nat)
    ensures (a + b) * c == a * c + b * c
    ensures c * (a + b) == c * a + c * b
  {
  }

  /** Splitting an order by hand over an accepted ladder, in whole atoms, never beats one sweep. */
  lemma SplittingNeverHelps(side: Side, x: u64, minOut: u64, levels: seq<Level>, split: seq<nat>)
    requires Sorted(side, levels) && x > 0
    requires Sweep(side, x, minOut, levels).Ok?
    requires |split| == |levels| && SplitTotal(split) == x
    requires forall i :: 0 <= i < |levels| ==> split[i] <= In(side, levels[i])
    ensures forall i :: 0 <= i < |levels| ==> In(side, levels[i]) > 0
    ensures SplitPays(side, split, levels) <= Sweep(side, x, minOut, levels).value
  {
    forall i | 0 <= i < |levels|
      ensures In(side, levels[i]) > 0
    {
      Loops.InteriorNonDegenerate(side, levels, i);
    }
    var j := WalkMeetsRate(side, x, 0, levels);
    var n, d := Out(side, levels[j]), In(side, levels[j]);
    SplitBelowRate(side, split, levels, n, d);
    MulCancel(SplitPays(side, split, levels), Sweep(side, x, minOut, levels).value + 1, d);
  }

  // ---------------------------------------------------------------- size, price and round trips

  lemma {:induction false} WalkMonotone(side: Side, a: u64, b: u64, out: u64, levels: seq<Level>)
    requires a <= b
    requires Walk(side, a, out, levels).Ok? && Walk(side, b, out, levels).Ok?
    ensures out <= Walk(side, a, out, levels).value <= Walk(side, b, out, levels).value
    ensures a > 0 ==> out < Walk(side, a, out, levels).value
    decreases levels
  {
    if b > 0 {
      var l := levels[0];
      var i, o := In(side, l), Out(side, l);
      if b < i {
        if a > 0 {
          MulMonotone(a, b, o);
          DivMonotone(a * o, b * o, i);
        }
      } else if a >= i {
        WalkMonotone(side, a - i, b - i, out + o, levels[1..]);
      } else {
        WalkMonotone(side, b - i, b - i, out + o, levels[1..]);
        if a > 0 {
          Loops.PartialBelowLevel(side, a, l);
        }
      }
    }
  }

  lemma DivMonotone(a: nat, b: nat, d: nat)
    requires a <= b && d > 0
    ensures FloorDiv(a, d) <= FloorDiv(b, d)
  {
    FloorBracket(a, d);
    FloorBracket(b, d);
    MulCancel(FloorDiv(a, d), FloorDiv(b, d) + 1, d);
  }

  /** A bigger order never pays less in total and never gets a better average price, beyond one atom of rounding. */
  lemma PriceWorsensWithSize(side: Side, a: u64, b: u64, minA: u64, minB: u64, levels: seq<Level>)
    requires Sorted(side, levels) && a <= b && 0 < b
    requires Sweep(side, a, minA, levels).Ok? && Sweep(side, b, minB, levels).Ok?
    ensures Sweep(side, a, minA, levels).value <= Sweep(side, b, minB, levels).value
    ensures (Sweep(side, a, minA, levels).value + 1) * b > Sweep(side, b, minB, levels).value * a
  {
    WalkMonotone(side, a, b, 0, levels);
    if a > 0 {
      var j := WalkMeetsRate(side, a, 0, levels);
      var n, d := Out(side, levels[j]), In(side, levels[j]);
      WalkBelowRate(side, b, 0, levels, n, d);
      AverageRate(Sweep(side, a, minA, levels).value, Sweep(side, b, minB, levels).value, a, b, n, d,
                  Surplus(side, levels, n, d));
    }
  }

  lemma AverageRate(ya: nat, yb: nat, a: nat, b: nat, n: nat, d: nat, s: nat)
    requires 0 < a <= b && d > 0
    requires (ya + 1) * d > n * a + s && yb * d <= n * b + s
    ensures (ya + 1) * b > yb * a
  {
    Exchange(ya + 1, b, d);
    Exchange(yb, a, d);
    MulMonotone(n * a + s, (ya + 1) * d, b);
    MulMonotone(yb * d, n * b + s, a);
    Widen(n, a, b, s);
    MulCancel(yb * a, (ya + 1) * b, d);
  }

  lemma Exchange(x: nat, y: nat, z: nat)
    ensures (x * y) * z == (x * z) * y
  {
  }

  lemma Widen(n: nat, a: nat, b: nat, s: nat)
    requires a <= b
    ensures (n * b + s) * a <= (n * a + s) * b
  {
    DistributeNat(n * b, s, a);
    DistributeNat(n * a, s, b);
    Exchange(n, a, b);
    MulMonotone(a, b, s);
    assert s * a == a * s && s * b == b * s;
  }

  /** Every fill on an accepted ladder executes at the first level's price or worse for the taker. */
  lemma NeverBetterThanFirstLevel(side: Side, x: u64, minOut: u64, levels: seq<Level>)
    requires Sorted(side, levels) && x > 0
    requires Sweep(side, x, minOut, levels).Ok?
    ensures levels != [] && !Degenerate(levels[0])
    ensures 0 < Sweep(side, x, minOut, levels).value
    ensures Sweep(side, x, minOut, levels).value * In(side, levels[0]) <= Out(side, levels[0]) * x
  {
    SortedHead(side, levels);
    WalkBelowRate(side, x, 0, levels, Out(side, levels[0]), In(side, levels[0]));
    WalkMonotone(side, x, x, 0, levels);
  }

  /** Buying base and selling it straight back never returns more quote than went in. */
  lemma NoRoundTripProfit(x: u64, minBase: u64, minQuote: u64, bids: seq<Level>, asks: seq<Level>)
    requires Sorted(Bid, bids) && Sorted(Ask, asks)
    requires Sweep(Bid, x, minBase, bids).Ok?
    requires Sweep(Ask, Sweep(Bid, x, minBase, bids).value, minQuote, asks).Ok?
    // the best ask-ladder price is no higher than the best bid-ladder price
    requires bids != [] && asks != [] ==> asks[0].quote * bids[0].base <= bids[0].quote * asks[0].base
    ensures Sweep(Ask, Sweep(Bid, x, minBase, bids).value, minQuote, asks).value <= x
  {
    var y := Sweep(Bid, x, minBase, bids).value;
    var z := Sweep(Ask, y, minQuote, asks).value;
    if x > 0 {
      NeverBetterThanFirstLevel(Bid, x, minBase, bids);
      NeverBetterThanFirstLevel(Ask, y, minQuote, asks);
      ComposeRates(x, y, z, bids[0].quote, bids[0].base, asks[0].quote, asks[0].base);
    }
  }

  lemma ComposeRates(x: nat, y: nat, z: nat, qb: nat, bb: nat, qa: nat, ba: nat)
    requires qb > 0 && bb > 0 && ba > 0
    requires y * qb <= bb * x && z * ba <= qa * y && qa * bb <= qb * ba
    ensures z <= x
  {
    calc {
      z * (ba * bb);
      ==
      (z * ba) * bb;
      <= { MulMonotone(z * ba, qa * y, bb); }
      (qa * y) * bb;
      ==
      (qa * bb) * y;
      <= { MulMonotone(qa * bb, qb * ba, y); }
      (qb * ba) * y;
      ==
      (y * qb) * ba;
      <= { MulMonotone(y * qb, bb * x, ba); }
      (bb * x) * ba;
      ==
      x * (ba * bb);
    }
    MulCancel(z, x, ba * bb);
  }
}
