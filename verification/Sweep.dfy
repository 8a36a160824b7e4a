/** The on-chain loops over the ladder: the order check and the two sweeps. */
module Sweep {
  import opened Common
  import opened Ladder

  datatype Ordering = Less | Equal | Greater

  function Compare(x: u128, y: u128): Ordering {
    if x < y then Less else if x == y then Equal else Greater
  }

  /** A product of two u64 values always fits u128. */
  lemma ProductFitsU128(x: u64, y: u64)
    ensures 0 <= x * y < 0x1_0000_0000_0000_0000_0000_0000_0000_0000
  {
    MulMonotone(x, U64_MAX, y);
    MulMonotone(y, U64_MAX, U64_MAX);
  }

  /** A level between two others in an ordered ladder has both fields positive, so order is transitive through it. */
  lemma BetterTransitive(side: Side, a: Level, m: Level, b: Level)
    requires Better(side, a, m) && Better(side, m, b)
    ensures !Degenerate(m) && Better(side, a, b)
  {
    StrictProduct(In(side, a), Out(side, m), In(side, m), Out(side, a));
    StrictProduct(In(side, m), Out(side, b), In(side, b), Out(side, m));
    Chain(In(side, a), Out(side, a), In(side, m), Out(side, m), In(side, b), Out(side, b));
  }

  lemma StrictProduct(p: nat, q: nat, r: nat, s: nat)
    requires p * q < r * s
    ensures r > 0 && s > 0
  {
    assert p * q >= 0;
  }

  lemma Chain(ia: nat, oa: nat, im: nat, om: nat, ib: nat, ob: nat)
    requires ia * om < im * oa && im * ob < ib * om
    requires im > 0 && om > 0 && oa > 0
    ensures ia * ob < ib * oa
  {
    calc {
      (ia * ob) * om;
      ==
      (ia * om) * ob;
      <= { MulMonotone(ia * om, im * oa, ob); }
      (im * oa) * ob;
      ==
      (im * ob) * oa;
      < { MulMonotone(im * ob, ib * om, oa); }
      (ib * om) * oa;
      ==
      (ib * oa) * om;
    }
    MulCancel(ia * ob, ib * oa, om);
  }

  /** Neighbouring order is global order, zero fields included. */
  lemma {:induction false} AdjacentIsGlobal(side: Side, levels: seq<Level>)
    ensures Sorted(side, levels) <==>
            forall i :: 0 <= i < |levels| - 1 ==> Better(side, levels[i], levels[i + 1])
  {
    if forall i :: 0 <= i < |levels| - 1 ==> Better(side, levels[i], levels[i + 1]) {
      forall i, j | 0 <= i < j < |levels|
        ensures Better(side, levels[i], levels[j])
      {
        AdjacentReaches(side, levels, i, j);
      }
    }
  }

  lemma {:induction false} AdjacentReaches(side: Side, levels: seq<Level>, i: nat, j: nat)
    requires forall k :: 0 <= k < |levels| - 1 ==> Better(side, levels[k], levels[k + 1])
    requires i < j < |levels|
    ensures Better(side, levels[i], levels[j])
    decreases j - i
  {
    assert Better(side, levels[j - 1], levels[j - 1 + 1]);
    if i < j - 1 {
      AdjacentReaches(side, levels, i, j - 1);
      BetterTransitive(side, levels[i], levels[j - 1], levels[j]);
    }
  }

  /** Acceptance leaves only the outer fields of the two end levels free to be zero. */
  lemma InteriorNonDegenerate(side: Side, levels: seq<Level>, i: nat)
    requires Sorted(side, levels) && i < |levels|
    ensures i + 1 < |levels| ==> Out(side, levels[i]) > 0
    ensures 0 < i ==> In(side, levels[i]) > 0
    ensures 0 < i < |levels| - 1 ==> !Degenerate(levels[i])
  {
    if i + 1 < |levels| {
      assert Better(side, levels[i], levels[i + 1]);
      StrictProduct(In(side, levels[i]), Out(side, levels[i + 1]), In(side, levels[i + 1]), Out(side, levels[i]));
    }
    if 0 < i {
      assert Better(side, levels[i - 1], levels[i]);
      StrictProduct(In(side, levels[i - 1]), Out(side, levels[i]), In(side, levels[i]), Out(side, levels[i - 1]));
    }
  }

  /** How the implied prices of two neighbouring levels compare, by cross product. */
  ghost function PriceOrder(a: Level, b: Level): Ordering {
    if a.quote * b.base < b.quote * a.base then Less
    else if a.quote * b.base == b.quote * a.base then Equal
    else Greater
  }

  ghost predicate NeighboursCompare(levels: seq<Level>, expected: Ordering) {
    forall i :: 0 <= i < |levels| - 1 ==> PriceOrder(levels[i], levels[i + 1]) == expected
  }

  /** Strictly ascending prices are the order of a Bid ladder, strictly descending ones that of an Ask ladder. */
  lemma NeighboursOrdered(side: Side, levels: seq<Level>)
    ensures NeighboursCompare(levels, if side == Bid then Less else Greater) <==> Sorted(side, levels)
  {
    AdjacentIsGlobal(side, levels);
    forall i | 0 <= i < |levels| - 1
      ensures PriceOrder(levels[i], levels[i + 1]) == (if side == Bid then Less else Greater)
              <==> Better(side, levels[i], levels[i + 1])
    {
      PriceOrderIsBetter(side, levels[i], levels[i + 1]);
    }
  }

  lemma PriceOrderIsBetter(side: Side, a: Level, b: Level)
    ensures PriceOrder(a, b) == (if side == Bid then Less else Greater) <==> Better(side, a, b)
  {
    assert a.base * b.quote == b.quote * a.base;
    assert b.base * a.quote == a.quote * b.base;
  }

  method AssertSorted(levels: seq<Level>, expected: Ordering) returns (r: Result<(), ErrorCode>)
    ensures r == if NeighboursCompare(levels, expected) then Ok(()) else Err(InvalidLevelOrdering)
  {
    var i := 0;
    while i + 1 < |levels|
      invariant i == 0 || i < |levels|
      invariant forall k :: 0 <= k < i ==> PriceOrder(levels[k], levels[k + 1]) == expected
    {
      ProductFitsU128(levels[i].quote, levels[i + 1].base);
      ProductFitsU128(levels[i + 1].quote, levels[i].base);
      var lhs: u128 := levels[i].quote * levels[i + 1].base;
      var rhs: u128 := levels[i + 1].quote * levels[i].base;
      if Compare(lhs, rhs) != expected {
        return Err(InvalidLevelOrdering);
      }
      i := i + 1;
    }
    r := Ok(());
  }

  method AssertSortedBid(levels: seq<Level>) returns (r: Result<(), ErrorCode>)
    ensures r == if Sorted(Bid, levels) then Ok(()) else Err(InvalidLevelOrdering)
  {
    NeighboursOrdered(Bid, levels);
    r := AssertSorted(levels, Less);
  }

  method AssertSortedAsk(levels: seq<Level>) returns (r: Result<(), ErrorCode>)
    ensures r == if Sorted(Ask, levels) then Ok(()) else Err(InvalidLevelOrdering)
  {
    NeighboursOrdered(Ask, levels);
    r := AssertSorted(levels, Greater);
  }

  lemma DivBelow(x: nat, o: nat, i: nat)
    requires x < i && o > 0
    ensures FloorDiv(x * o, i) < o
  {
    MulMonotone(x, i, o);
    FloorBracket(x * o, i);
    MulCancel(FloorDiv(x * o, i), o, i);
  }

  /** An amount below the level's own input yields less than the level's own output: it always fits u64. */
  lemma PartialBelowLevel(side: Side, x: u64, l: Level)
    requires !Degenerate(l) && x < In(side, l)
    ensures Partial(side, x, l) < Out(side, l)
  {
    DivBelow(x, Out(side, l), In(side, l));
  }

  method SweepBid(amountIn: u64, minOut: u64, levels: seq<Level>) returns (r: Result<u64, ErrorCode>)
    ensures r == Ladder.Sweep(Bid, amountIn, minOut, levels)
  {
    var remaining: u64 := amountIn;
    var out: u64 := 0;
    var i := 0;
    while i < |levels|
      invariant 0 <= i <= |levels|
      invariant Walk(Bid, amountIn, 0, levels) == Walk(Bid, remaining, out, levels[i..])
    {
      if remaining == 0 {
        break;
      }
      var level := levels[i];
      assert levels[i..][0] == level && levels[i..][1..] == levels[i + 1..];
      if !(level.base > 0 && level.quote > 0) {
        return Err(DegenerateLevelEntry);
      }
      if remaining >= level.quote {
        remaining := remaining - level.quote;
        if out + level.base > U64_MAX {
          return Err(Overflow);
        }
        out := out + level.base;
      } else {
        ProductFitsU128(remaining, level.base);
        PartialBelowLevel(Bid, remaining, level);
        var partial: u64 := FloorDiv(remaining * level.base, level.quote);
        if partial == 0 {
          return Err(InsufficientLiquidity);
        }
        if out + partial > U64_MAX {
          return Err(Overflow);
        }
        out := out + partial;
        remaining := 0;
        break;
      }
      i := i + 1;
    }
    if remaining != 0 {
      return Err(InsufficientLiquidity);
    }
    if out < minOut {
      return Err(SlippageExceeded);
    }
    r := Ok(out);
  }

  method SweepAsk(amountIn: u64, minOut: u64, levels: seq<Level>) returns (r: Result<u64, ErrorCode>)
    ensures r == Ladder.Sweep(Ask, amountIn, minOut, levels)
  {
    var remaining: u64 := amountIn;
    var out: u64 := 0;
    var i := 0;
    while i < |levels|
      invariant 0 <= i <= |levels|
      invariant Walk(Ask, amountIn, 0, levels) == Walk(Ask, remaining, out, levels[i..])
    {
      if remaining == 0 {
        break;
      }
      var level := levels[i];
      assert levels[i..][0] == level && levels[i..][1..] == levels[i + 1..];
      if !(level.base > 0 && level.quote > 0) {
        return Err(DegenerateLevelEntry);
      }
      if remaining >= level.base {
        remaining := remaining - level.base;
        if out + level.quote > U64_MAX {
          return Err(Overflow);
        }
        out := out + level.quote;
      } else {
        ProductFitsU128(remaining, level.quote);
        PartialBelowLevel(Ask, remaining, level);
        var partial: u64 := FloorDiv(remaining * level.quote, level.base);
        if partial == 0 {
          return Err(InsufficientLiquidity);
        }
        if out + partial > U64_MAX {
          return Err(Overflow);
        }
        out := out + partial;
        remaining := 0;
        break;
      }
      i := i + 1;
    }
    if remaining != 0 {
      return Err(InsufficientLiquidity);
    }
    if out < minOut {
      return Err(SlippageExceeded);
    }
    r := Ok(out);
  }
}
