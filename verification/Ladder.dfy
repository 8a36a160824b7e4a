/**
  The price-ladder sweep as functions: what one walk over the levels yields and which error it
  raises. `In` is the amount a level takes from the taker and `Out` the amount it pays, so a Bid
  and an Ask are read off the same definitions. The loops that compute them are in `Sweep`.
 */
module Ladder {
  import opened Common

  datatype ErrorCode =
    | Overflow
    | InsufficientLiquidity
    | StaleOrderbook
    | InvalidLevelOrdering
    | EmptyLevels
    | MakerAppearsInOtherInstruction
    | ZeroAmountIn
    | DegenerateLevelEntry
    | UnsupportedMintExtension
    | SlippageExceeded

  function In(side: Side, l: Level): u64 {
    if side == Bid then l.quote else l.base
  }

  function Out(side: Side, l: Level): u64 {
    if side == Bid then l.base else l.quote
  }

  predicate Degenerate(l: Level) {
    l.base == 0 || l.quote == 0
  }

  /** Level `a` pays strictly more output per unit of input than level `b`, without division. */
  predicate Better(side: Side, a: Level, b: Level) {
    In(side, a) * Out(side, b) < In(side, b) * Out(side, a)
  }

  /** Every earlier level is strictly better than every later one. */
  predicate Sorted(side: Side, levels: seq<Level>) {
    forall i, j :: 0 <= i < j < |levels| ==> Better(side, levels[i], levels[j])
  }

  /** The output of `x` input atoms inside one level, rounded down. */
  function Partial(side: Side, x: u64, l: Level): nat
    requires !Degenerate(l)
  {
    FloorDiv(x * Out(side, l), In(side, l))
  }

  function Walk(side: Side, remaining: u64, out: u64, levels: seq<Level>): Result<u64, ErrorCode> {
    if remaining == 0 then Ok(out)
    else if levels == [] then Err(InsufficientLiquidity)
    else if Degenerate(levels[0]) then Err(DegenerateLevelEntry)
    else if remaining >= In(side, levels[0]) then
      if out + Out(side, levels[0]) > U64_MAX then Err(Overflow)
      else Walk(side, remaining - In(side, levels[0]), out + Out(side, levels[0]), levels[1..])
    else
      var partial := Partial(side, remaining, levels[0]);
      if partial == 0 then Err(InsufficientLiquidity)
      else if out + partial > U64_MAX then Err(Overflow)
      else Ok(out + partial)
  }

  function Sweep(side: Side, amountIn: u64, minOut: u64, levels: seq<Level>): Result<u64, ErrorCode> {
    var out :- Walk(side, amountIn, 0, levels);
    if out < minOut then Err(SlippageExceeded) else Ok(out)
  }
}
