/** Route decoding as it runs: a reader advanced in place by counted loops. */
module RouteReader {
  import opened Common
  import opened Bytes
  import opened Routes
  import opened WireParser

  /** A skipping method stopped where `spec` says, or failed as it does. */
  ghost predicate Skips(r: Result<(), WireError>, spec: Skipped, rest: bytes) {
    match spec
    case Ok(s) => r == Ok(()) && rest == s
    case Err(e) => r == Err(e)
  }

  method ReadUnsigned(c: Cursor, n: nat) returns (r: Result<nat, WireError>)
    requires c.Valid()
    modifies c`pos
    ensures c.Valid() && Agrees(r, ReadLE(n, old(c.Rest())), c.Rest())
  {
    var b :- c.ReadInto(n);
    r := Ok(FromLE(b));
  }

  /** Reads and drops `len` bytes through a 64-byte buffer. */
  method SkipExact(c: Cursor, len: nat) returns (r: Result<(), WireError>)
    requires c.Valid()
    modifies c`pos
    ensures c.Valid() && Skips(r, Skip(len, old(c.Rest())), c.Rest())
  {
    var remaining := len;
    while remaining != 0
      invariant c.Valid()
      invariant Skip(len, old(c.Rest())) == Skip(remaining, c.Rest())
    {
      var take := if remaining < 64 then remaining else 64;
      var _ :- c.ReadInto(take);
      remaining := remaining - take;
    }
    r := Ok(());
  }

  method SkipRemainingAccountsInfo(c: Cursor) returns (r: Result<(), WireError>)
    requires c.Valid()
    modifies c`pos
    ensures c.Valid() && Skips(r, SkipAccounts(old(c.Rest())), c.Rest())
  {
    var count :- ReadUnsigned(c, 4);
    for i := 0 to count
      invariant c.Valid()
      invariant SkipAccounts(old(c.Rest())) == Skip(2 * (count - i), c.Rest())
    {
      var _ :- SkipExact(c, 2);
    }
    r := Ok(());
  }

  method SkipBorshBytes(c: Cursor) returns (r: Result<(), WireError>)
    requires c.Valid()
    modifies c`pos
    ensures c.Valid() && Skips(r, SkipByteString(old(c.Rest())), c.Rest())
  {
    var len :- ReadUnsigned(c, 4);
    r := SkipExact(c, len);
  }

  method SkipCandidateList(c: Cursor, count: nat) returns (r: Result<(), WireError>)
    requires c.Valid()
    modifies c`pos
    ensures c.Valid() && Skips(r, SkipCandidates(count, old(c.Rest())), c.Rest())
  {
    for i := 0 to count
      invariant c.Valid()
      invariant SkipCandidates(count, old(c.Rest())) == SkipCandidates(count - i, c.Rest())
    {
      var candidate :- c.ReadByte();
      if candidate > 17 {
        return Err(WireError.Other(InvalidTag));
      }
      var _ :- SkipExact(c, CandidateSize(candidate));
    }
    r := Ok(());
  }

  method SkipSelectionMode(c: Cursor) returns (r: Result<(), WireError>)
    requires c.Valid()
    modifies c`pos
    ensures c.Valid() && Skips(r, SkipMode(old(c.Rest())), c.Rest())
  {
    var mode :- c.ReadByte();
    if mode == 1 || mode == 2 {
      var _ :- SkipExact(c, 1);
    } else if mode != 0 {
      return Err(WireError.Other(InvalidTag));
    }
    r := Ok(());
  }

  method SkipDynamicRouteSpec(c: Cursor) returns (r: Result<(), WireError>)
    requires c.Valid()
    modifies c`pos
    ensures c.Valid() && Skips(r, SkipDynamicRoute(old(c.Rest())), c.Rest())
  {
    var count :- ReadUnsigned(c, 4);
    var _ :- SkipCandidateList(c, count);
    r := SkipSelectionMode(c);
  }

  method ReadU64(c: Cursor) returns (r: Result<u64, WireError>)
    requires c.Valid()
    modifies c`pos
    ensures c.Valid() && Agrees(r, Routes.ReadU64(old(c.Rest())), c.Rest())
  {
    var b :- c.ReadInto(8);
    Widths();
    FromLEInverse(b);
    r := Ok(FromLE(b));
  }

  method ReadU16(c: Cursor) returns (r: Result<u16, WireError>)
    requires c.Valid()
    modifies c`pos
    ensures c.Valid() && Agrees(r, Routes.ReadU16(old(c.Rest())), c.Rest())
  {
    var b :- c.ReadInto(2);
    Widths();
    FromLEInverse(b);
    r := Ok(FromLE(b));
  }

  method ReadLevel(c: Cursor) returns (r: Result<Level, WireError>)
    requires c.Valid()
    modifies c`pos
    ensures c.Valid() && Agrees(r, Routes.ReadLevel(old(c.Rest())), c.Rest())
  {
    var base :- ReadU64(c);
    var quote :- ReadU64(c);
    r := Ok(Level(base, quote));
  }

  method ReadLevels(c: Cursor) returns (r: Result<seq<Level>, WireError>)
    requires c.Valid()
    modifies c`pos
    ensures c.Valid() && Agrees(r, Routes.ReadLevels(old(c.Rest())), c.Rest())
  {
    var n :- ReadUnsigned(c, 4);
    ghost var all := Many(Routes.ReadLevel, n, c.Rest());
    var levels: seq<Level> := [];
    ResumeIdentity(levels, c.Rest(), all);
    for i := 0 to n
      invariant c.Valid()
      invariant all == Resume(levels, Many(Routes.ReadLevel, n - i, c.Rest()))
    {
      ghost var s := c.Rest();
      var level := ReadLevel(c);
      ResumeStep(Routes.ReadLevel, levels, n - i, s, level, c.Rest());
      if level.Err? {
        return Err(level.error);
      }
      levels := levels + [level.value];
    }
    ResumeIdentity(levels, c.Rest(), all);
    r := Ok(levels);
  }

  /** One tagged entry of the route graph. */
  method DeserializeDex(c: Cursor) returns (r: Result<Dex, WireError>)
    requires c.Valid()
    modifies c`pos
    ensures c.Valid() && Agrees(r, ReadDex(old(c.Rest())), c.Rest())
  {
    hide SkipAccounts, SkipByteString, SkipDynamicRoute, Skip, Routes.ReadU64, Routes.ReadLevels;
    var tag :- c.ReadByte();
    match LayoutOf(tag) {
      case Fixed(n) =>
        var _ :- SkipExact(c, n);
      case AccountsThenByte =>
        var _ :- SkipRemainingAccountsInfo(c);
        var _ :- SkipExact(c, 1);
      case ByteString =>
        var _ :- SkipBorshBytes(c);
      case DynamicRoute =>
        var _ :- SkipDynamicRouteSpec(c);
      case Rfq =>
        var side :- c.ReadByte();
        var rfqId :- ReadU64(c);
        var expireAt :- ReadU64(c);
        var levels :- ReadLevels(c);
        return Ok(SolRfqV2(side, rfqId, Signed(expireAt), levels));
      case Undeclared =>
        return Err(WireError.Other(InvalidTag));
    }
    r := Ok(Dex.Other(tag));
  }

  method ReadRoute(c: Cursor) returns (r: Result<Route, WireError>)
    requires c.Valid()
    modifies c`pos
    ensures c.Valid() && Agrees(r, Routes.ReadRoute(old(c.Rest())), c.Rest())
  {
    var dex :- DeserializeDex(c);
    var weight :- ReadU16(c);
    var index :- c.ReadByte();
    r := Ok(Route(dex, weight, index));
  }

  method ReadRouteList(c: Cursor, n: nat) returns (r: Result<seq<Route>, WireError>)
    requires c.Valid()
    modifies c`pos
    ensures c.Valid() && Agrees(r, Many(Routes.ReadRoute, n, old(c.Rest())), c.Rest())
  {
    hide Routes.ReadRoute;
    ghost var p := Routes.ReadRoute;
    ghost var all := Many(p, n, c.Rest());
    var routes: seq<Route> := [];
    ResumeIdentity(routes, c.Rest(), all);
    for i := 0 to n
      invariant c.Valid()
      invariant all == Resume(routes, Many(p, n - i, c.Rest()))
    {
      ghost var s := c.Rest();
      var route := ReadRoute(c);
      ResumeStep(p, routes, n - i, s, route, c.Rest());
      if route.Err? {
        return Err(route.error);
      }
      routes := routes + [route.value];
    }
    ResumeIdentity(routes, c.Rest(), all);
    r := Ok(routes);
  }

  method ReadRoutes(c: Cursor) returns (r: Result<seq<Route>, WireError>)
    requires c.Valid()
    modifies c`pos
    ensures c.Valid() && Agrees(r, Routes.ReadRoutes(old(c.Rest())), c.Rest())
  {
    var n :- ReadUnsigned(c, 4);
    r := ReadRouteList(c, n);
  }

  method ReadSwapArgs(c: Cursor) returns (r: Result<SwapArgs, WireError>)
    requires c.Valid()
    modifies c`pos
    ensures c.Valid() && Agrees(r, Routes.ReadSwapArgs(old(c.Rest())), c.Rest())
  {
    var orderId :- ReadU64(c);
    var amountIn :- ReadU64(c);
    var expectAmountOut :- ReadU64(c);
    var slippage :- ReadU16(c);
    var routes :- ReadRoutes(c);
    r := Ok(SwapArgs(orderId, amountIn, expectAmountOut, slippage, routes));
  }

  method DecodeSwapArgs(data: bytes) returns (r: Option<AnySwapArgs>)
    ensures r == Routes.DecodeSwapArgs(data)
  {
    if |data| < 8 {
      return None;
    }
    if data[..8] in CONCRETE {
      var c := new Cursor(data[8..]);
      var args := ReadSwapArgs(c);
      return if args.Ok? then Some(ConcreteArgs(args.value)) else None;
    }
    if data[..8] in UNSUPPORTED {
      return Some(UnsupportedArgs);
    }
    r := None;
  }
}
