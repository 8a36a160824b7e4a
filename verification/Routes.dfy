/**
  Aggregator swap arguments: a vector of routes whose entries have different, tag-determined
  bodies. Only the RFQ body is kept; every other body is skipped over exactly.
 */
module Routes {
  import opened Common
  import opened Bytes

  datatype Dex = SolRfqV2(side: byte, rfqId: u64, expireAt: i64, levels: seq<Level>) | Other(tag: byte)

  datatype Route = Route(dex: Dex, weight: u16, index: byte)

  datatype SwapArgs = SwapArgs(orderId: u64, amountIn: u64, expectAmountOut: u64, slippage: u16, routes: seq<Route>)

  datatype EntrypointKind = Concrete | TokenLedger | Unsupported

  datatype AnySwapArgs = ConcreteArgs(args: SwapArgs) | TokenLedgerArgs(tokenLedgerRoutes: seq<Route>) | UnsupportedArgs

  datatype DecodedFill = DecodedFill(side: Side, rfqId: u64, expireAt: i64, levels: seq<Level>)

  const RFQ_TAG: byte := 117

  /** How the body behind a tag is laid out. */
  datatype Layout = Fixed(size: nat) | AccountsThenByte | ByteString | DynamicRoute | Rfq | Undeclared

  function LayoutOf(tag: byte): Layout {
    if tag in {23, 24, 34, 35} then Fixed(1)
    else if tag == 64 then Fixed(50)
    else if tag in {74, 75} then Fixed(2)
    else if tag == 81 then Fixed(8)
    else if tag == 82 then Fixed(16)
    else if tag == 100 then Fixed(8)
    else if tag == 103 then Fixed(16)
    else if tag in {104, 120} then Fixed(99)
    else if tag == RFQ_TAG then Rfq
    else if tag == 118 then Fixed(8)
    else if tag == 119 then AccountsThenByte
    else if tag in {121, 125, 138} then Fixed(1)
    else if tag == 126 then DynamicRoute
    else if tag == 132 then Fixed(40)
    else if tag == 133 then ByteString
    else if tag == 134 then Fixed(96)
    else if tag <= 140 then Fixed(0)
    else Undeclared
  }

  function CandidateSize(tag: byte): nat
    requires tag <= 17
  {
    if tag in {3, 14} then 8
    else if tag in {5, 16} then 16
    else if tag == 10 then 99
    else if tag == 15 then 96
    else 0
  }

  // ---------------------------------------------------------------- readers

  /** What is left after skipping, or the error met. */
  type Skipped = Result<bytes, WireError>

  function Skip(n: nat, s: bytes): Skipped {
    if |s| < n then Err(Truncated) else Ok(s[n..])
  }

  function SkipAccounts(s: bytes): Skipped {
    var (count, rest) :- ReadLE(4, s);
    Skip(2 * count, rest)
  }

  function SkipByteString(s: bytes): Skipped {
    var (len, rest) :- ReadLE(4, s);
    Skip(len, rest)
  }

  function SkipCandidates(n: nat, s: bytes): Skipped {
    if n == 0 then Ok(s)
    else
      var (tag, body) :- ReadByte(s);
      if tag > 17 then Err(WireError.Other(InvalidTag))
      else
        var rest :- Skip(CandidateSize(tag), body);
        SkipCandidates(n - 1, rest)
  }

  function SkipMode(s: bytes): Skipped {
    var (mode, rest) :- ReadByte(s);
    if mode == 1 || mode == 2 then Skip(1, rest)
    else if mode != 0 then Err(WireError.Other(InvalidTag))
    else Ok(rest)
  }

  function SkipDynamicRoute(s: bytes): Skipped {
    var (count, s1) :- ReadLE(4, s);
    var s2 :- SkipCandidates(count, s1);
    SkipMode(s2)
  }

  function ReadU16(s: bytes): Parsed<u16> {
    if |s| < 2 then Err(Truncated)
    else
      Widths();
      FromLEInverse(s[..2]);
      Ok((FromLE(s[..2]), s[2..]))
  }

  function ReadU64(s: bytes): Parsed<u64> {
    if |s| < 8 then Err(Truncated)
    else
      Widths();
      FromLEInverse(s[..8]);
      Ok((FromLE(s[..8]), s[8..]))
  }

  /** Two's complement. */
  function Signed(v: u64): i64 {
    if v >= 0x8000_0000_0000_0000 then v - 0x1_0000_0000_0000_0000 else v
  }

  function ReadI64(s: bytes): Parsed<i64> {
    var (v, rest) :- ReadU64(s);
    Ok((Signed(v), rest))
  }

  function ReadLevel(s: bytes): Parsed<Level> {
    var (base, s1) :- ReadU64(s);
    var (quote, s2) :- ReadU64(s1);
    Ok((Level(base, quote), s2))
  }

  function ReadLevels(s: bytes): Parsed<seq<Level>> {
    var (n, rest) :- ReadLE(4, s);
    Many(ReadLevel, n, rest)
  }

  function ReadRfq(s: bytes): Parsed<Dex> {
    var (side, s1) :- ReadByte(s);
    var (rfqId, s2) :- ReadU64(s1);
    var (expireAt, s3) :- ReadI64(s2);
    var (levels, s4) :- ReadLevels(s3);
    Ok((SolRfqV2(side, rfqId, expireAt, levels), s4))
  }

  function SkipBody(tag: byte, s: bytes): Skipped
    requires LayoutOf(tag) != Rfq
  {
    match LayoutOf(tag)
    case Fixed(n) => Skip(n, s)
    case AccountsThenByte => var rest :- SkipAccounts(s); Skip(1, rest)
    case ByteString => SkipByteString(s)
    case DynamicRoute => SkipDynamicRoute(s)
    case Undeclared => Err(WireError.Other(InvalidTag))
  }

  function ReadDex(s: bytes): Parsed<Dex> {
    var (tag, body) :- ReadByte(s);
    if tag == RFQ_TAG then ReadRfq(body)
    else
      var rest :- SkipBody(tag, body);
      Ok((Dex.Other(tag), rest))
  }

  function ReadRoute(s: bytes): Parsed<Route> {
    var (dex, s1) :- ReadDex(s);
    var (weight, s2) :- ReadU16(s1);
    var (index, s3) :- ReadByte(s2);
    Ok((Route(dex, weight, index), s3))
  }

  function ReadRoutes(s: bytes): Parsed<seq<Route>> {
    var (n, rest) :- ReadLE(4, s);
    Many(ReadRoute, n, rest)
  }

  function ReadSwapArgs(s: bytes): Parsed<SwapArgs> {
    var (orderId, s1) :- ReadU64(s);
    var (amountIn, s2) :- ReadU64(s1);
    var (expectAmountOut, s3) :- ReadU64(s2);
    var (slippage, s4) :- ReadU16(s3);
    var (routes, s5) :- ReadRoutes(s4);
    Ok((SwapArgs(orderId, amountIn, expectAmountOut, slippage, routes), s5))
  }

  // ---------------------------------------------------------------- entrypoints

  /** The `swap`, `proxy_swap`, `swap_toc`, `swap_toc_v2` and `swap_toc_v3` discriminators. */
  const CONCRETE: set<bytes> := {
    [248, 198, 158, 145, 225, 117, 135, 200],
    [19, 44, 130, 148, 72, 56, 44, 238],
    [187, 201, 212, 51, 16, 155, 236, 60],
    [127, 214, 107, 189, 23, 90, 47, 104],
    [86, 222, 68, 49, 225, 9, 201, 235]
  }

  /** The whole `swap_tob` family. */
  const UNSUPPORTED: set<bytes> := {
    [170, 41, 85, 177, 132, 80, 31, 53],
    [72, 1, 215, 242, 8, 75, 54, 216],
    [14, 191, 44, 246, 142, 225, 224, 157],
    [223, 170, 216, 234, 204, 6, 241, 25],
    [26, 190, 234, 223, 241, 5, 177, 189],
    [36, 92, 147, 219, 26, 176, 159, 90],
    [132, 77, 6, 86, 35, 66, 224, 171],
    [239, 93, 10, 202, 161, 134, 127, 130],
    [119, 172, 209, 16, 91, 44, 63, 224],
    [190, 156, 169, 176, 149, 154, 161, 108]
  }

  function DecodeSwapArgs(data: bytes): Option<AnySwapArgs> {
    if |data| < 8 then None
    else if data[..8] in CONCRETE then
      match ReadSwapArgs(data[8..])
      case Ok(p) => Some(ConcreteArgs(p.0))
      case Err(_) => None
    else if data[..8] in UNSUPPORTED then Some(UnsupportedArgs)
    else None
  }

  function RoutesOf(a: AnySwapArgs): seq<Route> {
    match a
    case ConcreteArgs(args) => args.routes
    case TokenLedgerArgs(routes) => routes
    case UnsupportedArgs => []
  }

  function KindOf(a: AnySwapArgs): EntrypointKind {
    match a
    case ConcreteArgs(_) => Concrete
    case TokenLedgerArgs(_) => TokenLedger
    case UnsupportedArgs => Unsupported
  }

  function SideOf(b: byte): Option<Side> {
    if b == 0 then Some(Bid) else if b == 1 then Some(Ask) else None
  }

  function FillOf(d: Dex): Option<DecodedFill> {
    match d
    case SolRfqV2(side, rfqId, expireAt, levels) =>
      (match SideOf(side)
       case Some(s) => Some(DecodedFill(s, rfqId, expireAt, levels))
       case None => None)
    case Other(_) => None
  }

  function FillsOf(routes: seq<Route>): seq<DecodedFill> {
    if routes == [] then []
    else
      (match FillOf(routes[0].dex)
       case Some(f) => [f]
       case None => []) + FillsOf(routes[1..])
  }

  function DecodeLegs(data: bytes): (Option<EntrypointKind>, seq<DecodedFill>) {
    match DecodeSwapArgs(data)
    case None => (None, [])
    case Some(args) => (Some(KindOf(args)), FillsOf(RoutesOf(args)))
  }
}
