/**
  Route decoding never loses its place. The grammar below prints each route entry with its own
  body; decoding consumes exactly what was printed, keeps the RFQ legs, and accepts nothing else.
 */
module RouteTheorems {
  import opened Common
  import opened Bytes
  import opened Routes
  import opened WireTheorems

  datatype Candidate = Candidate(tag: byte, fields: seq<bytes>)

  datatype Mode = Mode(tag: byte, argument: bytes)

  /** One entry as it stands on the wire, with the body its tag calls for. */
  datatype WireDex =
    | RfqBody(side: byte, rfqId: u64, expireAt: i64, levels: seq<Level>)
    | FixedBody(tag: byte, fields: seq<bytes>)
    | AccountsBody(slices: bytes, last: byte)
    | StringBody(content: bytes)
    | DynamicBody(candidates: seq<Candidate>, mode: Mode)

  datatype WireRoute = WireRoute(dex: WireDex, weight: u16, index: byte)

  datatype WireArgs = WireArgs(orderId: u64, amountIn: u64, expectAmountOut: u64, slippage: u16, routes: seq<WireRoute>)

  const U32_COUNT := 0x1_0000_0000

  // ---------------------------------------------------------------- declared fields

  const U8 := 1
  const U16 := 2
  const U64 := 8
  const U128 := 16

  /** A payload signed by the maker: four u64 and a u16, a signature and its recovery id. */
  const SIGNED_QUOTE: seq<nat> := [U64, U64, U64, U16, U64, 64, U8]

  /** A router call: two u64, a 32-byte seed, 16 bytes of token and a key. */
  const ROUTER_CALL: seq<nat> := [U64, U64, 32, 16, 32]

  /** Widths of the fields an entry declares behind its tag, unless a count or the RFQ body follows. */
  function DeclaredFields(tag: byte): Option<seq<nat>> {
    match tag
    case 23 => Some([U8])
    case 24 => Some([U8])
    case 34 => Some([U8])
    case 35 => Some([U8])
    case 64 => Some([U64, U64, U64, U64, U64, U64, U8, U8])
    case 74 => Some([U8, U8])
    case 75 => Some([U8, U8])
    case 81 => Some([U64])
    case 82 => Some([U128])
    case 100 => Some([U64])
    case 103 => Some([U64, U64])
    case 104 => Some(SIGNED_QUOTE)
    case 117 => None
    case 118 => Some([U64])
    case 119 => None
    case 120 => Some(SIGNED_QUOTE)
    case 121 => Some([U8])
    case 125 => Some([U8])
    case 126 => None
    case 132 => Some([40])
    case 133 => None
    case 134 => Some(ROUTER_CALL)
    case 138 => Some([U8])
    case other => if other <= 140 then Some([]) else None
  }

  function CandidateFields(tag: byte): Option<seq<nat>> {
    match tag
    case 3 => Some([U64])
    case 5 => Some([U128])
    case 10 => Some(SIGNED_QUOTE)
    case 14 => Some([U64])
    case 15 => Some(ROUTER_CALL)
    case 16 => Some([U128])
    case other => if other <= 17 then Some([]) else None
  }

  /** One byte string for every declared field, each of its width. */
  predicate FieldsFit(fields: seq<bytes>, widths: seq<nat>) {
    |fields| == |widths| && forall i :: 0 <= i < |fields| ==> |fields[i]| == widths[i]
  }

  function Joined(fields: seq<bytes>): bytes {
    if fields == [] then [] else fields[0] + Joined(fields[1..])
  }

  function TotalWidth(widths: seq<nat>): nat {
    if widths == [] then 0 else widths[0] + TotalWidth(widths[1..])
  }

  lemma {:induction false} JoinedWidth(fields: seq<bytes>, widths: seq<nat>)
    requires FieldsFit(fields, widths)
    ensures |Joined(fields)| == TotalWidth(widths)
    decreases fields
  {
    if fields != [] {
      JoinedWidth(fields[1..], widths[1..]);
    }
  }

  lemma {:induction false} SplitFields(widths: seq<nat>, body: bytes) returns (fields: seq<bytes>)
    requires |body| == TotalWidth(widths)
    ensures FieldsFit(fields, widths) && Joined(fields) == body
    decreases widths
  {
    fields := [];
    if widths != [] {
      var tail := SplitFields(widths[1..], body[widths[0]..]);
      fields := [body[..widths[0]]] + tail;
      assert fields[1..] == tail;
    }
  }

  lemma TwoWidths(a: nat, b: nat, rest: seq<nat>)
    ensures TotalWidth([a, b] + rest) == a + b + TotalWidth(rest)
  {
    assert ([a, b] + rest)[1..] == [b] + rest && ([b] + rest)[1..] == rest;
  }

  lemma PayloadWidths()
    ensures TotalWidth(SIGNED_QUOTE) == 99
    ensures TotalWidth(ROUTER_CALL) == 96
    ensures TotalWidth([U64, U64, U64, U64, U64, U64, U8, U8]) == 50
  {
    TwoWidths(U64, U64, [U64, U16] + ([U64, 64] + [U8]));
    TwoWidths(U64, U16, [U64, 64] + [U8]);
    TwoWidths(U64, 64, [U8]);
    assert SIGNED_QUOTE == [U64, U64] + ([U64, U16] + ([U64, 64] + [U8]));
    TwoWidths(U64, U64, [32, 16] + [32]);
    TwoWidths(32, 16, [32]);
    assert ROUTER_CALL == [U64, U64] + ([32, 16] + [32]);
    TwoWidths(U64, U64, [U64, U64] + ([U64, U64] + [U8, U8]));
    TwoWidths(U64, U64, [U64, U64] + [U8, U8]);
    TwoWidths(U64, U64, [U8, U8]);
    assert [U64, U64, U64, U64, U64, U64, U8, U8] == [U64, U64] + ([U64, U64] + ([U64, U64] + [U8, U8]));
  }

  /** The declared fields of every tag add up to the bytes that are skipped for it. */
  lemma DeclaredIsSkipped(tag: byte)
    ensures match LayoutOf(tag)
            case Fixed(n) => DeclaredFields(tag).Some? && TotalWidth(DeclaredFields(tag).value) == n
            case _ => DeclaredFields(tag) == None
  {
    PayloadWidths();
    TwoWidths(U8, U8, []);
    TwoWidths(U64, U64, []);
    assert [U8, U8] + [] == [U8, U8] && [U64, U64] + [] == [U64, U64];
  }

  lemma CandidateIsSkipped(tag: byte)
    ensures tag <= 17 <==> CandidateFields(tag).Some?
    ensures tag <= 17 ==> TotalWidth(CandidateFields(tag).value) == CandidateSize(tag)
  {
    PayloadWidths();
  }

  predicate CandidateAllowed(c: Candidate) {
    CandidateFields(c.tag).Some? && FieldsFit(c.fields, CandidateFields(c.tag).value)
  }

  predicate ModeAllowed(m: Mode) {
    m.tag <= 2 && |m.argument| == if m.tag == 0 then 0 else 1
  }

  predicate DexAllowed(w: WireDex) {
    match w
    case RfqBody(_, _, _, levels) => |levels| < U32_COUNT
    case FixedBody(tag, fields) => DeclaredFields(tag).Some? && FieldsFit(fields, DeclaredFields(tag).value)
    case AccountsBody(slices, _) => |slices| % 2 == 0 && |slices| / 2 < U32_COUNT
    case StringBody(content) => |content| < U32_COUNT
    case DynamicBody(candidates, mode) =>
      && |candidates| < U32_COUNT
      && (forall i :: 0 <= i < |candidates| ==> CandidateAllowed(candidates[i]))
      && ModeAllowed(mode)
  }

  predicate ArgsAllowed(a: WireArgs) {
    |a.routes| < U32_COUNT && forall i :: 0 <= i < |a.routes| ==> DexAllowed(a.routes[i].dex)
  }

  // ---------------------------------------------------------------- printers

  function PutCandidate(c: Candidate, rest: bytes): bytes {
    PutByte(c.tag, Joined(c.fields) + rest)
  }

  function PutMode(m: Mode, rest: bytes): bytes {
    PutByte(m.tag, m.argument + rest)
  }

  function PutLevel(l: Level, rest: bytes): bytes {
    PutLE(l.base, 8, PutLE(l.quote, 8, rest))
  }

  function PutLevels(levels: seq<Level>, rest: bytes): bytes {
    PutLE(|levels|, 4, PutAll(PutLevel, levels, rest))
  }

  function TagOf(w: WireDex): byte {
    match w
    case RfqBody(_, _, _, _) => 117
    case FixedBody(tag, _) => tag
    case AccountsBody(_, _) => 119
    case StringBody(_) => 133
    case DynamicBody(_, _) => 126
  }

  function PutBody(w: WireDex, rest: bytes): bytes {
    match w
    case RfqBody(side, rfqId, expireAt, levels) =>
      PutByte(side, PutLE(rfqId, 8, PutLE(expireAt % 0x1_0000_0000_0000_0000, 8, PutLevels(levels, rest))))
    case FixedBody(_, fields) => Joined(fields) + rest
    case AccountsBody(slices, last) => PutLE(|slices| / 2, 4, slices + PutByte(last, rest))
    case StringBody(content) => PutLE(|content|, 4, content + rest)
    case DynamicBody(candidates, mode) => PutLE(|candidates|, 4, PutAll(PutCandidate, candidates, PutMode(mode, rest)))
  }

  function PutDex(w: WireDex, rest: bytes): bytes {
    PutByte(TagOf(w), PutBody(w, rest))
  }

  function PutRoute(w: WireRoute, rest: bytes): bytes {
    PutDex(w.dex, PutLE(w.weight, 2, PutByte(w.index, rest)))
  }

  function PutArgs(a: WireArgs, rest: bytes): bytes {
    PutLE(a.orderId, 8, PutLE(a.amountIn, 8, PutLE(a.expectAmountOut, 8, PutLE(a.slippage, 2,
      PutLE(|a.routes|, 4, PutAll(PutRoute, a.routes, rest))))))
  }

  /** What the decoder keeps of an entry. */
  function Meaning(w: WireDex): Dex {
    match w
    case RfqBody(side, rfqId, expireAt, levels) => SolRfqV2(side, rfqId, expireAt, levels)
    case FixedBody(_, _) => Dex.Other(TagOf(w))
    case AccountsBody(_, _) => Dex.Other(TagOf(w))
    case StringBody(_) => Dex.Other(TagOf(w))
    case DynamicBody(_, _) => Dex.Other(TagOf(w))
  }

  function Meanings(ws: seq<WireRoute>): seq<Route> {
    if ws == [] then []
    else [Route(Meaning(ws[0].dex), ws[0].weight, ws[0].index)] + Meanings(ws[1..])
  }

  /** The quote an entry carries: an RFQ entry with a valid side has one. */
  function QuotedLeg(w: WireDex): seq<DecodedFill> {
    match w
    case RfqBody(side, rfqId, expireAt, levels) =>
      if side == 0 then [DecodedFill(Bid, rfqId, expireAt, levels)]
      else if side == 1 then [DecodedFill(Ask, rfqId, expireAt, levels)]
      else []
    case FixedBody(_, _) => []
    case AccountsBody(_, _) => []
    case StringBody(_) => []
    case DynamicBody(_, _) => []
  }

  /** The quotes of a route list, in order: what the maker should be shown. */
  function QuotedLegs(ws: seq<WireRoute>): seq<DecodedFill> {
    if ws == [] then [] else QuotedLeg(ws[0].dex) + QuotedLegs(ws[1..])
  }

  // ---------------------------------------------------------------- integers and levels

  lemma SkipInverse(b: bytes, rest: bytes)
    ensures Skip(|b|, b + rest) == Ok(rest)
  {
    assert (b + rest)[|b|..] == rest;
  }

  lemma U64Complete(v: u64, rest: bytes)
    ensures ReadU64(PutLE(v, 8, rest)) == Ok((v, rest))
  {
    Widths();
    ReadLEComplete(v, 8, rest);
  }

  lemma U64Sound(s: bytes)
    requires ReadU64(s).Ok?
    ensures PutLE(ReadU64(s).value.0, 8, ReadU64(s).value.1) == s
  {
    ReadLESound(8, s);
  }

  lemma U16Complete(v: u16, rest: bytes)
    ensures ReadU16(PutLE(v, 2, rest)) == Ok((v, rest))
  {
    Widths();
    ReadLEComplete(v, 2, rest);
  }

  lemma U16Sound(s: bytes)
    requires ReadU16(s).Ok?
    ensures PutLE(ReadU16(s).value.0, 2, ReadU16(s).value.1) == s
  {
    ReadLESound(2, s);
  }

  lemma CountComplete(n: nat, rest: bytes)
    requires n < U32_COUNT
    ensures ReadLE(4, PutLE(n, 4, rest)) == Ok((n, rest))
  {
    Widths();
    ReadLEComplete(n, 4, rest);
  }

  lemma CountSound(s: bytes)
    requires ReadLE(4, s).Ok?
    ensures ReadLE(4, s).value.0 < U32_COUNT
    ensures PutLE(ReadLE(4, s).value.0, 4, ReadLE(4, s).value.1) == s
  {
    Widths();
    ReadLESound(4, s);
  }

  lemma LevelInverse()
    ensures Inverse(ReadLevel, PutLevel, Any<Level>)
  {
    forall s | ReadLevel(s).Ok?
      ensures PutLevel(ReadLevel(s).value.0, ReadLevel(s).value.1) == s
    {
      U64Sound(s);
      U64Sound(ReadU64(s).value.1);
    }
    forall l, r
      ensures ReadLevel(PutLevel(l, r)) == Ok((l, r))
    {
      U64Complete(l.quote, r);
      U64Complete(l.base, PutLE(l.quote, 8, r));
    }
  }

  lemma LevelsComplete(levels: seq<Level>, rest: bytes)
    requires |levels| < U32_COUNT
    ensures ReadLevels(PutLevels(levels, rest)) == Ok((levels, rest))
  {
    LevelInverse();
    CountComplete(|levels|, PutAll(PutLevel, levels, rest));
    ManyComplete(ReadLevel, PutLevel, Any<Level>, levels, rest);
  }

  lemma LevelsSound(s: bytes)
    requires ReadLevels(s).Ok?
    ensures |ReadLevels(s).value.0| < U32_COUNT
    ensures PutLevels(ReadLevels(s).value.0, ReadLevels(s).value.1) == s
  {
    LevelInverse();
    CountSound(s);
    ManySound(ReadLevel, PutLevel, Any<Level>, ReadLE(4, s).value.0, ReadLE(4, s).value.1);
  }

  // ---------------------------------------------------------------- dynamic route bodies

  lemma {:induction false} CandidatesComplete(cs: seq<Candidate>, rest: bytes)
    requires forall i :: 0 <= i < |cs| ==> CandidateAllowed(cs[i])
    ensures SkipCandidates(|cs|, PutAll(PutCandidate, cs, rest)) == Ok(rest)
    decreases cs
  {
    if cs != [] {
      var s := PutAll(PutCandidate, cs[1..], rest);
      CandidatesComplete(cs[1..], rest);
      assert CandidateAllowed(cs[0]);
      var body := Joined(cs[0].fields);
      CandidateIsSkipped(cs[0].tag);
      JoinedWidth(cs[0].fields, CandidateFields(cs[0].tag).value);
      SkipInverse(body, s);
      assert PutCandidate(cs[0], s)[1..] == body + s;
    }
  }

  lemma CandidateSound(n: nat, s: bytes) returns (c: Candidate, rest: bytes)
    requires n > 0 && SkipCandidates(n, s).Ok?
    ensures CandidateAllowed(c) && PutCandidate(c, rest) == s
    ensures SkipCandidates(n, s) == SkipCandidates(n - 1, rest)
  {
    var body := s[1..];
    var size := CandidateSize(s[0]);
    CandidateIsSkipped(s[0]);
    var fields := SplitFields(CandidateFields(s[0]).value, body[..size]);
    c := Candidate(s[0], fields);
    rest := body[size..];
    assert body == Joined(c.fields) + rest;
  }

  lemma {:induction false} CandidatesSound(n: nat, s: bytes) returns (cs: seq<Candidate>)
    requires SkipCandidates(n, s).Ok?
    ensures |cs| == n && forall i :: 0 <= i < |cs| ==> CandidateAllowed(cs[i])
    ensures PutAll(PutCandidate, cs, SkipCandidates(n, s).value) == s
    decreases n
  {
    hide PutCandidate, CandidateAllowed;
    if n == 0 {
      cs := [];
    } else {
      var c, rest := CandidateSound(n, s);
      hide SkipCandidates;
      var tail := CandidatesSound(n - 1, rest);
      cs := [c] + tail;
      assert cs[1..] == tail;
    }
  }

  lemma ModeComplete(m: Mode, rest: bytes)
    requires ModeAllowed(m)
    ensures SkipMode(PutMode(m, rest)) == Ok(rest)
  {
    assert PutMode(m, rest)[1..] == m.argument + rest;
    SkipInverse(m.argument, rest);
  }

  lemma ModeSound(s: bytes) returns (m: Mode)
    requires SkipMode(s).Ok?
    ensures ModeAllowed(m) && PutMode(m, SkipMode(s).value) == s
  {
    m := Mode(s[0], if s[0] == 0 then [] else [s[1]]);
    assert s == [s[0]] + (m.argument + SkipMode(s).value);
  }

  // ---------------------------------------------------------------- entries

  lemma RfqComplete(side: byte, rfqId: u64, expireAt: i64, levels: seq<Level>, rest: bytes)
    requires |levels| < U32_COUNT
    ensures ReadRfq(PutBody(RfqBody(side, rfqId, expireAt, levels), rest))
         == Ok((SolRfqV2(side, rfqId, expireAt, levels), rest))
  {
    var s3 := PutLevels(levels, rest);
    var s2 := PutLE(expireAt % 0x1_0000_0000_0000_0000, 8, s3);
    var s1 := PutLE(rfqId, 8, s2);
    LevelsComplete(levels, rest);
    U64Complete(expireAt % 0x1_0000_0000_0000_0000, s3);
    U64Complete(rfqId, s2);
    assert PutByte(side, s1)[1..] == s1;
  }

  lemma RfqSound(s: bytes)
    requires ReadRfq(s).Ok?
    ensures var (d, rest) := ReadRfq(s).value;
            d.SolRfqV2? && |d.levels| < U32_COUNT
            && PutBody(RfqBody(d.side, d.rfqId, d.expireAt, d.levels), rest) == s
  {
    hide ReadU64, ReadLevels, PutLevels, PutLE;
    var s1 := s[1..];
    U64Sound(s1);
    var s2 := ReadU64(s1).value.1;
    U64Sound(s2);
    LevelsSound(ReadU64(s2).value.1);
  }

  lemma AccountsComplete(slices: bytes, last: byte, rest: bytes)
    requires DexAllowed(AccountsBody(slices, last))
    ensures SkipBody(119, PutBody(AccountsBody(slices, last), rest)) == Ok(rest)
  {
    var s := PutByte(last, rest);
    CountComplete(|slices| / 2, slices + s);
    SkipInverse(slices, s);
    SkipInverse([last], rest);
  }

  lemma DynamicComplete(candidates: seq<Candidate>, mode: Mode, rest: bytes)
    requires DexAllowed(DynamicBody(candidates, mode))
    ensures SkipDynamicRoute(PutBody(DynamicBody(candidates, mode), rest)) == Ok(rest)
  {
    var s := PutMode(mode, rest);
    CountComplete(|candidates|, PutAll(PutCandidate, candidates, s));
    CandidatesComplete(candidates, s);
    ModeComplete(mode, rest);
  }

  lemma BodyComplete(w: WireDex, rest: bytes)
    requires DexAllowed(w) && !w.RfqBody?
    ensures LayoutOf(TagOf(w)) != Rfq && SkipBody(TagOf(w), PutBody(w, rest)) == Ok(rest)
  {
    match w {
      case FixedBody(tag, fields) =>
        DeclaredIsSkipped(tag);
        JoinedWidth(fields, DeclaredFields(tag).value);
        SkipInverse(Joined(fields), rest);
      case AccountsBody(slices, last) =>
        AccountsComplete(slices, last, rest);
      case StringBody(content) =>
        CountComplete(|content|, content + rest);
        SkipInverse(content, rest);
      case DynamicBody(candidates, mode) =>
        DynamicComplete(candidates, mode, rest);
    }
  }

  /** Decoding an entry consumes exactly its own bytes, whatever follows. */
  lemma DexComplete(w: WireDex, rest: bytes)
    requires DexAllowed(w)
    ensures ReadDex(PutDex(w, rest)) == Ok((Meaning(w), rest))
  {
    assert PutDex(w, rest)[1..] == PutBody(w, rest);
    hide PutBody, SkipBody, ReadRfq, DexAllowed;
    match w {
      case RfqBody(side, rfqId, expireAt, levels) =>
        RfqComplete(side, rfqId, expireAt, levels, rest);
      case _ =>
        BodyComplete(w, rest);
    }
  }

  lemma AccountsSound(s: bytes) returns (w: WireDex)
    requires SkipAccounts(s).Ok? && Skip(1, SkipAccounts(s).value).Ok?
    ensures w.AccountsBody? && DexAllowed(w) && PutBody(w, Skip(1, SkipAccounts(s).value).value) == s
  {
    CountSound(s);
    var (n, s1) := ReadLE(4, s).value;
    w := AccountsBody(s1[..2 * n], s1[2 * n]);
    SplitAtByte(s1, 2 * n);
  }

  lemma SplitAtByte(s: bytes, n: nat)
    requires n < |s|
    ensures s == s[..n] + PutByte(s[n], s[n..][1..])
  {
  }

  lemma DynamicSound(s: bytes) returns (w: WireDex)
    requires SkipDynamicRoute(s).Ok?
    ensures w.DynamicBody? && DexAllowed(w) && PutBody(w, SkipDynamicRoute(s).value) == s
  {
    CountSound(s);
    var (n, s1) := ReadLE(4, s).value;
    var cs := CandidatesSound(n, s1);
    var m := ModeSound(SkipCandidates(n, s1).value);
    w := DynamicBody(cs, m);
  }

  lemma FixedSound(tag: byte, n: nat, s: bytes) returns (w: WireDex)
    requires LayoutOf(tag) == Fixed(n) && SkipBody(tag, s).Ok?
    ensures w.FixedBody? && w.tag == tag && DexAllowed(w)
    ensures PutBody(w, SkipBody(tag, s).value) == s
  {
    DeclaredIsSkipped(tag);
    var fields := SplitFields(DeclaredFields(tag).value, s[..n]);
    w := FixedBody(tag, fields);
  }

  lemma StringSound(s: bytes) returns (w: WireDex)
    requires SkipByteString(s).Ok?
    ensures w.StringBody? && DexAllowed(w) && PutBody(w, SkipByteString(s).value) == s
  {
    CountSound(s);
    var (n, rest) := ReadLE(4, s).value;
    w := StringBody(rest[..n]);
  }

  lemma BodySound(tag: byte, s: bytes) returns (w: WireDex)
    requires LayoutOf(tag) != Rfq && SkipBody(tag, s).Ok?
    ensures !w.RfqBody? && DexAllowed(w) && TagOf(w) == tag && PutBody(w, SkipBody(tag, s).value) == s
  {
    match LayoutOf(tag) {
      case Fixed(n) =>
        w := FixedSound(tag, n, s);
      case AccountsThenByte =>
        w := AccountsSound(s);
      case ByteString =>
        w := StringSound(s);
      case DynamicRoute =>
        w := DynamicSound(s);
    }
  }

  lemma OnlyRfqTag(tag: byte)
    ensures LayoutOf(tag) == Rfq <==> tag == RFQ_TAG
  {
  }

  lemma DexSound(s: bytes) returns (w: WireDex)
    requires ReadDex(s).Ok?
    ensures DexAllowed(w) && Meaning(w) == ReadDex(s).value.0 && PutDex(w, ReadDex(s).value.1) == s
  {
    OnlyRfqTag(s[0]);
    hide LayoutOf, SkipBody, ReadRfq, PutBody;
    if s[0] == RFQ_TAG {
      RfqSound(s[1..]);
      var d := ReadRfq(s[1..]).value.0;
      w := RfqBody(d.side, d.rfqId, d.expireAt, d.levels);
    } else {
      w := BodySound(s[0], s[1..]);
    }
  }

  // ---------------------------------------------------------------- routes and arguments

  lemma RouteComplete(w: WireRoute, rest: bytes)
    requires DexAllowed(w.dex)
    ensures ReadRoute(PutRoute(w, rest)) == Ok((Route(Meaning(w.dex), w.weight, w.index), rest))
  {
    var s2 := PutByte(w.index, rest);
    assert s2[1..] == rest;
    U16Complete(w.weight, s2);
    DexComplete(w.dex, PutLE(w.weight, 2, s2));
  }

  lemma RouteSound(s: bytes) returns (w: WireRoute)
    requires ReadRoute(s).Ok?
    ensures DexAllowed(w.dex) && PutRoute(w, ReadRoute(s).value.1) == s
    ensures ReadRoute(s).value.0 == Route(Meaning(w.dex), w.weight, w.index)
  {
    var d := DexSound(s);
    var (dex, s1) := ReadDex(s).value;
    U16Sound(s1);
    var (weight, s2) := ReadU16(s1).value;
    w := WireRoute(d, weight, s2[0]);
    assert ReadRoute(s).value == (Route(dex, weight, s2[0]), s2[1..]);
    assert PutByte(s2[0], s2[1..]) == s2;
  }

  /** A vector of routes of any mix of layouts is consumed exactly, entry by entry. */
  lemma {:induction false} RoutesComplete(ws: seq<WireRoute>, rest: bytes)
    requires forall i :: 0 <= i < |ws| ==> DexAllowed(ws[i].dex)
    ensures Many(ReadRoute, |ws|, PutAll(PutRoute, ws, rest)) == Ok((Meanings(ws), rest))
    decreases ws
  {
    if ws != [] {
      RouteComplete(ws[0], PutAll(PutRoute, ws[1..], rest));
      RoutesComplete(ws[1..], rest);
    }
  }

  lemma {:induction false} RoutesSound(n: nat, s: bytes) returns (ws: seq<WireRoute>)
    requires Many(ReadRoute, n, s).Ok?
    ensures |ws| == n && forall i :: 0 <= i < |ws| ==> DexAllowed(ws[i].dex)
    ensures Meanings(ws) == Many(ReadRoute, n, s).value.0
    ensures PutAll(PutRoute, ws, Many(ReadRoute, n, s).value.1) == s
    decreases n
  {
    hide ReadRoute, PutRoute;
    if n == 0 {
      ws := [];
    } else {
      var w := RouteSound(s);
      var (route, rest) := ReadRoute(s).value;
      var tail := RoutesSound(n - 1, rest);
      ws := [w] + tail;
      assert ws[1..] == tail;
      assert Meanings(ws) == [route] + Meanings(tail);
    }
  }

  lemma LegOfMeaning(w: WireDex)
    ensures QuotedLeg(w) == match FillOf(Meaning(w)) case Some(f) => [f] case None => []
  {
  }

  lemma {:induction false} LegsOfMeanings(ws: seq<WireRoute>)
    ensures FillsOf(Meanings(ws)) == QuotedLegs(ws)
  {
    if ws != [] {
      LegOfMeaning(ws[0].dex);
      LegsOfMeanings(ws[1..]);
      assert Meanings(ws)[1..] == Meanings(ws[1..]);
    }
  }

  lemma ArgsComplete(a: WireArgs, rest: bytes)
    requires ArgsAllowed(a)
    ensures ReadSwapArgs(PutArgs(a, rest))
         == Ok((SwapArgs(a.orderId, a.amountIn, a.expectAmountOut, a.slippage, Meanings(a.routes)), rest))
  {
    var s5 := PutAll(PutRoute, a.routes, rest);
    var s4 := PutLE(|a.routes|, 4, s5);
    var s3 := PutLE(a.slippage, 2, s4);
    var s2 := PutLE(a.expectAmountOut, 8, s3);
    RoutesComplete(a.routes, rest);
    CountComplete(|a.routes|, s5);
    U16Complete(a.slippage, s4);
    U64Complete(a.expectAmountOut, s3);
    U64Complete(a.amountIn, s2);
    U64Complete(a.orderId, PutLE(a.amountIn, 8, s2));
  }

  lemma ArgsSound(s: bytes) returns (a: WireArgs)
    requires ReadSwapArgs(s).Ok?
    ensures ArgsAllowed(a) && PutArgs(a, ReadSwapArgs(s).value.1) == s
    ensures ReadSwapArgs(s).value.0.routes == Meanings(a.routes)
  {
    U64Sound(s);
    var s1 := ReadU64(s).value.1;
    U64Sound(s1);
    var s2 := ReadU64(s1).value.1;
    U64Sound(s2);
    var s3 := ReadU64(s2).value.1;
    U16Sound(s3);
    var s4 := ReadU16(s3).value.1;
    CountSound(s4);
    var ws := RoutesSound(ReadLE(4, s4).value.0, ReadLE(4, s4).value.1);
    var args := ReadSwapArgs(s).value.0;
    a := WireArgs(args.orderId, args.amountIn, args.expectAmountOut, args.slippage, ws);
  }

  // ---------------------------------------------------------------- legs of an instruction

  /** From any swap instruction the decoder extracts exactly its RFQ legs, in order, whatever trails the arguments. */
  lemma LegsComplete(disc: bytes, a: WireArgs, suffix: bytes)
    requires disc in CONCRETE && ArgsAllowed(a)
    ensures DecodeLegs(disc + PutArgs(a, suffix)) == (Some(Concrete), QuotedLegs(a.routes))
  {
    var data := disc + PutArgs(a, suffix);
    assert |disc| == 8;
    assert data[..8] == disc && data[8..] == PutArgs(a, suffix);
    ArgsComplete(a, suffix);
    LegsOfMeanings(a.routes);
  }

  /** Conversely, whatever is decoded as a swap is the printed form of some argument list with exactly those legs. */
  lemma LegsSound(data: bytes) returns (a: WireArgs, suffix: bytes)
    requires DecodeLegs(data).0 == Some(Concrete)
    ensures |data| >= 8 && data[..8] in CONCRETE && ArgsAllowed(a)
    ensures data == data[..8] + PutArgs(a, suffix)
    ensures DecodeLegs(data).1 == QuotedLegs(a.routes)
  {
    a := ArgsSound(data[8..]);
    suffix := ReadSwapArgs(data[8..]).value.1;
    assert data == data[..8] + data[8..];
    LegsOfMeanings(a.routes);
  }

  /** The rejected family is recognised by its discriminator alone, and no instruction decodes as token-ledger. */
  lemma UnsupportedByDiscriminator(data: bytes)
    ensures DecodeLegs(data).0 == Some(Unsupported) <==> |data| >= 8 && data[..8] in UNSUPPORTED
    ensures DecodeLegs(data).0 != Some(Concrete) ==> DecodeLegs(data).1 == []
    ensures DecodeLegs(data).0 != Some(TokenLedger)
  {
    if |data| >= 8 {
      FamiliesDisjoint(data[..8]);
    }
  }

  predicate ConcreteFirstByte(b: byte) {
    b == 248 || b == 19 || b == 187 || b == 127 || b == 86
  }

  lemma ConcreteStart(disc: bytes)
    requires disc in CONCRETE
    ensures |disc| == 8 && ConcreteFirstByte(disc[0])
  {
  }

  lemma UnsupportedStart(disc: bytes)
    requires disc in UNSUPPORTED
    ensures |disc| == 8 && !ConcreteFirstByte(disc[0])
  {
  }

  lemma FamiliesDisjoint(disc: bytes)
    ensures !(disc in CONCRETE && disc in UNSUPPORTED)
  {
    if disc in CONCRETE && disc in UNSUPPORTED {
      ConcreteStart(disc);
      UnsupportedStart(disc);
    }
  }
}
