/** The maker-account validator: static-index checks that stand for every lookup-table content. */
module Exclusivity {
  import opened Common
  import opened Wire
  import opened Routes
  import opened Decoded

  const RFQ_V2_PROGRAM_ID: Key := [
    0x06, 0x36, 0x37, 0xd0, 0x81, 0x4e, 0x36, 0x3e, 0x28, 0x17, 0x3c, 0xa6, 0x5d, 0x04, 0xe1, 0x35,
    0xad, 0x9b, 0xba, 0xc1, 0x6d, 0xf0, 0xff, 0x0d, 0x3f, 0xd8, 0x5a, 0x74, 0x6a, 0x14, 0xa2, 0x3e
  ]

  const LEG_PROGRAM_ID := 0
  const LEG_FILL_AUTHORITY := 4
  const LEG_MAKER_BASE := 5
  const LEG_MAKER_QUOTE := 6
  const LEG_WIDTH := 13

  datatype MakerAccounts = MakerAccounts(fillAuthority: Key, makerBase: Key, makerQuote: Key)

  datatype Report = Report(instructionIndex: nat, legOffset: nat,
                           fillAuthority: byte, makerBase: byte, makerQuote: byte, rfqProgram: byte)

  datatype Role = FillAuthority | MakerBase | MakerQuote

  datatype ValidationError =
    | KeysNotDistinct
    | NotStatic(role: Role)
    | DuplicateStaticKey(role: Role)
    | FillAuthorityNotSigner(index: byte)
    | TokenAccountNotWritable(role: Role, index: byte)
    | RfqProgramNotStatic
    | DuplicateRfqProgramStaticKey
    | FillCount(error: FillCountError)
    | ReferenceCount(role: Role, count: nat)
    | RfqProgramReferenceCount(count: nat)
    | LegNotFound
    | MultipleLegMatches

  /** The result of looking for the only occurrence of something. */
  datatype Search<+T> = Missing | Unique(found: T) | Repeated

  function KeyOf(maker: MakerAccounts, role: Role): Key {
    match role
    case FillAuthority => maker.fillAuthority
    case MakerBase => maker.makerBase
    case MakerQuote => maker.makerQuote
  }

  predicate KeysDistinct(maker: MakerAccounts) {
    && maker.fillAuthority != maker.makerBase
    && maker.fillAuthority != maker.makerQuote
    && maker.makerBase != maker.makerQuote
  }

  // ---------------------------------------------------------------- static keys

  /** Position of the first occurrence of a key. */
  function IndexOf(keys: seq<Key>, k: Key): (i: nat)
    requires k in keys
    ensures i < |keys| && keys[i] == k
  {
    if keys[0] == k then 0 else 1 + IndexOf(keys[1..], k)
  }

  /** The key is there, and not again after its first occurrence. */
  ghost predicate OccursOnce(keys: seq<Key>, k: Key) {
    k in keys && k !in keys[IndexOf(keys, k) + 1..]
  }

  /** A key that occurs once is found at no other position; a key found at one position only occurs once. */
  lemma {:induction false} OnlyPosition(keys: seq<Key>, k: Key, i: nat)
    requires i < |keys| && keys[i] == k
    ensures IndexOf(keys, k) <= i
    ensures OccursOnce(keys, k) ==> i == IndexOf(keys, k)
    ensures (forall p :: 0 <= p < |keys| && p != i ==> keys[p] != k) ==> OccursOnce(keys, k) && i == IndexOf(keys, k)
  {
    FirstPosition(keys, k, i);
    var first := IndexOf(keys, k);
    if i > first {
      assert keys[first + 1..][i - first - 1] == k;
    }
  }

  lemma {:induction false} FirstPosition(keys: seq<Key>, k: Key, i: nat)
    requires i < |keys| && keys[i] == k
    ensures IndexOf(keys, k) <= i
  {
    if keys[0] != k {
      FirstPosition(keys[1..], k, i - 1);
    }
  }

  /** The position cast to a byte, as the validator keeps it. */
  function StaticIndex(keys: seq<Key>, k: Key): byte
    requires k in keys
  {
    IndexOf(keys, k) % 0x100
  }

  method UniqueStaticIndex(keys: seq<Key>, k: Key) returns (r: Search<byte>)
    ensures r == if k !in keys then Missing else if OccursOnce(keys, k) then Unique(StaticIndex(keys, k)) else Repeated
  {
    var i := 0;
    while i < |keys| && keys[i] != k
      invariant i <= |keys|
      invariant forall p :: 0 <= p < i ==> keys[p] != k
    {
      i := i + 1;
    }
    if i == |keys| {
      return Missing;
    }
    var j := i + 1;
    while j < |keys| && keys[j] != k
      invariant i < j <= |keys|
      invariant forall p :: i < p < j ==> keys[p] != k
    {
      j := j + 1;
    }
    OnlyPosition(keys, k, i);
    if j < |keys| {
      OnlyPosition(keys, k, j);
      return Repeated;
    }
    r := Unique(i % 0x100);
  }

  /** Whether a static index is writable, from the header counts. */
  predicate StaticKeyIsWritable(m: DecodedMessage, index: byte) {
    if index < m.header.required then index < SaturatingSub(m.header.required, m.header.readonlySigned)
    else index < SaturatingSub(|m.keys|, m.header.readonlyUnsigned)
  }

  // ---------------------------------------------------------------- references

  /** Every account an instruction names, its program first. */
  function Refs(ix: DecodedInstruction): bytes {
    [ix.program] + ix.accounts
  }

  /** How often one instruction references an index. */
  ghost function RefCount(ix: DecodedInstruction, v: byte): nat {
    multiset(Refs(ix))[v]
  }

  /** How often an index is referenced over all top-level instructions. */
  ghost function References(ixs: seq<DecodedInstruction>, v: byte): nat {
    SumOf(RefCounts(ixs, v))
  }

  ghost function RefCounts(ixs: seq<DecodedInstruction>, v: byte): seq<nat> {
    seq(|ixs|, i requires 0 <= i < |ixs| => RefCount(ixs[i], v))
  }

  /** Counts one reference towards every tracked index it equals. */
  method CountReference(counts: array<nat>, tracked: seq<byte>, index: byte)
    requires counts.Length == |tracked|
    modifies counts
    ensures forall q :: 0 <= q < |tracked| ==> counts[q] == old(counts[q]) + if index == tracked[q] then 1 else 0
  {
    for position := 0 to |tracked|
      invariant forall q :: 0 <= q < position ==> counts[q] == old(counts[q]) + if index == tracked[q] then 1 else 0
      invariant forall q :: position <= q < |tracked| ==> counts[q] == old(counts[q])
    {
      if index == tracked[position] {
        counts[position] := counts[position] + 1;
      }
    }
  }

  method CountInstruction(counts: array<nat>, tracked: seq<byte>, refs: bytes)
    requires counts.Length == |tracked|
    modifies counts
    ensures forall q :: 0 <= q < |tracked| ==> counts[q] == old(counts[q]) + multiset(refs)[tracked[q]]
  {
    for j := 0 to |refs|
      invariant forall q :: 0 <= q < |tracked| ==> counts[q] == old(counts[q]) + multiset(refs[..j])[tracked[q]]
    {
      assert refs[..j + 1] == refs[..j] + [refs[j]];
      CountReference(counts, tracked, refs[j]);
    }
    assert refs[..|refs|] == refs;
  }

  lemma ReferencesStep(ixs: seq<DecodedInstruction>, i: nat, v: byte)
    requires i < |ixs|
    ensures References(ixs[..i + 1], v) == References(ixs[..i], v) + multiset(Refs(ixs[i]))[v]
  {
    assert RefCounts(ixs[..i + 1], v)[..i] == RefCounts(ixs[..i], v);
  }

  method CountReferences(ixs: seq<DecodedInstruction>, tracked: seq<byte>) returns (counts: seq<nat>)
    ensures |counts| == |tracked|
    ensures forall q :: 0 <= q < |tracked| ==> counts[q] == References(ixs, tracked[q])
  {
    var tally := new nat[|tracked|](_ => 0);
    for i := 0 to |ixs|
      invariant forall q :: 0 <= q < |tracked| ==> tally[q] == References(ixs[..i], tracked[q])
    {
      forall q | 0 <= q < |tracked| {
        ReferencesStep(ixs, i, tracked[q]);
      }
      CountInstruction(tally, tracked, Refs(ixs[i]));
    }
    assert ixs[..|ixs|] == ixs;
    counts := tally[..];
  }

  // ---------------------------------------------------------------- the leg

  /** The four tracked indices stand in their slots of a leg slice starting at `offset`. */
  predicate LegAt(accounts: bytes, offset: nat, program: byte, authority: byte, base: byte, quote: byte) {
    && offset + LEG_WIDTH <= |accounts|
    && accounts[offset + LEG_PROGRAM_ID] == program
    && accounts[offset + LEG_FILL_AUTHORITY] == authority
    && accounts[offset + LEG_MAKER_BASE] == base
    && accounts[offset + LEG_MAKER_QUOTE] == quote
  }

  method FindLeg(accounts: bytes, program: byte, authority: byte, base: byte, quote: byte) returns (r: Search<nat>)
    ensures match r
            case Missing => forall o :: !LegAt(accounts, o, program, authority, base, quote)
            case Unique(o) =>
              && LegAt(accounts, o, program, authority, base, quote)
              && forall p :: LegAt(accounts, p, program, authority, base, quote) ==> p == o
            case Repeated =>
              exists o, p :: o < p && LegAt(accounts, o, program, authority, base, quote)
                                   && LegAt(accounts, p, program, authority, base, quote)
  {
    var last := SaturatingSub(|accounts|, LEG_WIDTH);
    r := Missing;
    var o := 0;
    while o <= last
      invariant 0 <= o <= last + 1
      invariant !r.Repeated?
      invariant r.Missing? ==> forall p :: 0 <= p < o ==> !LegAt(accounts, p, program, authority, base, quote)
      invariant r.Unique? ==> r.found < o && LegAt(accounts, r.found, program, authority, base, quote)
      invariant r.Unique? ==>
                  forall p :: 0 <= p < o && LegAt(accounts, p, program, authority, base, quote) ==> p == r.found
    {
      if LegAt(accounts, o, program, authority, base, quote) {
        if r.Unique? {
          return Repeated;
        }
        r := Unique(o);
      }
      o := o + 1;
    }
  }

  // ---------------------------------------------------------------- the signing policy

  /** Static key `i` is `k`, and no other static key is. */
  ghost predicate SoleKey(keys: seq<Key>, k: Key, i: nat) {
    i < |keys| && keys[i] == k && forall p :: 0 <= p < |keys| && p != i ==> keys[p] != k
  }

  /** Index `v` is account `p` of instruction `j` and stands nowhere else, program ids included. */
  ghost predicate SoleReference(ixs: seq<DecodedInstruction>, v: byte, j: nat, p: nat) {
    && j < |ixs| && p < |ixs[j].accounts|
    && (forall i :: 0 <= i < |ixs| ==> ixs[i].program != v)
    && forall i, q :: 0 <= i < |ixs| && 0 <= q < |ixs[i].accounts| ==>
                        (ixs[i].accounts[q] == v <==> i == j && q == p)
  }

  /** The writable static accounts: the leading signers and the leading non-signers. */
  predicate InWritableRegion(m: DecodedMessage, i: nat) {
    || i < m.header.required - m.header.readonlySigned
    || m.header.required <= i < |m.keys| - m.header.readonlyUnsigned
  }

  ghost predicate KeyPolicy(m: DecodedMessage, maker: MakerAccounts, rep: Report) {
    && maker.fillAuthority != maker.makerBase
    && maker.fillAuthority != maker.makerQuote
    && maker.makerBase != maker.makerQuote
    && SoleKey(m.keys, maker.fillAuthority, rep.fillAuthority)
    && SoleKey(m.keys, maker.makerBase, rep.makerBase)
    && SoleKey(m.keys, maker.makerQuote, rep.makerQuote)
    && SoleKey(m.keys, RFQ_V2_PROGRAM_ID, rep.rfqProgram)
    && rep.fillAuthority < m.header.required
    && InWritableRegion(m, rep.makerBase) && InWritableRegion(m, rep.makerQuote)
  }

  ghost predicate FillPolicy(m: DecodedMessage, j: nat) {
    NoneUnsupported(m) && exists f :: OnlyFillIn(m, j, f)
  }

  /** The thirteen accounts of the leg start at account `o` of instruction `j`. */
  ghost predicate LegPolicy(m: DecodedMessage, rep: Report, j: nat, o: nat) {
    && j < |m.instructions| && o + 13 <= |m.instructions[j].accounts|
    && SoleReference(m.instructions, rep.rfqProgram, j, o)
    && SoleReference(m.instructions, rep.fillAuthority, j, o + 4)
    && SoleReference(m.instructions, rep.makerBase, j, o + 5)
    && SoleReference(m.instructions, rep.makerQuote, j, o + 6)
  }

  /** What the signing policy asks of a message, with the witnesses a report names. */
  ghost predicate Policy(m: DecodedMessage, maker: MakerAccounts, rep: Report) {
    && KeyPolicy(m, maker, rep)
    && FillPolicy(m, rep.instructionIndex)
    && LegPolicy(m, rep, rep.instructionIndex, rep.legOffset)
  }

  // ---------------------------------------------------------------- what acceptance and rejection mean

  /** A key occurs once among the static keys, and its index is referenced once in the message. */
  ghost predicate StaticAndReferencedOnce(m: DecodedMessage, k: Key) {
    OccursOnce(m.keys, k) && References(m.instructions, StaticIndex(m.keys, k)) == 1
  }

  ghost predicate MakerStaticAndReferencedOnce(m: DecodedMessage, maker: MakerAccounts) {
    && StaticAndReferencedOnce(m, maker.fillAuthority)
    && StaticAndReferencedOnce(m, maker.makerBase)
    && StaticAndReferencedOnce(m, maker.makerQuote)
  }

  predicate AllStatic(m: DecodedMessage, maker: MakerAccounts) {
    && RFQ_V2_PROGRAM_ID in m.keys
    && maker.fillAuthority in m.keys && maker.makerBase in m.keys && maker.makerQuote in m.keys
  }

  /** The key conditions, with positions and references counted as the validator counts them. */
  ghost predicate AcceptableKeys(m: DecodedMessage, maker: MakerAccounts) {
    && KeysDistinct(maker)
    && MakerStaticAndReferencedOnce(m, maker)
    && StaticAndReferencedOnce(m, RFQ_V2_PROGRAM_ID)
    && IndexOf(m.keys, maker.fillAuthority) < m.header.required
    && InWritableRegion(m, IndexOf(m.keys, maker.makerBase))
    && InWritableRegion(m, IndexOf(m.keys, maker.makerQuote))
  }

  ghost predicate Acceptable(m: DecodedMessage, maker: MakerAccounts) {
    && AcceptableKeys(m, maker)
    && SingleFill(m).Ok?
    && HasLeg(m, maker)
  }

  /** The maker's indices and the RFQ program stand in one leg slice of instruction `j`. */
  ghost predicate LegOf(m: DecodedMessage, maker: MakerAccounts, j: nat, o: nat)
    requires j < |m.instructions|
    requires AllStatic(m, maker)
  {
    LegAt(m.instructions[j].accounts, o, StaticIndex(m.keys, RFQ_V2_PROGRAM_ID),
          StaticIndex(m.keys, maker.fillAuthority), StaticIndex(m.keys, maker.makerBase),
          StaticIndex(m.keys, maker.makerQuote))
  }

  /** Some instruction with a fill holds the leg. */
  ghost predicate HasLeg(m: DecodedMessage, maker: MakerAccounts)
    requires AllStatic(m, maker)
  {
    exists j: nat, o: nat :: j < |m.instructions| && m.instructions[j].fills != [] && LegOf(m, maker, j, o)
  }

  /** Some instruction with a fill holds no leg. */
  ghost predicate LacksLeg(m: DecodedMessage, maker: MakerAccounts)
    requires AllStatic(m, maker)
  {
    exists j: nat :: j < |m.instructions| && m.instructions[j].fills != [] && forall o: nat :: !LegOf(m, maker, j, o)
  }

  /** What a report states about the tracked keys. */
  ghost predicate CertifiedKeys(m: DecodedMessage, maker: MakerAccounts, rep: Report) {
    && KeysDistinct(maker)
    && MakerStaticAndReferencedOnce(m, maker)
    && StaticAndReferencedOnce(m, RFQ_V2_PROGRAM_ID)
    && rep.fillAuthority == StaticIndex(m.keys, maker.fillAuthority)
    && rep.makerBase == StaticIndex(m.keys, maker.makerBase)
    && rep.makerQuote == StaticIndex(m.keys, maker.makerQuote)
    && rep.rfqProgram == StaticIndex(m.keys, RFQ_V2_PROGRAM_ID)
    && rep.fillAuthority < m.header.required
    && StaticKeyIsWritable(m, rep.makerBase)
    && StaticKeyIsWritable(m, rep.makerQuote)
  }

  /** Instruction `j` holds the message's one fill. */
  ghost predicate HoldsTheFill(m: DecodedMessage, j: nat) {
    SingleFill(m).Ok? && j < |m.instructions| && m.instructions[j].fills != []
  }

  /** What a report states, with `j` the instruction it names. */
  ghost predicate Certified(m: DecodedMessage, maker: MakerAccounts, rep: Report, j: nat) {
    && CertifiedKeys(m, maker, rep)
    && HoldsTheFill(m, j)
    && rep.instructionIndex == m.instructions[j].index
    && LegOf(m, maker, j, rep.legOffset)
  }

  /** What each error states about the message. */
  ghost predicate Explains(m: DecodedMessage, maker: MakerAccounts, e: ValidationError) {
    match e
    case KeysNotDistinct => !KeysDistinct(maker)
    case NotStatic(role) => KeyOf(maker, role) !in m.keys
    case DuplicateStaticKey(role) => KeyOf(maker, role) in m.keys && !OccursOnce(m.keys, KeyOf(maker, role))
    case FillAuthorityNotSigner(index) =>
      && maker.fillAuthority in m.keys
      && index == StaticIndex(m.keys, maker.fillAuthority)
      && index >= m.header.required
    case TokenAccountNotWritable(role, index) =>
      && role != FillAuthority
      && KeyOf(maker, role) in m.keys
      && index == StaticIndex(m.keys, KeyOf(maker, role))
      && !StaticKeyIsWritable(m, index)
    case RfqProgramNotStatic => RFQ_V2_PROGRAM_ID !in m.keys
    case DuplicateRfqProgramStaticKey => RFQ_V2_PROGRAM_ID in m.keys && !OccursOnce(m.keys, RFQ_V2_PROGRAM_ID)
    case FillCount(error) => SingleFill(m) == Err(error)
    case ReferenceCount(role, count) =>
      && KeyOf(maker, role) in m.keys
      && count == References(m.instructions, StaticIndex(m.keys, KeyOf(maker, role)))
      && count != 1
    case RfqProgramReferenceCount(count) =>
      && RFQ_V2_PROGRAM_ID in m.keys
      && count == References(m.instructions, StaticIndex(m.keys, RFQ_V2_PROGRAM_ID))
      && count != 1
    case LegNotFound =>
      && AllStatic(m, maker)
      && SingleFill(m).Ok? && LacksLeg(m, maker)
    case MultipleLegMatches =>
      && AllStatic(m, maker)
      && References(m.instructions, StaticIndex(m.keys, maker.fillAuthority)) == 1
      && exists j: nat, o: nat, p: nat ::
           j < |m.instructions| && o < p && LegOf(m, maker, j, o) && LegOf(m, maker, j, p)
  }

  /** Where in the validator's sequence of checks an error is raised. */
  function RankOf(e: ValidationError): nat {
    match e
    case KeysNotDistinct => 0
    case NotStatic(role) => 1 + RoleRank(role)
    case DuplicateStaticKey(role) => 1 + RoleRank(role)
    case FillAuthorityNotSigner(_) => 4
    case TokenAccountNotWritable(role, _) => 4 + RoleRank(role)
    case RfqProgramNotStatic => 7
    case DuplicateRfqProgramStaticKey => 7
    case FillCount(_) => 8
    case ReferenceCount(role, _) => 9 + RoleRank(role)
    case RfqProgramReferenceCount(_) => 12
    case LegNotFound => 13
    case MultipleLegMatches => 14
  }

  function RoleRank(role: Role): nat {
    match role
    case FillAuthority => 0
    case MakerBase => 1
    case MakerQuote => 2
  }

  /** The checks before number `n` hold. */
  ghost predicate PassesBefore(m: DecodedMessage, maker: MakerAccounts, n: nat) {
    && (n > 0 ==> KeysDistinct(maker))
    && (n > 1 ==> OccursOnce(m.keys, maker.fillAuthority))
    && (n > 2 ==> OccursOnce(m.keys, maker.makerBase))
    && (n > 3 ==> OccursOnce(m.keys, maker.makerQuote))
    && (n > 4 ==> StaticIndex(m.keys, maker.fillAuthority) < m.header.required)
    && (n > 5 ==> StaticKeyIsWritable(m, StaticIndex(m.keys, maker.makerBase)))
    && (n > 6 ==> StaticKeyIsWritable(m, StaticIndex(m.keys, maker.makerQuote)))
    && (n > 7 ==> OccursOnce(m.keys, RFQ_V2_PROGRAM_ID))
    && (n > 8 ==> SingleFill(m).Ok?)
    && (n > 9 ==> References(m.instructions, StaticIndex(m.keys, maker.fillAuthority)) == 1)
    && (n > 10 ==> References(m.instructions, StaticIndex(m.keys, maker.makerBase)) == 1)
    && (n > 11 ==> References(m.instructions, StaticIndex(m.keys, maker.makerQuote)) == 1)
    && (n > 12 ==> References(m.instructions, StaticIndex(m.keys, RFQ_V2_PROGRAM_ID)) == 1)
  }

  /** The error is true, and no earlier check would have failed. */
  ghost predicate FirstFailure(m: DecodedMessage, maker: MakerAccounts, e: ValidationError) {
    Explains(m, maker, e) && PassesBefore(m, maker, RankOf(e))
  }

  /** The checks in the order the validator makes them. */
  method CheckMakerAccounts(m: DecodedMessage, maker: MakerAccounts) returns (r: Result<Report, ValidationError>)
    ensures r.Ok? ==> exists j :: Certified(m, maker, r.value, j)
    ensures r.Err? ==> FirstFailure(m, maker, r.error)
  {
    if maker.fillAuthority == maker.makerBase
       || maker.fillAuthority == maker.makerQuote
       || maker.makerBase == maker.makerQuote
    {
      return Err(KeysNotDistinct);
    }
    var t :- TrackedIndices(m, maker);
    if SingleFill(m).Err? {
      return Err(FillCount(SingleFill(m).error));
    }
    var f := FillInstruction(m);
    var _ :- CheckReferences(m, maker, t);
    var offset :- LegOffset(m, maker, t, f);
    var report := Report(m.instructions[f].index, offset, t.authority, t.base, t.quote, t.program);
    CertifyKeys(m, maker, t, report);
    assert Certified(m, maker, report, f);
    r := Ok(report);
  }

  /** The static indices of the three maker keys and the RFQ program. */
  datatype Tracked = Tracked(authority: byte, base: byte, quote: byte, program: byte)

  ghost predicate IndicesOf(m: DecodedMessage, maker: MakerAccounts, t: Tracked) {
    && AllStatic(m, maker)
    && t.authority == StaticIndex(m.keys, maker.fillAuthority)
    && t.base == StaticIndex(m.keys, maker.makerBase)
    && t.quote == StaticIndex(m.keys, maker.makerQuote)
    && t.program == StaticIndex(m.keys, RFQ_V2_PROGRAM_ID)
  }

  ghost predicate StaticRequirements(m: DecodedMessage, maker: MakerAccounts, t: Tracked) {
    && OccursOnce(m.keys, maker.fillAuthority) && OccursOnce(m.keys, maker.makerBase)
    && OccursOnce(m.keys, maker.makerQuote) && OccursOnce(m.keys, RFQ_V2_PROGRAM_ID)
    && t.authority < m.header.required
    && StaticKeyIsWritable(m, t.base) && StaticKeyIsWritable(m, t.quote)
  }

  ghost predicate ReferencedOnce(m: DecodedMessage, t: Tracked) {
    && References(m.instructions, t.authority) == 1 && References(m.instructions, t.base) == 1
    && References(m.instructions, t.quote) == 1 && References(m.instructions, t.program) == 1
  }

  lemma CertifyKeys(m: DecodedMessage, maker: MakerAccounts, t: Tracked, rep: Report)
    requires KeysDistinct(maker) && IndicesOf(m, maker, t) && StaticRequirements(m, maker, t) && ReferencedOnce(m, t)
    requires rep.fillAuthority == t.authority && rep.makerBase == t.base
    requires rep.makerQuote == t.quote && rep.rfqProgram == t.program
    ensures CertifiedKeys(m, maker, rep)
  {
  }

  /** Each key static once, the authority a signer, the token accounts writable. */
  method TrackedIndices(m: DecodedMessage, maker: MakerAccounts) returns (r: Result<Tracked, ValidationError>)
    requires KeysDistinct(maker)
    ensures r.Ok? ==> IndicesOf(m, maker, r.value) && StaticRequirements(m, maker, r.value)
    ensures r.Err? ==> FirstFailure(m, maker, r.error)
  {
    var authority :- StaticMakerIndex(m, maker, FillAuthority);
    var base :- StaticMakerIndex(m, maker, MakerBase);
    var quote :- StaticMakerIndex(m, maker, MakerQuote);
    if authority >= m.header.required {
      return Err(FillAuthorityNotSigner(authority));
    }
    if !StaticKeyIsWritable(m, base) {
      return Err(TokenAccountNotWritable(MakerBase, base));
    }
    if !StaticKeyIsWritable(m, quote) {
      return Err(TokenAccountNotWritable(MakerQuote, quote));
    }
    var rfq := UniqueStaticIndex(m.keys, RFQ_V2_PROGRAM_ID);
    match rfq {
      case Missing => r := Err(RfqProgramNotStatic);
      case Repeated => r := Err(DuplicateRfqProgramStaticKey);
      case Unique(program) => r := Ok(Tracked(authority, base, quote, program));
    }
  }

  method CheckReferences(m: DecodedMessage, maker: MakerAccounts, t: Tracked) returns (r: Result<(), ValidationError>)
    requires IndicesOf(m, maker, t)
    requires KeysDistinct(maker) && StaticRequirements(m, maker, t) && SingleFill(m).Ok?
    ensures r.Ok? ==> ReferencedOnce(m, t)
    ensures r.Err? ==> FirstFailure(m, maker, r.error)
  {
    hide References, StaticIndex, OccursOnce, SingleFill, StaticKeyIsWritable;
    var tracked := [t.authority, t.base, t.quote, t.program];
    assert tracked[0] == t.authority && tracked[1] == t.base && tracked[2] == t.quote && tracked[3] == t.program;
    var counts := CountReferences(m.instructions, tracked);
    if counts[0] != 1 {
      return Err(ReferenceCount(FillAuthority, counts[0]));
    }
    if counts[1] != 1 {
      return Err(ReferenceCount(MakerBase, counts[1]));
    }
    if counts[2] != 1 {
      return Err(ReferenceCount(MakerQuote, counts[2]));
    }
    if counts[3] != 1 {
      return Err(RfqProgramReferenceCount(counts[3]));
    }
    r := Ok(());
  }

  method LegOffset(m: DecodedMessage, maker: MakerAccounts, t: Tracked, f: nat)
    returns (r: Result<nat, ValidationError>)
    requires IndicesOf(m, maker, t)
    requires KeysDistinct(maker) && StaticRequirements(m, maker, t) && ReferencedOnce(m, t)
    requires SingleFill(m).Ok? && f < |m.instructions| && m.instructions[f].fills != []
    ensures r.Ok? ==> LegOf(m, maker, f, r.value)
    ensures r.Err? ==> FirstFailure(m, maker, r.error)
  {
    var leg := FindLeg(m.instructions[f].accounts, t.program, t.authority, t.base, t.quote);
    match leg {
      case Missing =>
        assert forall o :: !LegOf(m, maker, f, o);
        r := Err(LegNotFound);
      case Repeated =>
        ghost var o, p :| o < p && LegAt(m.instructions[f].accounts, o, t.program, t.authority, t.base, t.quote)
                                && LegAt(m.instructions[f].accounts, p, t.program, t.authority, t.base, t.quote);
        assert LegOf(m, maker, f, o) && LegOf(m, maker, f, p);
        r := Err(MultipleLegMatches);
      case Unique(offset) =>
        r := Ok(offset);
    }
  }

  method StaticMakerIndex(m: DecodedMessage, maker: MakerAccounts, role: Role)
    returns (r: Result<byte, ValidationError>)
    ensures r.Ok? ==> OccursOnce(m.keys, KeyOf(maker, role)) && r.value == StaticIndex(m.keys, KeyOf(maker, role))
    ensures r.Err? ==> Explains(m, maker, r.error) && RankOf(r.error) == 1 + RoleRank(role)
  {
    var search := UniqueStaticIndex(m.keys, KeyOf(maker, role));
    match search {
      case Missing => r := Err(NotStatic(role));
      case Repeated => r := Err(DuplicateStaticKey(role));
      case Unique(index) => r := Ok(index);
    }
  }

  /** The first instruction with a fill. */
  method FillInstruction(m: DecodedMessage) returns (f: nat)
    requires AllFills(m.instructions) != []
    ensures f < |m.instructions| && m.instructions[f].fills != []
  {
    ghost var w := SomeInstructionHasFill(m.instructions);
    f := 0;
    while m.instructions[f].fills == []
      invariant f <= w
      decreases w - f
    {
      f := f + 1;
    }
  }

  // ---------------------------------------------------------------- soundness and completeness

  lemma TwiceInSequence(s: bytes, p: nat, q: nat)
    requires p < q < |s| && s[p] == s[q]
    ensures multiset(s)[s[p]] >= 2
  {
    assert s == s[..q] + s[q..];
    assert s[..q][p] == s[p] && s[q..][0] == s[p];
    assert s[p] in s[..q] && s[p] in s[q..];
    assert multiset(s) == multiset(s[..q]) + multiset(s[q..]);
  }

  lemma {:induction false} SumIncludes(s: seq<nat>, i: nat, j: nat)
    requires i <= j < |s|
    ensures SumOf(s) >= s[j]
    ensures i < j ==> SumOf(s) >= s[i] + s[j]
  {
    var last := |s| - 1;
    if j < last {
      SumIncludes(s[..last], i, j);
    } else if i < last {
      SumIncludes(s[..last], i, i);
    }
  }

  /** An index referenced once is referenced at one place. */
  lemma ReferencedAtOnePlace(ixs: seq<DecodedInstruction>, v: byte, i: nat, p: nat, j: nat, q: nat)
    requires References(ixs, v) == 1
    requires i < |ixs| && p < |Refs(ixs[i])| && Refs(ixs[i])[p] == v
    requires j < |ixs| && q < |Refs(ixs[j])| && Refs(ixs[j])[q] == v
    ensures i == j && p == q
  {
    SumIncludes(RefCounts(ixs, v), if i < j then i else j, if i < j then j else i);
    assert v in Refs(ixs[i]) && v in Refs(ixs[j]);
    if i == j {
      if p < q {
        TwiceInSequence(Refs(ixs[i]), p, q);
      } else if q < p {
        TwiceInSequence(Refs(ixs[i]), q, p);
      }
    }
  }

  /** Two leg slices would reference the fill authority twice: the last error cannot occur. */
  lemma MultipleLegsImpossible(m: DecodedMessage, maker: MakerAccounts)
    ensures !Explains(m, maker, MultipleLegMatches)
  {
    if Explains(m, maker, MultipleLegMatches) {
      var j: nat, o: nat, p: nat :| j < |m.instructions| && o < p && LegOf(m, maker, j, o) && LegOf(m, maker, j, p);
      var refs := Refs(m.instructions[j]);
      assert refs[1 + o + LEG_FILL_AUTHORITY] == m.instructions[j].accounts[o + LEG_FILL_AUTHORITY];
      assert refs[1 + p + LEG_FILL_AUTHORITY] == m.instructions[j].accounts[p + LEG_FILL_AUTHORITY];
      ReferencedAtOnePlace(m.instructions, StaticIndex(m.keys, maker.fillAuthority),
                           j, 1 + o + LEG_FILL_AUTHORITY, j, 1 + p + LEG_FILL_AUTHORITY);
    }
  }

  /** On a decoded message the byte cast of a static index loses nothing. */
  lemma CastIsLossless(m: DecodedMessage, k: Key)
    requires WellDecoded(m) && k in m.keys
    ensures StaticIndex(m.keys, k) == IndexOf(m.keys, k)
  {
  }

  lemma WritableAgrees(m: DecodedMessage, index: byte)
    requires WellDecoded(m) && index < |m.keys|
    ensures StaticKeyIsWritable(m, index) <==> InWritableRegion(m, index)
  {
  }

  /** Counting once what was counted means standing at one place. */
  lemma CountedIsSole(ixs: seq<DecodedInstruction>, v: byte, j: nat, p: nat)
    requires References(ixs, v) == 1
    requires j < |ixs| && p < |ixs[j].accounts| && ixs[j].accounts[p] == v
    ensures SoleReference(ixs, v, j, p)
  {
    assert Refs(ixs[j])[1 + p] == v;
    forall i | 0 <= i < |ixs|
      ensures ixs[i].program != v
    {
      if ixs[i].program == v {
        ReferencedAtOnePlace(ixs, v, i, 0, j, 1 + p);
      }
    }
    forall i, q | 0 <= i < |ixs| && 0 <= q < |ixs[i].accounts|
      ensures ixs[i].accounts[q] == v <==> i == j && q == p
    {
      if ixs[i].accounts[q] == v {
        assert Refs(ixs[i])[1 + q] == v;
        ReferencedAtOnePlace(ixs, v, i, 1 + q, j, 1 + p);
      }
    }
  }

  lemma OnceInSequence(s: bytes, p: nat)
    requires p < |s| && forall q :: 0 <= q < |s| && q != p ==> s[q] != s[p]
    ensures multiset(s)[s[p]] == 1
  {
    assert s == s[..p] + [s[p]] + s[p + 1..];
    assert s[p] !in s[..p] && s[p] !in s[p + 1..];
    assert multiset(s) == multiset(s[..p]) + multiset([s[p]]) + multiset(s[p + 1..]);
  }

  lemma {:induction false} SumOfOne(s: seq<nat>, j: nat)
    requires j < |s| && s[j] == 1
    requires forall i :: 0 <= i < |s| && i != j ==> s[i] == 0
    ensures SumOf(s) == 1
  {
    var last := |s| - 1;
    if j < last {
      SumOfOne(s[..last], j);
    } else {
      SumOfNone(s[..last]);
    }
  }

  lemma {:induction false} SumOfNone(s: seq<nat>)
    requires forall i :: 0 <= i < |s| ==> s[i] == 0
    ensures SumOf(s) == 0
  {
    if s != [] {
      SumOfNone(s[..|s| - 1]);
    }
  }

  /** Conversely, what stands at one place is counted once. */
  lemma SoleIsCounted(ixs: seq<DecodedInstruction>, v: byte, j: nat, p: nat)
    requires SoleReference(ixs, v, j, p)
    ensures References(ixs, v) == 1
  {
    var counts := RefCounts(ixs, v);
    forall i | 0 <= i < |ixs|
      ensures counts[i] == if i == j then 1 else 0
    {
      var refs := Refs(ixs[i]);
      if i == j {
        OnceInSequence(refs, 1 + p);
      } else {
        assert v !in refs;
      }
    }
    SumOfOne(counts, j);
  }

  /** A key's byte index is its one position. */
  lemma SoleIsOnce(m: DecodedMessage, k: Key, i: nat)
    requires WellDecoded(m)
    ensures SoleKey(m.keys, k, i) <==> OccursOnce(m.keys, k) && i == StaticIndex(m.keys, k)
  {
    if SoleKey(m.keys, k, i) {
      OnlyPosition(m.keys, k, i);
    }
    if OccursOnce(m.keys, k) && i == StaticIndex(m.keys, k) {
      CastIsLossless(m, k);
      forall p | 0 <= p < |m.keys| && p != i
        ensures m.keys[p] != k
      {
        if m.keys[p] == k {
          OnlyPosition(m.keys, k, p);
        }
      }
    }
  }

  lemma CertifiedKeyPolicy(m: DecodedMessage, maker: MakerAccounts, rep: Report)
    requires WellDecoded(m) && CertifiedKeys(m, maker, rep)
    ensures KeyPolicy(m, maker, rep)
  {
    hide WellDecoded, OccursOnce, StaticIndex, References, StaticKeyIsWritable, InWritableRegion;
    SoleIsOnce(m, maker.fillAuthority, rep.fillAuthority);
    SoleIsOnce(m, maker.makerBase, rep.makerBase);
    SoleIsOnce(m, maker.makerQuote, rep.makerQuote);
    SoleIsOnce(m, RFQ_V2_PROGRAM_ID, rep.rfqProgram);
    WritableAgrees(m, rep.makerBase);
    WritableAgrees(m, rep.makerQuote);
  }

  lemma CertifiedLegPolicy(m: DecodedMessage, maker: MakerAccounts, rep: Report, j: nat)
    requires CertifiedKeys(m, maker, rep) && j < |m.instructions| && LegOf(m, maker, j, rep.legOffset)
    ensures LegPolicy(m, rep, j, rep.legOffset)
  {
    hide OccursOnce, StaticIndex, References, SoleReference;
    var o := rep.legOffset;
    CountedIsSole(m.instructions, rep.rfqProgram, j, o);
    CountedIsSole(m.instructions, rep.fillAuthority, j, o + 4);
    CountedIsSole(m.instructions, rep.makerBase, j, o + 5);
    CountedIsSole(m.instructions, rep.makerQuote, j, o + 6);
  }

  lemma CertifiedIsPolicy(m: DecodedMessage, maker: MakerAccounts, rep: Report, j: nat)
    requires WellDecoded(m) && Certified(m, maker, rep, j)
    ensures Policy(m, maker, rep)
  {
    hide CertifiedKeys, KeyPolicy, LegPolicy, LegOf, OnlyFillIn, AllFills;
    assert rep.instructionIndex == j by {
      assert InstructionInRange(m.instructions[j], j, TotalAccounts(m));
    }
    CertifiedKeyPolicy(m, maker, rep);
    CertifiedLegPolicy(m, maker, rep, j);
    FillHolder(m, j);
    SingleFillExact(m);
  }

  lemma PolicyKeyOnce(m: DecodedMessage, k: Key, v: byte, j: nat, p: nat)
    requires WellDecoded(m) && SoleKey(m.keys, k, v) && SoleReference(m.instructions, v, j, p)
    ensures k in m.keys && StaticAndReferencedOnce(m, k) && StaticIndex(m.keys, k) == IndexOf(m.keys, k) == v
    ensures p < |m.instructions[j].accounts| && m.instructions[j].accounts[p] == v
  {
    SoleIsOnce(m, k, v);
    CastIsLossless(m, k);
    SoleIsCounted(m.instructions, v, j, p);
  }

  lemma PolicyKeysAcceptable(m: DecodedMessage, maker: MakerAccounts, rep: Report, j: nat, o: nat)
    requires WellDecoded(m) && KeyPolicy(m, maker, rep) && LegPolicy(m, rep, j, o)
    ensures AcceptableKeys(m, maker) && AllStatic(m, maker) && LegOf(m, maker, j, o)
  {
    hide WellDecoded, References, OccursOnce, IndexOf, StaticIndex, SoleKey, SoleReference, InWritableRegion;
    PolicyKeyOnce(m, RFQ_V2_PROGRAM_ID, rep.rfqProgram, j, o);
    PolicyKeyOnce(m, maker.fillAuthority, rep.fillAuthority, j, o + 4);
    PolicyKeyOnce(m, maker.makerBase, rep.makerBase, j, o + 5);
    PolicyKeyOnce(m, maker.makerQuote, rep.makerQuote, j, o + 6);
  }

  lemma PolicyIsAcceptable(m: DecodedMessage, maker: MakerAccounts, rep: Report)
    requires WellDecoded(m) && Policy(m, maker, rep)
    ensures Acceptable(m, maker)
  {
    var j, o := rep.instructionIndex, rep.legOffset;
    var f :| OnlyFillIn(m, j, f);
    SingleFillIs(m, f);
    assert j < |m.instructions| && m.instructions[j].fills != [] && SingleFill(m).Ok?;
    hide WellDecoded, AcceptableKeys, KeyPolicy, LegPolicy, FillPolicy, SingleFill, LegOf;
    PolicyKeysAcceptable(m, maker, rep, j, o);
  }

  lemma SingleFillHasOrLacksLeg(m: DecodedMessage, maker: MakerAccounts)
    requires AllStatic(m, maker) && SingleFill(m).Ok?
    ensures !(HasLeg(m, maker) && LacksLeg(m, maker))
  {
    if HasLeg(m, maker) && LacksLeg(m, maker) {
      var i: nat, o: nat :| i < |m.instructions| && m.instructions[i].fills != [] && LegOf(m, maker, i, o);
      var j: nat :| j < |m.instructions| && m.instructions[j].fills != [] && forall p: nat :: !LegOf(m, maker, j, p);
      FillInstructionUnique(m.instructions, i, j);
    }
  }

  lemma AcceptableIsWritable(m: DecodedMessage, maker: MakerAccounts)
    requires WellDecoded(m) && AcceptableKeys(m, maker)
    ensures StaticKeyIsWritable(m, StaticIndex(m.keys, maker.makerBase))
    ensures StaticKeyIsWritable(m, StaticIndex(m.keys, maker.makerQuote))
    ensures StaticIndex(m.keys, maker.fillAuthority) < m.header.required
  {
    CastIsLossless(m, maker.fillAuthority);
    CastIsLossless(m, maker.makerBase);
    CastIsLossless(m, maker.makerQuote);
    WritableAgrees(m, StaticIndex(m.keys, maker.makerBase));
    WritableAgrees(m, StaticIndex(m.keys, maker.makerQuote));
  }

  lemma AcceptableKeysExclude(m: DecodedMessage, maker: MakerAccounts, e: ValidationError)
    requires WellDecoded(m) && AcceptableKeys(m, maker)
    requires !e.FillCount? && !e.LegNotFound? && !e.MultipleLegMatches?
    ensures !Explains(m, maker, e)
  {
    hide WellDecoded, IndexOf, StaticIndex, References, StaticKeyIsWritable, InWritableRegion;
    AcceptableIsWritable(m, maker);
  }

  lemma AcceptableIsNotRejected(m: DecodedMessage, maker: MakerAccounts, e: ValidationError)
    requires WellDecoded(m) && Acceptable(m, maker)
    ensures !Explains(m, maker, e)
  {
    match e {
      case LegNotFound => SingleFillHasOrLacksLeg(m, maker);
      case MultipleLegMatches => MultipleLegsImpossible(m, maker);
      case FillCount(_) =>
      case _ => AcceptableKeysExclude(m, maker, e);
    }
  }

  /**
    The validator accepts a decoded message exactly when it meets the signing policy, and then its
    report names the witnesses; an error is the first check that fails.
   */
  method ValidateMakerAccounts(m: DecodedMessage, maker: MakerAccounts) returns (r: Result<Report, ValidationError>)
    ensures WellDecoded(m) ==> (r.Ok? <==> exists rep :: Policy(m, maker, rep))
    ensures WellDecoded(m) && r.Ok? ==> Policy(m, maker, r.value)
    ensures r.Ok? ==> exists j :: Certified(m, maker, r.value, j)
    ensures r.Err? ==> FirstFailure(m, maker, r.error) && r.error != MultipleLegMatches
  {
    hide WellDecoded, Certified, Policy, Explains, PassesBefore;
    r := CheckMakerAccounts(m, maker);
    MultipleLegsImpossible(m, maker);
    if WellDecoded(m) {
      if r.Ok? {
        ghost var j :| Certified(m, maker, r.value, j);
        CertifiedIsPolicy(m, maker, r.value, j);
      } else if rep :| Policy(m, maker, rep) {
        PolicyIsAcceptable(m, maker, rep);
        AcceptableIsNotRejected(m, maker, r.error);
      }
    }
  }
}
