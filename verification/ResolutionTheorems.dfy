/**
  What the validator's verdict means once lookup tables are resolved. The tables are arbitrary: the
  only fact used is the runtime's rule that a loaded key never repeats a static one.
 */
module ResolutionTheorems {
  import opened Common
  import opened Wire
  import opened Routes
  import opened Decoded
  import opened Exclusivity
  import opened PipelineTheorems
  import RouteTheorems
  import Settlement
  import SettlementTheorems
  import Ladder

  /** Keys the runtime could load for the message's lookups without rejecting it for a duplicate. */
  ghost predicate Loadable(m: DecodedMessage, loaded: seq<Key>) {
    && |loaded| == m.loadedWritable + m.loadedReadonly
    && forall k :: k in loaded ==> k !in m.keys
  }

  /** The key an index stands for once tables are loaded. */
  function Resolve(m: DecodedMessage, loaded: seq<Key>, index: byte): Key
    requires index < |m.keys| + |loaded|
  {
    (m.keys + loaded)[index]
  }

  // ---------------------------------------------------------------- where a key occurs

  /** A place that names an account: the program of an instruction or one of its accounts. */
  datatype Place = ProgramOf(j: nat) | AccountOf(j: nat, q: nat)

  predicate InMessage(m: DecodedMessage, place: Place) {
    && place.j < |m.instructions|
    && (place.AccountOf? ==> place.q < |m.instructions[place.j].accounts|)
  }

  function IndexAt(m: DecodedMessage, place: Place): byte
    requires InMessage(m, place)
  {
    match place
    case ProgramOf(j) => m.instructions[j].program
    case AccountOf(j, q) => m.instructions[j].accounts[q]
  }

  /** The place stands for key `k` once tables are loaded. */
  ghost predicate ResolvesTo(m: DecodedMessage, loaded: seq<Key>, place: Place, k: Key) {
    && InMessage(m, place)
    && IndexAt(m, place) < |m.keys| + |loaded|
    && Resolve(m, loaded, IndexAt(m, place)) == k
  }

  /** Of all program ids and accounts in the message, the key is the one at `place` and no other. */
  ghost predicate OccursOnlyAt(m: DecodedMessage, loaded: seq<Key>, k: Key, place: Place) {
    forall p: Place :: ResolvesTo(m, loaded, p, k) <==> p == place
  }

  /** Some place reaches a loaded account that is the key. */
  ghost predicate LoadedAndReferenced(m: DecodedMessage, loaded: seq<Key>, k: Key) {
    exists p: Place :: ResolvesTo(m, loaded, p, k) && IndexAt(m, p) >= |m.keys|
  }

  lemma StaticPlaceDecides(m: DecodedMessage, loaded: seq<Key>, k: Key, v: byte, j: nat, q: nat, p: Place)
    requires SoleKey(m.keys, k, v) && SoleReference(m.instructions, v, j, q)
    requires InMessage(m, p) && IndexAt(m, p) < |m.keys|
    ensures ResolvesTo(m, loaded, p, k) <==> p == AccountOf(j, q)
  {
  }

  lemma SoleResolves(m: DecodedMessage, loaded: seq<Key>, k: Key, v: byte, j: nat, q: nat)
    requires SoleKey(m.keys, k, v) && SoleReference(m.instructions, v, j, q)
    ensures OccursOnlyAt(m, loaded, k, AccountOf(j, q)) <==> !LoadedAndReferenced(m, loaded, k)
  {
    assert InMessage(m, AccountOf(j, q)) && IndexAt(m, AccountOf(j, q)) < |m.keys|;
    forall p: Place | InMessage(m, p) && IndexAt(m, p) < |m.keys|
      ensures ResolvesTo(m, loaded, p, k) <==> p == AccountOf(j, q)
    {
      StaticPlaceDecides(m, loaded, k, v, j, q, p);
    }
  }

  lemma ReferencedIsLoaded(m: DecodedMessage, loaded: seq<Key>, k: Key)
    requires LoadedAndReferenced(m, loaded, k)
    ensures k in loaded
  {
    var p: Place :| ResolvesTo(m, loaded, p, k) && IndexAt(m, p) >= |m.keys|;
    assert loaded[IndexAt(m, p) - |m.keys|] == k;
  }

  /** The runtime's rule keeps a static key out of the loaded accounts. */
  lemma NeverLoaded(m: DecodedMessage, loaded: seq<Key>, k: Key)
    requires Loadable(m, loaded) && k in m.keys
    ensures !LoadedAndReferenced(m, loaded, k)
  {
    if LoadedAndReferenced(m, loaded, k) {
      ReferencedIsLoaded(m, loaded, k);
    }
  }

  /**
    Exactly how much the no-duplicates rule carries: over unrestricted table contents each maker key
    and the RFQ program stands only in its slot of the reported leg if and only if no place reaches
    a loaded copy of it.
   */
  lemma OnlyInLegExactly(m: DecodedMessage, maker: MakerAccounts, rep: Report, loaded: seq<Key>)
    requires Policy(m, maker, rep)
    ensures var j, o := rep.instructionIndex, rep.legOffset;
            && (OccursOnlyAt(m, loaded, RFQ_V2_PROGRAM_ID, AccountOf(j, o))
                <==> !LoadedAndReferenced(m, loaded, RFQ_V2_PROGRAM_ID))
            && (OccursOnlyAt(m, loaded, maker.fillAuthority, AccountOf(j, o + 4))
                <==> !LoadedAndReferenced(m, loaded, maker.fillAuthority))
            && (OccursOnlyAt(m, loaded, maker.makerBase, AccountOf(j, o + 5))
                <==> !LoadedAndReferenced(m, loaded, maker.makerBase))
            && (OccursOnlyAt(m, loaded, maker.makerQuote, AccountOf(j, o + 6))
                <==> !LoadedAndReferenced(m, loaded, maker.makerQuote))
  {
    hide SoleKey, SoleReference, OccursOnlyAt, LoadedAndReferenced;
    var j, o := rep.instructionIndex, rep.legOffset;
    SoleResolves(m, loaded, RFQ_V2_PROGRAM_ID, rep.rfqProgram, j, o);
    SoleResolves(m, loaded, maker.fillAuthority, rep.fillAuthority, j, o + 4);
    SoleResolves(m, loaded, maker.makerBase, rep.makerBase, j, o + 5);
    SoleResolves(m, loaded, maker.makerQuote, rep.makerQuote, j, o + 6);
  }

  /**
    For every content of the lookup tables, each maker key and the RFQ program occurs at exactly one
    place among all resolved program ids and accounts: its slot of the reported leg.
   */
  lemma OnlyInItsLegSlot(m: DecodedMessage, maker: MakerAccounts, rep: Report, loaded: seq<Key>)
    requires Policy(m, maker, rep) && Loadable(m, loaded)
    ensures OccursOnlyAt(m, loaded, RFQ_V2_PROGRAM_ID, AccountOf(rep.instructionIndex, rep.legOffset))
    ensures OccursOnlyAt(m, loaded, maker.fillAuthority, AccountOf(rep.instructionIndex, rep.legOffset + 4))
    ensures OccursOnlyAt(m, loaded, maker.makerBase, AccountOf(rep.instructionIndex, rep.legOffset + 5))
    ensures OccursOnlyAt(m, loaded, maker.makerQuote, AccountOf(rep.instructionIndex, rep.legOffset + 6))
  {
    OnlyInLegExactly(m, maker, rep, loaded);
    hide OccursOnlyAt, LoadedAndReferenced, LegPolicy, FillPolicy;
    NeverLoaded(m, loaded, RFQ_V2_PROGRAM_ID);
    NeverLoaded(m, loaded, maker.fillAuthority);
    NeverLoaded(m, loaded, maker.makerBase);
    NeverLoaded(m, loaded, maker.makerQuote);
  }

  // ---------------------------------------------------------------- the on-chain scan

  function ResolveInstruction(m: DecodedMessage, loaded: seq<Key>, ix: DecodedInstruction): Settlement.SysInstruction
    requires ix.program < |m.keys| + |loaded| && IndicesBelow(ix.accounts, |m.keys| + |loaded|)
  {
    Settlement.SysInstruction(
      Resolve(m, loaded, ix.program),
      seq(|ix.accounts|, q requires 0 <= q < |ix.accounts| => Resolve(m, loaded, ix.accounts[q])))
  }

  /** The instructions sysvar of the resolved transaction. */
  function ToSysvar(m: DecodedMessage, loaded: seq<Key>): seq<Settlement.SysInstruction>
    requires forall j :: 0 <= j < |m.instructions| ==> InstructionInRange(m.instructions[j], j, |m.keys| + |loaded|)
  {
    seq(|m.instructions|, j requires
        0 <= j < |m.instructions| && InstructionInRange(m.instructions[j], j, |m.keys| + |loaded|) =>
      ResolveInstruction(m, loaded, m.instructions[j]))
  }

  lemma SysvarAccount(m: DecodedMessage, loaded: seq<Key>, i: nat, q: nat)
    requires forall j :: 0 <= j < |m.instructions| ==> InstructionInRange(m.instructions[j], j, |m.keys| + |loaded|)
    requires i < |m.instructions| && q < |ToSysvar(m, loaded)[i].accounts|
    ensures ResolvesTo(m, loaded, AccountOf(i, q), ToSysvar(m, loaded)[i].accounts[q])
  {
    assert InstructionInRange(m.instructions[i], i, |m.keys| + |loaded|);
    assert ToSysvar(m, loaded)[i] == ResolveInstruction(m, loaded, m.instructions[i]);
  }

  lemma OccursElsewhere(m: DecodedMessage, loaded: seq<Key>, k: Key, x: Key, place: Place, other: Place)
    requires OccursOnlyAt(m, loaded, k, place) && other != place && ResolvesTo(m, loaded, other, x)
    ensures x != k
  {
  }

  /** Whatever the tables hold, the other instructions of a validated message name none of the maker's accounts. */
  lemma ValidatedPassesOnChain(m: DecodedMessage, maker: MakerAccounts, rep: Report, loaded: seq<Key>, i: nat, q: nat)
    requires WellDecoded(m) && Policy(m, maker, rep) && Loadable(m, loaded)
    requires i < |m.instructions| && q < |ToSysvar(m, loaded)[i].accounts| && i != rep.instructionIndex
    ensures ToSysvar(m, loaded)[i].accounts[q] !in {maker.fillAuthority, maker.makerBase, maker.makerQuote}
  {
    SysvarAccount(m, loaded, i, q);
    OnlyInItsLegSlot(m, maker, rep, loaded);
    hide WellDecoded, Policy, Loadable, OccursOnlyAt, ResolvesTo;
    var f, o, x := rep.instructionIndex, rep.legOffset, ToSysvar(m, loaded)[i].accounts[q];
    OccursElsewhere(m, loaded, maker.fillAuthority, x, AccountOf(f, o + 4), AccountOf(i, q));
    OccursElsewhere(m, loaded, maker.makerBase, x, AccountOf(f, o + 5), AccountOf(i, q));
    OccursElsewhere(m, loaded, maker.makerQuote, x, AccountOf(f, o + 6), AccountOf(i, q));
  }

  /** A fill run as the reported instruction of a validated message is never turned away over the maker's accounts. */
  lemma ValidatedFillNotBlocked(
      m: DecodedMessage, maker: MakerAccounts, rep: Report, loaded: seq<Key>, fill: Settlement.Fill)
    requires WellDecoded(m) && Policy(m, maker, rep) && Loadable(m, loaded)
    requires fill.siblings == ToSysvar(m, loaded) && fill.current == rep.instructionIndex
    requires fill.fillAuthority == maker.fillAuthority
    requires fill.makerBase == maker.makerBase && fill.makerQuote == maker.makerQuote
    ensures Settlement.Quote(fill) != Err(Ladder.MakerAppearsInOtherInstruction)
  {
    hide WellDecoded, Policy, Loadable, Settlement.Quote;
    forall i, q | 0 <= i < |fill.siblings| && i != fill.current && 0 <= q < |fill.siblings[i].accounts|
      ensures fill.siblings[i].accounts[q] !in {fill.fillAuthority, fill.makerBase, fill.makerQuote}
    {
      ValidatedPassesOnChain(m, maker, rep, loaded, i, q);
    }
    if Settlement.Quote(fill) == Err(Ladder.MakerAppearsInOtherInstruction) {
      SettlementTheorems.RefusedOverMaker(fill);
    }
  }

  // ---------------------------------------------------------------- from bytes to the fill

  /**
    A message that passes the validator carries exactly one RFQ leg: the reported instruction is a
    statically named aggregator swap whose data is the encoding of a route list with that one
    valid leg, no other instruction has one, and no call of the aggregator is one whose legs cannot
    be read.
   */
  lemma ValidatedCarriesOneLeg(m: DecodedMessage, maker: MakerAccounts, rep: Report)
    returns (fill: DecodedFill, args: RouteTheorems.WireArgs, suffix: bytes)
    requires FillsAttached(m) && Policy(m, maker, rep)
    ensures var f := rep.instructionIndex;
            && OnlyFillIn(m, f, fill) && SingleFill(m) == Ok(fill)
            && CallsAggregator(m, f)
            && |m.instructions[f].data| >= 8 && m.instructions[f].data[..8] in CONCRETE
            && RouteTheorems.ArgsAllowed(args)
            && m.instructions[f].data == m.instructions[f].data[..8] + RouteTheorems.PutArgs(args, suffix)
            && RouteTheorems.QuotedLegs(args.routes) == [fill]
    ensures forall j :: 0 <= j < |m.instructions| && CallsAggregator(m, j) && |m.instructions[j].data| >= 8 ==>
                          m.instructions[j].data[..8] !in UNSUPPORTED
  {
    hide KeyPolicy, LegPolicy;
    var f := rep.instructionIndex;
    fill :| OnlyFillIn(m, f, fill);
    SingleFillIs(m, fill);
    hide SingleFill, DecodeLegs, RouteTheorems.PutArgs, RouteTheorems.ArgsAllowed;
    FillsComeFromSwaps(m, f);
    args, suffix := RouteTheorems.LegsSound(m.instructions[f].data);
    forall j | 0 <= j < |m.instructions| && CallsAggregator(m, j) && |m.instructions[j].data| >= 8
      ensures m.instructions[j].data[..8] !in UNSUPPORTED
    {
      FillsComeFromSwaps(m, j);
    }
  }
}
