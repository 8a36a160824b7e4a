/** Decoded messages: the header and index checks, and the fills attached to swap instructions. */
module Decoded {
  import opened Common
  import opened Bytes
  import opened Wire
  import opened Routes

  const MAX_ACCOUNT_KEYS := 256

  datatype DecodedInstruction = DecodedInstruction(
    index: nat, program: byte, accounts: bytes, data: bytes,
    fills: seq<DecodedFill>, entrypoint: Option<EntrypointKind>)

  datatype DecodedMessage = DecodedMessage(
    version: Version, header: Header, config: Option<Config>, blockhash: Key, keys: seq<Key>,
    instructions: seq<DecodedInstruction>, lookups: seq<Lookup>,
    loadedWritable: nat, loadedReadonly: nat)

  datatype DecodedTransaction = DecodedTransaction(signatures: seq<Signature>, message: DecodedMessage)

  datatype FillCountError = NotFound | Multiple(count: nat) | UnsupportedEntrypoint

  // ---------------------------------------------------------------- decoding

  function SaturatingSub(a: nat, b: nat): nat {
    if a < b then 0 else a - b
  }

  function WritableCount(lookups: seq<Lookup>): nat {
    if lookups == [] then 0 else |lookups[0].writable| + WritableCount(lookups[1..])
  }

  function ReadonlyCount(lookups: seq<Lookup>): nat {
    if lookups == [] then 0 else |lookups[0].readonly| + ReadonlyCount(lookups[1..])
  }

  function BuildInstruction(index: nat, ix: CompiledInstruction, total: nat): Result<DecodedInstruction, WireError> {
    if ix.program >= total || !IndicesBelow(ix.accounts, total) then Err(WireError.Other(IndexOutOfRange))
    else Ok(DecodedInstruction(index, ix.program, ix.accounts, ix.data, [], None))
  }

  function BuildInstructions(index: nat, ixs: seq<CompiledInstruction>, total: nat)
    : Result<seq<DecodedInstruction>, WireError>
    decreases ixs
  {
    if ixs == [] then Ok([])
    else
      var head :- BuildInstruction(index, ixs[0], total);
      var tail :- BuildInstructions(index + 1, ixs[1..], total);
      Ok([head] + tail)
  }

  function DecodeMessage(m: Message): Result<DecodedMessage, WireError> {
    if m.header.required > |m.keys|
       || m.header.readonlySigned > m.header.required
       || m.header.readonlyUnsigned > SaturatingSub(|m.keys|, m.header.required)
    then Err(WireError.Other(InvalidMessageHeader))
    else
      var loadedWritable := WritableCount(m.lookups);
      var loadedReadonly := ReadonlyCount(m.lookups);
      var total := |m.keys| + loadedWritable + loadedReadonly;
      if total > MAX_ACCOUNT_KEYS then Err(WireError.Other(TooManyAccountKeys))
      else
        var instructions :- BuildInstructions(0, m.instructions, total);
        Ok(DecodedMessage(m.version, m.header, m.config, m.blockhash, m.keys, instructions, m.lookups,
                          loadedWritable, loadedReadonly))
  }

  function DecodeTransaction(t: Transaction): Result<DecodedTransaction, WireError> {
    if |t.signatures| != t.message.header.required then Err(WireError.Other(SignatureCountMismatch))
    else
      var message :- DecodeMessage(t.message);
      Ok(DecodedTransaction(t.signatures, message))
  }

  function TotalAccounts(m: DecodedMessage): nat {
    |m.keys| + m.loadedWritable + m.loadedReadonly
  }

  /** What every decoded message satisfies, fills attached or not. */
  ghost predicate WellDecoded(m: DecodedMessage) {
    && TotalAccounts(m) <= MAX_ACCOUNT_KEYS
    && m.header.required <= |m.keys|
    && m.header.readonlySigned <= m.header.required
    && m.header.required + m.header.readonlyUnsigned <= |m.keys|
    && forall j :: 0 <= j < |m.instructions| ==> InstructionInRange(m.instructions[j], j, TotalAccounts(m))
  }

  predicate InstructionInRange(ix: DecodedInstruction, position: nat, total: nat) {
    ix.index == position && ix.program < total && IndicesBelow(ix.accounts, total)
  }

  lemma {:induction false} BuildInstructionsSound(index: nat, ixs: seq<CompiledInstruction>, total: nat)
    requires BuildInstructions(index, ixs, total).Ok?
    ensures var built := BuildInstructions(index, ixs, total).value;
            && |built| == |ixs|
            && forall j :: 0 <= j < |ixs| ==>
                 && built[j] == DecodedInstruction(index + j, ixs[j].program, ixs[j].accounts, ixs[j].data, [], None)
                 && InstructionInRange(built[j], index + j, total)
    decreases ixs
  {
    if ixs != [] {
      BuildInstructionsSound(index + 1, ixs[1..], total);
    }
  }

  ghost function WritableLoads(lookups: seq<Lookup>): seq<nat> {
    seq(|lookups|, i requires 0 <= i < |lookups| => |lookups[i].writable|)
  }

  ghost function ReadonlyLoads(lookups: seq<Lookup>): seq<nat> {
    seq(|lookups|, i requires 0 <= i < |lookups| => |lookups[i].readonly|)
  }

  lemma {:induction false} LoadsAreCounted(lookups: seq<Lookup>)
    ensures WritableCount(lookups) == SumOf(WritableLoads(lookups))
    ensures ReadonlyCount(lookups) == SumOf(ReadonlyLoads(lookups))
  {
    if lookups != [] {
      LoadsAreCounted(lookups[1..]);
      SumOfHead(WritableLoads(lookups));
      SumOfHead(ReadonlyLoads(lookups));
      assert WritableLoads(lookups)[1..] == WritableLoads(lookups[1..]);
      assert ReadonlyLoads(lookups)[1..] == ReadonlyLoads(lookups[1..]);
    }
  }

  /** Static keys and loaded accounts together. */
  ghost function AddressSpace(m: Message): nat {
    |m.keys| + SumOf(WritableLoads(m.lookups)) + SumOf(ReadonlyLoads(m.lookups))
  }

  ghost predicate HeaderFits(m: Message) {
    && m.header.readonlySigned <= m.header.required
    && m.header.required + m.header.readonlyUnsigned <= |m.keys|
  }

  ghost predicate IndicesFit(m: Message) {
    forall j :: 0 <= j < |m.instructions| ==>
      && m.instructions[j].program < AddressSpace(m)
      && forall q :: 0 <= q < |m.instructions[j].accounts| ==> m.instructions[j].accounts[q] < AddressSpace(m)
  }

  /** The decoded message has every field of the parsed one, and its instructions in order and numbered. */
  ghost predicate Carries(d: DecodedMessage, m: Message) {
    && d.version == m.version && d.header == m.header && d.config == m.config && d.blockhash == m.blockhash
    && d.keys == m.keys && d.lookups == m.lookups
    && d.loadedWritable == SumOf(WritableLoads(m.lookups))
    && d.loadedReadonly == SumOf(ReadonlyLoads(m.lookups))
    && |d.instructions| == |m.instructions|
    && forall j :: 0 <= j < |m.instructions| ==> CarriesInstruction(d.instructions[j], j, m.instructions[j])
  }

  ghost predicate CarriesInstruction(d: DecodedInstruction, index: nat, ix: CompiledInstruction) {
    d.index == index && d.program == ix.program && d.accounts == ix.accounts && d.data == ix.data
  }

  /** What decoding a parsed message yields: all of it, or the first thing that is wrong. */
  ghost predicate DecodesTo(m: Message, r: Result<DecodedMessage, WireError>) {
    if !HeaderFits(m) then r == Err(WireError.Other(InvalidMessageHeader))
    else if AddressSpace(m) > 256 then r == Err(WireError.Other(TooManyAccountKeys))
    else if !IndicesFit(m) then r == Err(WireError.Other(IndexOutOfRange))
    else r.Ok? && Carries(r.value, m)
  }

  /** Decoding establishes the message invariant and attaches nothing by itself. */
  lemma DecodeMessageSound(m: Message)
    requires DecodeMessage(m).Ok?
    ensures var d := DecodeMessage(m).value;
            && WellDecoded(d)
            && Carries(d, m)
            && forall j :: 0 <= j < |d.instructions| ==>
                 d.instructions[j].fills == [] && d.instructions[j].entrypoint == None
  {
    LoadsAreCounted(m.lookups);
    hide SumOf, WritableLoads, ReadonlyLoads, WritableCount, ReadonlyCount;
    BuildInstructionsSound(0, m.instructions, AddressSpace(m));
  }

  lemma {:induction false} BuildInstructionsExact(index: nat, ixs: seq<CompiledInstruction>, total: nat)
    ensures var fit := forall j :: 0 <= j < |ixs| ==> ixs[j].program < total && IndicesBelow(ixs[j].accounts, total);
            if fit then BuildInstructions(index, ixs, total).Ok?
            else BuildInstructions(index, ixs, total) == Err(WireError.Other(IndexOutOfRange))
    decreases ixs
  {
    if ixs != [] {
      BuildInstructionsExact(index + 1, ixs[1..], total);
    }
  }

  /** Exactly which parsed messages decode, to what, and what is wrong with the others. */
  lemma DecodeMessageExact(m: Message)
    ensures DecodesTo(m, DecodeMessage(m))
  {
    LoadsAreCounted(m.lookups);
    hide SumOf, WritableLoads, ReadonlyLoads, WritableCount, ReadonlyCount;
    BuildInstructionsExact(0, m.instructions, AddressSpace(m));
    if DecodeMessage(m).Ok? {
      DecodeMessageSound(m);
    }
  }

  // ---------------------------------------------------------------- fills

  function AllFills(ixs: seq<DecodedInstruction>): seq<DecodedFill> {
    if ixs == [] then [] else ixs[0].fills + AllFills(ixs[1..])
  }

  predicate HasUnsupported(m: DecodedMessage) {
    exists j :: 0 <= j < |m.instructions| && m.instructions[j].entrypoint == Some(Unsupported)
  }

  function SingleFill(m: DecodedMessage): Result<DecodedFill, FillCountError> {
    if HasUnsupported(m) then Err(UnsupportedEntrypoint)
    else
      var fills := AllFills(m.instructions);
      if fills == [] then Err(NotFound)
      else if |fills| > 1 then Err(Multiple(|fills|))
      else Ok(fills[0])
  }

  ghost function FillCounts(ixs: seq<DecodedInstruction>): seq<nat> {
    seq(|ixs|, i requires 0 <= i < |ixs| => |ixs[i].fills|)
  }

  lemma {:induction false} FillsAreCounted(ixs: seq<DecodedInstruction>)
    ensures |AllFills(ixs)| == SumOf(FillCounts(ixs))
  {
    if ixs != [] {
      FillsAreCounted(ixs[1..]);
      SumOfHead(FillCounts(ixs));
      assert FillCounts(ixs)[1..] == FillCounts(ixs[1..]);
    }
  }

  /** No instruction uses an entrypoint whose legs cannot be read. */
  ghost predicate NoneUnsupported(m: DecodedMessage) {
    forall j :: 0 <= j < |m.instructions| ==> m.instructions[j].entrypoint != Some(Unsupported)
  }

  /** Instruction `j` has the one fill of the message. */
  ghost predicate OnlyFillIn(m: DecodedMessage, j: nat, f: DecodedFill) {
    && j < |m.instructions|
    && m.instructions[j].fills == [f]
    && forall i :: 0 <= i < |m.instructions| && i != j ==> m.instructions[i].fills == []
  }

  /** Each outcome of looking for the message's only fill, by its own condition. */
  lemma SingleFillExact(m: DecodedMessage)
    ensures SingleFill(m) == Err(UnsupportedEntrypoint) <==> !NoneUnsupported(m)
    ensures SingleFill(m) == Err(NotFound) <==>
            NoneUnsupported(m) && forall j :: 0 <= j < |m.instructions| ==> m.instructions[j].fills == []
    ensures forall n :: SingleFill(m) == Err(Multiple(n)) <==>
                        NoneUnsupported(m) && n == SumOf(FillCounts(m.instructions)) && n >= 2
    ensures forall f :: SingleFill(m) == Ok(f) <==> NoneUnsupported(m) && exists j :: OnlyFillIn(m, j, f)
  {
    FillsAreCounted(m.instructions);
    hide SumOf, FillCounts;
    if forall j :: 0 <= j < |m.instructions| ==> m.instructions[j].fills == [] {
      NoFills(m.instructions);
    }
    forall f
      ensures SingleFill(m) == Ok(f) <==> NoneUnsupported(m) && exists j :: OnlyFillIn(m, j, f)
    {
      SingleFillIs(m, f);
    }
    if j: nat :| j < |m.instructions| && m.instructions[j].fills != [] {
      FillInstructionUnique(m.instructions, j, j);
    }
  }

  lemma SingleFillIs(m: DecodedMessage, f: DecodedFill)
    ensures SingleFill(m) == Ok(f) <==> NoneUnsupported(m) && exists j :: OnlyFillIn(m, j, f)
  {
    hide AllFills;
    if SingleFill(m) == Ok(f) {
      var j := SomeInstructionHasFill(m.instructions);
      FillHolder(m, j);
    }
    if j: nat :| OnlyFillIn(m, j, f) {
      OnlyFills(m.instructions, j);
    }
  }

  /** The instruction with a fill has the only one. */
  lemma FillHolder(m: DecodedMessage, j: nat)
    requires SingleFill(m).Ok? && j < |m.instructions| && m.instructions[j].fills != []
    ensures OnlyFillIn(m, j, SingleFill(m).value)
  {
    hide AllFills;
    forall i | 0 <= i < |m.instructions| && i != j
      ensures m.instructions[i].fills == []
    {
      if m.instructions[i].fills != [] {
        FillInstructionUnique(m.instructions, j, i);
      }
    }
    OnlyFills(m.instructions, j);
  }

  /** A single fill sits in a single instruction. */
  lemma {:induction false} FillInstructionUnique(ixs: seq<DecodedInstruction>, i: nat, j: nat)
    requires i < |ixs| && j < |ixs| && ixs[i].fills != [] && ixs[j].fills != []
    ensures |AllFills(ixs)| >= |ixs[i].fills|
    ensures i != j ==> |AllFills(ixs)| >= |ixs[i].fills| + |ixs[j].fills|
    decreases ixs
  {
    if i > 0 && j > 0 {
      FillInstructionUnique(ixs[1..], i - 1, j - 1);
    } else if i > 0 {
      FillInstructionUnique(ixs[1..], i - 1, i - 1);
    } else if j > 0 {
      FillInstructionUnique(ixs[1..], j - 1, j - 1);
    }
  }

  lemma {:induction false} SomeInstructionHasFill(ixs: seq<DecodedInstruction>) returns (j: nat)
    requires AllFills(ixs) != []
    ensures j < |ixs| && ixs[j].fills != []
    decreases ixs
  {
    if ixs[0].fills != [] {
      j := 0;
    } else {
      j := SomeInstructionHasFill(ixs[1..]);
      j := j + 1;
    }
  }

  /** When one instruction holds every fill, its fills are all the fills. */
  lemma {:induction false} OnlyFills(ixs: seq<DecodedInstruction>, j: nat)
    requires j < |ixs|
    requires forall i :: 0 <= i < |ixs| && i != j ==> ixs[i].fills == []
    ensures AllFills(ixs) == ixs[j].fills
    decreases ixs
  {
    if j > 0 {
      OnlyFills(ixs[1..], j - 1);
    } else {
      NoFills(ixs[1..]);
    }
  }

  lemma {:induction false} NoFills(ixs: seq<DecodedInstruction>)
    requires forall i :: 0 <= i < |ixs| ==> ixs[i].fills == []
    ensures AllFills(ixs) == []
  {
    if ixs != [] {
      NoFills(ixs[1..]);
    }
  }
}
