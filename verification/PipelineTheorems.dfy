/**
  What the two decoding entry points return: everything the parser read, in order, with the RFQ legs
  of every swap attached and nothing attached elsewhere, or the first thing that is wrong.
 */
module PipelineTheorems {
  import opened Common
  import opened Bytes
  import opened Wire
  import opened Routes
  import opened Decoded
  import opened Pipeline
  import RouteTheorems

  /** The instruction names the aggregator, production or staging, by a static key. */
  ghost predicate CallsAggregator(m: DecodedMessage, j: nat)
    requires j < |m.instructions|
  {
    && m.instructions[j].program < |m.keys|
    && m.keys[m.instructions[j].program] in {DEX_SOLANA_V3_PROGRAM_ID, DEX_SOLANA_V3_PROGRAM_ID_STAGING}
  }

  /** Every aggregator instruction has what its data decodes to, and every other one has nothing. */
  ghost predicate FillsAttached(m: DecodedMessage) {
    forall j :: 0 <= j < |m.instructions| ==>
      (m.instructions[j].entrypoint, m.instructions[j].fills)
      == if CallsAggregator(m, j) then DecodeLegs(m.instructions[j].data) else (None, [])
  }

  /** Decoding and attaching lose nothing of the parsed message and add exactly the fills. */
  lemma AttachedExact(parsed: Message)
    ensures DecodesTo(parsed, DecodeAndAttach(parsed))
    ensures DecodeAndAttach(parsed).Ok? ==> FillsAttached(DecodeAndAttach(parsed).value)
  {
    hide HeaderFits, AddressSpace, IndicesFit, DecodeLegs, WritableLoads, ReadonlyLoads;
    DecodeMessageExact(parsed);
    if DecodeMessage(parsed).Ok? {
      DecodeMessageSound(parsed);
      AttachCarries(DecodeMessage(parsed).value, parsed);
    }
  }

  lemma AttachCarries(d: DecodedMessage, parsed: Message)
    requires Carries(d, parsed)
    requires forall j :: 0 <= j < |d.instructions| ==>
               d.instructions[j].fills == [] && d.instructions[j].entrypoint == None
    ensures Carries(Attach(d), parsed) && FillsAttached(Attach(d))
  {
    hide WritableLoads, ReadonlyLoads, SumOf, DecodeLegs;
  }

  /** A message input decodes to what its parse carries, or fails with the first error. */
  lemma DecodeMessageBytesExact(b: bytes)
    ensures match ParseMessage(b)
            case Err(e) => DecodeMessageBytes(b) == Err(e)
            case Ok(parsed) =>
              && DecodesTo(parsed, DecodeMessageBytes(b))
              && (DecodeMessageBytes(b).Ok? ==> FillsAttached(DecodeMessageBytes(b).value))
  {
    hide ParseMessage, DecodesTo, FillsAttached;
    if ParseMessage(b).Ok? {
      AttachedExact(ParseMessage(b).value);
    }
  }

  /** A transaction input keeps its signatures too, one for each that the header requires. */
  lemma DecodeTransactionBytesExact(b: bytes)
    ensures match ParseTransaction(b)
            case Err(e) => DecodeTransactionBytes(b) == Err(e)
            case Ok(parsed) =>
              if |parsed.signatures| != parsed.message.header.required then
                DecodeTransactionBytes(b) == Err(WireError.Other(SignatureCountMismatch))
              else
                match DecodeTransactionBytes(b)
                case Err(e) => DecodesTo(parsed.message, Err(e))
                case Ok(t) =>
                  && t.signatures == parsed.signatures
                  && DecodesTo(parsed.message, Ok(t.message))
                  && FillsAttached(t.message)
  {
    hide ParseTransaction, DecodesTo, FillsAttached;
    if ParseTransaction(b).Ok? {
      AttachedExact(ParseTransaction(b).value.message);
    }
  }

  /** What decodes keeps the message invariant. */
  lemma CarriedIsWellDecoded(parsed: Message, d: DecodedMessage)
    requires DecodesTo(parsed, Ok(d))
    ensures WellDecoded(d)
  {
    hide SumOf, WritableLoads, ReadonlyLoads;
    forall j | 0 <= j < |d.instructions|
      ensures InstructionInRange(d.instructions[j], j, TotalAccounts(d))
    {
      assert CarriesInstruction(d.instructions[j], j, parsed.instructions[j]);
    }
  }

  /** Both entry points return messages that keep the decoding invariants. */
  lemma DecodedInputsAreWellDecoded(b: bytes)
    ensures DecodeMessageBytes(b).Ok? ==>
              WellDecoded(DecodeMessageBytes(b).value) && FillsAttached(DecodeMessageBytes(b).value)
    ensures DecodeTransactionBytes(b).Ok? ==>
              && WellDecoded(DecodeTransactionBytes(b).value.message)
              && FillsAttached(DecodeTransactionBytes(b).value.message)
              && |DecodeTransactionBytes(b).value.signatures| == DecodeTransactionBytes(b).value.message.header.required
  {
    DecodeMessageBytesExact(b);
    DecodeTransactionBytesExact(b);
    hide ParseMessage, ParseTransaction, DecodeMessageBytes, DecodeTransactionBytes, WellDecoded, FillsAttached;
    if DecodeMessageBytes(b).Ok? {
      CarriedIsWellDecoded(ParseMessage(b).value, DecodeMessageBytes(b).value);
    }
    if DecodeTransactionBytes(b).Ok? {
      CarriedIsWellDecoded(ParseTransaction(b).value.message, DecodeTransactionBytes(b).value.message);
    }
  }

  /** An instruction carries fills only as a statically named swap of a supported entrypoint. */
  lemma FillsComeFromSwaps(m: DecodedMessage, j: nat)
    requires FillsAttached(m) && j < |m.instructions|
    ensures m.instructions[j].fills != [] ==>
              CallsAggregator(m, j) && m.instructions[j].entrypoint == Some(Concrete)
    ensures m.instructions[j].entrypoint == Some(Unsupported) <==>
            && CallsAggregator(m, j)
            && |m.instructions[j].data| >= 8 && m.instructions[j].data[..8] in UNSUPPORTED
  {
    hide DecodeLegs;
    RouteTheorems.UnsupportedByDiscriminator(m.instructions[j].data);
  }
}
