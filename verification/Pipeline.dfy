/** From raw bytes to a decoded message with its fills attached. */
module Pipeline {
  import opened Common
  import opened Bytes
  import opened Wire
  import opened Routes
  import opened Decoded
  import WireParser
  import RouteReader

  const DEX_SOLANA_V3_PROGRAM_ID: Key := [
    0x0c, 0x42, 0x9b, 0xd7, 0xc1, 0x8f, 0x50, 0xf8, 0x15, 0x6d, 0x9a, 0xfc, 0x1c, 0xdd, 0xe7, 0x2d,
    0xf6, 0x68, 0xd9, 0xab, 0x3b, 0xec, 0xaf, 0x6b, 0x57, 0x0d, 0x57, 0x66, 0x64, 0x5a, 0xd9, 0xc8
  ]

  const DEX_SOLANA_V3_PROGRAM_ID_STAGING: Key := [
    0x0c, 0x42, 0x6f, 0x23, 0x18, 0xca, 0x48, 0x0b, 0xf4, 0x63, 0xc4, 0x9a, 0xb2, 0x3d, 0xab, 0x52,
    0xc2, 0xe3, 0xba, 0x10, 0x34, 0xd4, 0xfc, 0x68, 0xb3, 0x5c, 0xea, 0xed, 0x6d, 0x2f, 0x48, 0x56
  ]

  predicate IsDexSolanaV3Program(k: Key) {
    k == DEX_SOLANA_V3_PROGRAM_ID || k == DEX_SOLANA_V3_PROGRAM_ID_STAGING
  }

  /** The instruction's program is a static key of the aggregator. */
  predicate IsSwap(keys: seq<Key>, program: byte) {
    program < |keys| && IsDexSolanaV3Program(keys[program])
  }

  function WithFills(keys: seq<Key>, ix: DecodedInstruction): DecodedInstruction {
    if IsSwap(keys, ix.program) then
      var (kind, fills) := DecodeLegs(ix.data);
      ix.(entrypoint := kind, fills := fills)
    else ix
  }

  function WithAllFills(keys: seq<Key>, ixs: seq<DecodedInstruction>): seq<DecodedInstruction> {
    seq(|ixs|, j requires 0 <= j < |ixs| => WithFills(keys, ixs[j]))
  }

  function Attach(m: DecodedMessage): DecodedMessage {
    m.(instructions := WithAllFills(m.keys, m.instructions))
  }

  /** What a parsed message decodes to, fills attached, whether it came alone or in a transaction. */
  function DecodeAndAttach(parsed: Message): Result<DecodedMessage, WireError> {
    var m :- DecodeMessage(parsed);
    Ok(Attach(m))
  }

  function DecodeMessageBytes(b: bytes): Result<DecodedMessage, WireError> {
    var parsed :- Wire.ParseMessage(b);
    DecodeAndAttach(parsed)
  }

  function DecodeTransactionBytes(b: bytes): Result<DecodedTransaction, WireError> {
    var parsed :- Wire.ParseTransaction(b);
    var t :- DecodeTransaction(parsed);
    Ok(DecodedTransaction(t.signatures, Attach(t.message)))
  }

  // ---------------------------------------------------------------- as it runs

  method DecodeSolRfqV2Legs(data: bytes) returns (kind: Option<EntrypointKind>, fills: seq<DecodedFill>)
    ensures (kind, fills) == DecodeLegs(data)
  {
    var args := RouteReader.DecodeSwapArgs(data);
    match args {
      case None => kind, fills := None, [];
      case Some(a) => kind, fills := Some(KindOf(a)), FillsOf(RoutesOf(a));
    }
  }

  /** Attaches entrypoint and fills to every top-level swap, in place. */
  method ExtractFills(keys: seq<Key>, ixs: array<DecodedInstruction>)
    modifies ixs
    ensures ixs[..] == WithAllFills(keys, old(ixs[..]))
  {
    for j := 0 to ixs.Length
      invariant forall i :: 0 <= i < j ==> ixs[i] == WithFills(keys, old(ixs[i]))
      invariant forall i :: j <= i < ixs.Length ==> ixs[i] == old(ixs[i])
    {
      if IsSwap(keys, ixs[j].program) {
        var kind, fills := DecodeSolRfqV2Legs(ixs[j].data);
        ixs[j] := ixs[j].(entrypoint := kind, fills := fills);
      }
    }
  }

  method AttachFills(m: DecodedMessage) returns (r: DecodedMessage)
    ensures r == Attach(m)
  {
    var ixs := new DecodedInstruction[|m.instructions|](j requires 0 <= j < |m.instructions| => m.instructions[j]);
    assert ixs[..] == m.instructions;
    ExtractFills(m.keys, ixs);
    r := m.(instructions := ixs[..]);
  }

  method DecodeMessageInput(b: bytes) returns (r: Result<DecodedMessage, WireError>)
    ensures r == DecodeMessageBytes(b)
  {
    var parsed :- WireParser.ParseMessage(b);
    var m :- DecodeMessage(parsed);
    var attached := AttachFills(m);
    r := Ok(attached);
  }

  method DecodeTransactionInput(b: bytes) returns (r: Result<DecodedTransaction, WireError>)
    ensures r == DecodeTransactionBytes(b)
  {
    var parsed :- WireParser.ParseTransaction(b);
    var t :- DecodeTransaction(parsed);
    var attached := AttachFills(t.message);
    r := Ok(DecodedTransaction(t.signatures, attached));
  }
}
