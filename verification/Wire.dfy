/**
  Solana messages and transactions, legacy, v0 and SIMD-0385 v1: what the parser accepts, as
  functions of the unread bytes, and the printers that serve as the format's specification.
  The parsing loops over a cursor are in `WireParser`.
 */
module Wire {
  import opened Common
  import opened Bytes

  const V0_TAG: byte := 0x80
  const V1_TAG: byte := 0x81
  const V1_MAX_TRANSACTION_SIZE := 4096
  const SIGNATURE_LEN := 64

  type Signature = s: bytes | |s| == SIGNATURE_LEN witness seq(SIGNATURE_LEN, _ => 0)

  datatype Version = Legacy | V0 | V1

  /** Configuration words of a v1 message in ascending mask-bit order. */
  datatype Config = Config(mask: u32, values: seq<u32>)

  datatype Header = Header(required: byte, readonlySigned: byte, readonlyUnsigned: byte)

  datatype CompiledInstruction = CompiledInstruction(program: byte, accounts: bytes, data: bytes)

  datatype Lookup = Lookup(table: Key, writable: bytes, readonly: bytes)

  datatype Message = Message(
    version: Version, header: Header, keys: seq<Key>, blockhash: Key,
    instructions: seq<CompiledInstruction>, lookups: seq<Lookup>, config: Option<Config>)

  datatype Transaction = Transaction(signatures: seq<Signature>, message: Message)

  // ---------------------------------------------------------------- sparse configuration

  function Pow2(n: nat): (p: nat)
    ensures p > 0
  {
    if n == 0 then 1 else 2 * Pow2(n - 1)
  }

  function CountOnes(m: nat): nat {
    if m == 0 then 0 else m % 2 + CountOnes(m / 2)
  }

  /** The word for a mask bit: as many words precede it as there are lower set bits. */
  function SparseValue(mask: nat, values: seq<u32>, bit: nat): Option<u32> {
    if mask / Pow2(bit) % 2 == 0 then None
    else
      var index := CountOnes(mask % Pow2(bit));
      if index < |values| then Some(values[index]) else None
  }

  function ConfigValue(c: Config, bit: nat): Option<u32> {
    SparseValue(c.mask, c.values, bit)
  }

  function ConfigWord(c: Config, bit: nat, default: u32): u32 {
    match ConfigValue(c, bit)
    case Some(v) => v
    case None => default
  }

  function PriorityFee(c: Config): u64 {
    ConfigWord(c, 0, 0) + 0x1_0000_0000 * ConfigWord(c, 1, 0)
  }

  function ComputeUnitLimit(c: Config): u32 {
    ConfigWord(c, 2, 0)
  }

  function LoadedAccountsDataSizeLimit(c: Config): u32 {
    ConfigWord(c, 3, 0)
  }

  function HeapSize(c: Config): u32 {
    ConfigWord(c, 4, 0x8000)
  }

  // ---------------------------------------------------------------- items

  function ReadKey(s: bytes): Parsed<Key> {
    if |s| < 32 then Err(Truncated) else Ok((s[..32], s[32..]))
  }

  function PutKey(k: Key, rest: bytes): bytes {
    k + rest
  }

  function ReadSignature(s: bytes): Parsed<Signature> {
    if |s| < SIGNATURE_LEN then Err(Truncated) else Ok((s[..SIGNATURE_LEN], s[SIGNATURE_LEN..]))
  }

  function PutSignature(g: Signature, rest: bytes): bytes {
    g + rest
  }

  function ReadU32(s: bytes): Parsed<u32> {
    if |s| < 4 then Err(Truncated)
    else
      Widths();
      FromLEInverse(s[..4]);
      Ok((FromLE(s[..4]), s[4..]))
  }

  function PutU32(v: u32, rest: bytes): bytes {
    LE(v, 4) + rest
  }

  function ReadHeader(s: bytes): Parsed<Header> {
    var (a, s1) :- ReadByte(s);
    var (b, s2) :- ReadByte(s1);
    var (c, s3) :- ReadByte(s2);
    Ok((Header(a, b, c), s3))
  }

  function PutHeader(h: Header, rest: bytes): bytes {
    [h.required, h.readonlySigned, h.readonlyUnsigned] + rest
  }

  function ReadInstruction(s: bytes): Parsed<CompiledInstruction> {
    var (program, s1) :- ReadByte(s);
    var (accounts, s2) :- ReadByteVec(s1);
    var (data, s3) :- ReadByteVec(s2);
    Ok((CompiledInstruction(program, accounts, data), s3))
  }

  function PutInstruction(ix: CompiledInstruction, rest: bytes): bytes {
    PutByte(ix.program, PutByteVec(ix.accounts, PutByteVec(ix.data, rest)))
  }

  predicate InstructionFits(ix: CompiledInstruction) {
    |ix.accounts| < 0x1_0000 && |ix.data| < 0x1_0000
  }

  function ReadLookup(s: bytes): Parsed<Lookup> {
    var (table, s1) :- ReadKey(s);
    var (writable, s2) :- ReadByteVec(s1);
    var (readonly, s3) :- ReadByteVec(s2);
    Ok((Lookup(table, writable, readonly), s3))
  }

  function PutLookup(l: Lookup, rest: bytes): bytes {
    PutKey(l.table, PutByteVec(l.writable, PutByteVec(l.readonly, rest)))
  }

  predicate LookupFits(l: Lookup) {
    |l.writable| < 0x1_0000 && |l.readonly| < 0x1_0000
  }

  // ---------------------------------------------------------------- legacy and v0 messages

  function ReadVersion(s: bytes): Parsed<Version> {
    var (first, rest) :- ReadByte(s);
    if first < V0_TAG then Ok((Legacy, s))
    else if first != V0_TAG then Err(Other(UnsupportedVersion))
    else Ok((V0, rest))
  }

  function ReadLookups(version: Version, s: bytes): Parsed<seq<Lookup>> {
    if version == V0 then ReadVec(ReadLookup, s) else Ok(([], s))
  }

  function ReadMessage(s: bytes): Parsed<Message> {
    var (version, s1) :- ReadVersion(s);
    var (header, s2) :- ReadHeader(s1);
    var (keys, s3) :- ReadVec(ReadKey, s2);
    var (blockhash, s4) :- ReadKey(s3);
    var (instructions, s5) :- ReadVec(ReadInstruction, s4);
    var (lookups, s6) :- ReadLookups(version, s5);
    Ok((Message(version, header, keys, blockhash, instructions, lookups, None), s6))
  }

  function PutVersion(v: Version, rest: bytes): bytes {
    if v == V0 then [0x80] + rest else rest
  }

  function PutLookups(m: Message, rest: bytes): bytes {
    if m.version == V0 then PutVec(PutLookup, m.lookups, rest) else rest
  }

  /** The legacy or v0 encoding of a message in front of `rest`. */
  function PutMessage(m: Message, rest: bytes): bytes {
    PutVersion(m.version,
      PutHeader(m.header,
        PutVec(PutKey, m.keys,
          PutKey(m.blockhash,
            PutVec(PutInstruction, m.instructions,
              PutLookups(m, rest))))))
  }

  /** The messages the legacy and v0 formats have an encoding for: every length fits u16. */
  predicate MessageFits(m: Message) {
    && m.version != V1
    && m.config == None
    && |m.keys| < 0x1_0000 && |m.instructions| < 0x1_0000 && |m.lookups| < 0x1_0000
    && (forall i :: 0 <= i < |m.instructions| ==> InstructionFits(m.instructions[i]))
    && (forall i :: 0 <= i < |m.lookups| ==> LookupFits(m.lookups[i]))
    && (m.version == Legacy ==> m.lookups == [])
  }

  // ---------------------------------------------------------------- v1 messages

  /** Program index, number of accounts and data length of one v1 instruction. */
  datatype InstructionHeader = InstructionHeader(program: byte, accounts: byte, dataLen: u16)

  function ReadInstructionHeader(s: bytes): Parsed<InstructionHeader> {
    if |s| < 4 then Err(Truncated)
    else
      var dataLen := s[2] as int + 0x100 * s[3] as int;
      Ok((InstructionHeader(s[0], s[1], dataLen), s[4..]))
  }

  function PutInstructionHeader(h: InstructionHeader, rest: bytes): bytes {
    [h.program, h.accounts, h.dataLen % 0x100, h.dataLen / 0x100] + rest
  }

  /** Reads `n` more keys after `seen`, none of them twice. */
  function ReadDistinctKeys(n: nat, seen: seq<Key>, s: bytes): Parsed<seq<Key>> {
    if n == 0 then Ok((seen, s))
    else
      var (k, rest) :- ReadKey(s);
      if k in seen then Err(Other(DuplicateAddress)) else ReadDistinctKeys(n - 1, seen + [k], rest)
  }

  predicate IndicesBelow(indices: bytes, n: nat) {
    forall i :: 0 <= i < |indices| ==> indices[i] < n
  }

  function ReadPayload(h: InstructionHeader, numKeys: nat, s: bytes): Parsed<CompiledInstruction> {
    var (accounts, s1) :- Take(h.accounts, s);
    if h.program >= numKeys || !IndicesBelow(accounts, numKeys) then Err(Other(IndexOutOfRange))
    else
      var (data, s2) :- Take(h.dataLen, s1);
      Ok((CompiledInstruction(h.program, accounts, data), s2))
  }

  function ReadPayloads(hs: seq<InstructionHeader>, numKeys: nat, s: bytes): Parsed<seq<CompiledInstruction>> {
    if hs == [] then Ok(([], s))
    else
      var (ix, rest) :- ReadPayload(hs[0], numKeys, s);
      var (ixs, end) :- ReadPayloads(hs[1..], numKeys, rest);
      Ok(([ix] + ixs, end))
  }

  predicate CountsAllowed(h: Header, numKeys: nat, numIx: nat) {
    && h.required <= 12
    && h.readonlySigned < h.required
    && h.required + h.readonlyUnsigned <= numKeys <= 64
    && numIx <= 64
  }

  predicate FeeBitsPaired(mask: nat) {
    mask % 4 == 0 || mask % 4 == 3
  }

  predicate HeapAllowed(heap: nat) {
    0x8000 <= heap <= 0x40000 && heap % 1024 == 0
  }

  /** Header, mask, blockhash and counts: everything before the first key. */
  datatype V1Prefix = V1Prefix(header: Header, mask: u32, blockhash: Key, numIx: byte, numKeys: byte)

  function ReadV1Prefix(s: bytes): Parsed<V1Prefix> {
    var (tag, s0) :- ReadByte(s);
    var (header, s1) :- ReadHeader(s0);
    var (mask, s2) :- ReadU32(s1);
    if mask >= 0x20 then Err(Other(UnsupportedMask))
    else
      var (blockhash, s3) :- ReadKey(s2);
      var (numIx, s4) :- ReadByte(s3);
      var (numKeys, s5) :- ReadByte(s4);
      if !CountsAllowed(header, numKeys, numIx) then Err(Other(InvalidHeaderOrCounts))
      else Ok((V1Prefix(header, mask, blockhash, numIx, numKeys), s5))
  }

  function ReadConfig(mask: u32, s: bytes): Parsed<Config> {
    if !FeeBitsPaired(mask) then Err(Other(UnpairedFeeBits))
    else
      var (values, rest) :- Many(ReadU32, CountOnes(mask), s);
      if !HeapAllowed(HeapSize(Config(mask, values))) then Err(Other(InvalidHeapSize))
      else Ok((Config(mask, values), rest))
  }

  /** All instruction headers, then all payloads. */
  function ReadV1Instructions(numIx: nat, numKeys: nat, s: bytes): Parsed<seq<CompiledInstruction>> {
    var (hs, rest) :- Many(ReadInstructionHeader, numIx, s);
    ReadPayloads(hs, numKeys, rest)
  }

  /** A v1 message whose version byte has been seen and not yet consumed. */
  function ReadV1(s: bytes): Parsed<Message> {
    var (p, rest) :- ReadV1Prefix(s);
    ReadV1Body(p, rest)
  }

  function ReadV1Body(p: V1Prefix, s: bytes): Parsed<Message> {
    var (keys, s1) :- ReadDistinctKeys(p.numKeys, [], s);
    var (config, s2) :- ReadConfig(p.mask, s1);
    var (ixs, s3) :- ReadV1Instructions(p.numIx, p.numKeys, s2);
    Ok((Message(V1, p.header, keys, p.blockhash, ixs, [], Some(config)), s3))
  }

  function Len8(n: nat): byte {
    if n < 0x100 then n else 0
  }

  function HeaderOf(ix: CompiledInstruction): InstructionHeader {
    InstructionHeader(ix.program, Len8(|ix.accounts|), Len16(|ix.data|))
  }

  function HeadersOf(ixs: seq<CompiledInstruction>): seq<InstructionHeader> {
    if ixs == [] then [] else [HeaderOf(ixs[0])] + HeadersOf(ixs[1..])
  }

  function PutPayload(ix: CompiledInstruction, rest: bytes): bytes {
    ix.accounts + (ix.data + rest)
  }

  function PutV1Instructions(ixs: seq<CompiledInstruction>, rest: bytes): bytes {
    PutAll(PutInstructionHeader, HeadersOf(ixs), PutAll(PutPayload, ixs, rest))
  }

  function PutConfig(c: Option<Config>, rest: bytes): bytes {
    if c.Some? then PutAll(PutU32, c.value.values, rest) else rest
  }

  function PutV1Prefix(p: V1Prefix, rest: bytes): bytes {
    PutByte(0x81,
      PutHeader(p.header,
        PutU32(p.mask,
          PutKey(p.blockhash,
            PutByte(p.numIx,
              PutByte(p.numKeys, rest))))))
  }

  function PrefixOf(m: Message): V1Prefix {
    V1Prefix(m.header, if m.config.Some? then m.config.value.mask else 0, m.blockhash,
             Len8(|m.instructions|), Len8(|m.keys|))
  }

  /** The v1 encoding of a message in front of `rest`. */
  function PutV1(m: Message, rest: bytes): bytes {
    PutV1Prefix(PrefixOf(m), PutV1Body(m, rest))
  }

  function PutV1Body(m: Message, rest: bytes): bytes {
    PutAll(PutKey, m.keys, PutConfig(m.config, PutV1Instructions(m.instructions, rest)))
  }

  ghost predicate Distinct<T(!new)>(xs: seq<T>) {
    forall i, j :: 0 <= i < j < |xs| ==> xs[i] != xs[j]
  }

  predicate V1InstructionAllowed(ix: CompiledInstruction, numKeys: nat) {
    && ix.program < numKeys && IndicesBelow(ix.accounts, numKeys)
    && |ix.accounts| < 0x100 && |ix.data| < 0x1_0000
  }

  predicate ConfigAllowed(c: Config) {
    && c.mask < 0x20
    && c.mask % 2 == c.mask / 2 % 2
    && |c.values| == CountOnes(c.mask)
    && 0x8000 <= HeapSize(c) <= 0x40000 && HeapSize(c) % 1024 == 0
  }

  /** Every limit the v1 format sets, other than the size of the whole transaction. */
  ghost predicate V1Allowed(m: Message) {
    && m.version == V1
    && m.header.readonlySigned < m.header.required <= 12
    && m.header.required + m.header.readonlyUnsigned <= |m.keys| <= 64
    && |m.instructions| <= 64
    && Distinct(m.keys)
    && m.lookups == []
    && m.config.Some? && ConfigAllowed(m.config.value)
    && forall i :: 0 <= i < |m.instructions| ==> V1InstructionAllowed(m.instructions[i], |m.keys|)
  }

  // ---------------------------------------------------------------- whole inputs

  function ParseTransaction(b: bytes): Result<Transaction, WireError> {
    if b == [] then Err(Truncated)
    else if b[0] == V1_TAG then
      if |b| > V1_MAX_TRANSACTION_SIZE then Err(Other(TransactionTooLarge))
      else
        var (m, s) :- ReadV1(b);
        var (signatures, end) :- Many(ReadSignature, m.header.required, s);
        if end != [] then Err(Other(TrailingData)) else Ok(Transaction(signatures, m))
    else
      var (signatures, s) :- ReadVec(ReadSignature, b);
      var (m, end) :- ReadMessage(s);
      Ok(Transaction(signatures, m))
  }

  function ParseMessage(b: bytes): Result<Message, WireError> {
    if b == [] then Err(Truncated)
    else if b[0] == V1_TAG then
      var (m, end) :- ReadV1(b);
      if |b| + SIGNATURE_LEN * m.header.required > V1_MAX_TRANSACTION_SIZE then Err(Other(TransactionTooLarge))
      else if end != [] then Err(Other(TrailingData))
      else Ok(m)
    else
      var (m, end) :- ReadMessage(b);
      Ok(m)
  }

  /** The encoding of a whole transaction, of whichever version, in front of `rest`. */
  function PutTransaction(t: Transaction, rest: bytes): bytes {
    if t.message.version == V1 then PutV1(t.message, PutAll(PutSignature, t.signatures, rest))
    else PutVec(PutSignature, t.signatures, PutMessage(t.message, rest))
  }
}
