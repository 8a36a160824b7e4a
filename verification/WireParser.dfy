/** The wire parser as it runs: a cursor that moves over the input, and loops that fill vectors. */
module WireParser {
  import opened Common
  import opened Bytes
  import opened Wire

  /** A cursor method did what the reader `spec` says: same value or error, same bytes left. */
  ghost predicate Agrees<T>(r: Result<T, WireError>, spec: Parsed<T>, rest: bytes) {
    match spec
    case Ok(p) => r == Ok(p.0) && rest == p.1
    case Err(e) => r == Err(e)
  }

  /** The items read so far in front of what the rest of the loop reads. */
  ghost function Resume<T>(done: seq<T>, r: Parsed<seq<T>>): Parsed<seq<T>> {
    match r
    case Ok(p) => Ok((done + p.0, p.1))
    case Err(e) => Err(e)
  }

  lemma ResumeIdentity<T>(done: seq<T>, s: bytes, r: Parsed<seq<T>>)
    ensures Resume([], r) == r
    ensures Resume(done, Ok(([], s))) == Ok((done, s))
  {
    if r.Ok? {
      assert [] + r.value.0 == r.value.0;
    }
    assert done + [] == done;
  }

  /** One iteration of a reading loop: the next item joins the items done, or its error ends the loop. */
  lemma ResumeStep<T>(p: bytes -> Parsed<T>, done: seq<T>, n: nat, s: bytes, r: Result<T, WireError>, rest: bytes)
    requires n > 0 && Agrees(r, p(s), rest)
    ensures r.Ok? ==> Resume(done, Many(p, n, s)) == Resume(done + [r.value], Many(p, n - 1, rest))
    ensures r.Err? ==> Resume(done, Many(p, n, s)) == Err(r.error)
  {
    if r.Ok? {
      var tail := Many(p, n - 1, rest);
      if tail.Ok? {
        assert done + ([r.value] + tail.value.0) == (done + [r.value]) + tail.value.0;
      }
    }
  }

  class Cursor {
    const data: bytes
    var pos: nat

    ghost predicate Valid()
      reads this
    {
      pos <= |data|
    }

    /** The unread bytes. */
    ghost function Rest(): bytes
      reads this
      requires Valid()
    {
      data[pos..]
    }

    constructor (input: bytes)
      ensures Valid() && data == input && pos == 0 && Rest() == input
    {
      data := input;
      pos := 0;
    }

    method PeekByte() returns (r: Result<byte, WireError>)
      requires Valid()
      ensures r == if Rest() == [] then Err(Truncated) else Ok(Rest()[0])
    {
      if pos + 1 > |data| {
        return Err(Truncated);
      }
      r := Ok(data[pos]);
    }

    method ReadByte() returns (r: Result<byte, WireError>)
      requires Valid()
      modifies this`pos
      ensures Valid() && Agrees(r, Bytes.ReadByte(old(Rest())), Rest())
    {
      if pos + 1 > |data| {
        return Err(Truncated);
      }
      r := Ok(data[pos]);
      pos := pos + 1;
    }

    method Advance(n: nat) returns (r: Result<(), WireError>)
      requires Valid()
      modifies this`pos
      ensures Valid()
      ensures |old(Rest())| >= n ==> r.Ok? && Rest() == old(Rest())[n..]
      ensures |old(Rest())| < n ==> r == Err(Truncated)
    {
      if pos + n > |data| {
        return Err(Truncated);
      }
      pos := pos + n;
      r := Ok(());
    }

    /** Fills a buffer of `n` bytes. */
    method ReadInto(n: nat) returns (r: Result<bytes, WireError>)
      requires Valid()
      modifies this`pos
      ensures Valid() && Agrees(r, Take(n, old(Rest())), Rest())
    {
      if pos + n > |data| {
        return Err(Truncated);
      }
      r := Ok(data[pos..pos + n]);
      assert data[pos..][..n] == data[pos..pos + n];
      pos := pos + n;
    }

    method ReadKey() returns (r: Result<Key, WireError>)
      requires Valid()
      modifies this`pos
      ensures Valid() && Agrees(r, Wire.ReadKey(old(Rest())), Rest())
    {
      var k :- ReadInto(32);
      r := Ok(k);
    }

    method ReadU32() returns (r: Result<u32, WireError>)
      requires Valid()
      modifies this`pos
      ensures Valid() && Agrees(r, Wire.ReadU32(old(Rest())), Rest())
    {
      var b :- ReadInto(4);
      Widths();
      FromLEInverse(b);
      r := Ok(FromLE(b));
    }

    method Finish() returns (r: Result<(), WireError>)
      requires Valid()
      ensures r == if Rest() == [] then Ok(()) else Err(Other(TrailingData))
    {
      if pos != |data| {
        return Err(Other(TrailingData));
      }
      r := Ok(());
    }

    /** Strict compact-u16: the seven-bit groups are disjoint, so adding them is or-ing them. */
    method ReadCompactU16() returns (r: Result<u16, WireError>)
      requires Valid()
      modifies this`pos
      ensures Valid() && Agrees(r, ReadCompact(old(Rest())), Rest())
    {
      var result := 0;
      for i := 0 to 3
        invariant Valid() && 0 <= result
        invariant ReadCompact(old(Rest())) == CompactFrom(i, result, Rest())
      {
        var b :- ReadByte();
        var value := b % 0x80;
        result := result + value * Shift7(i);
        if b < 0x80 {
          if i > 0 && value == 0 {
            return Err(NonCanonicalCompactU16);
          }
          if result > 0xFFFF {
            return Err(Other(CompactU16TooLarge));
          }
          return Ok(result);
        }
      }
      r := Err(NonCanonicalCompactU16);
    }

    method ReadByteVec() returns (r: Result<bytes, WireError>)
      requires Valid()
      modifies this`pos
      ensures Valid() && Agrees(r, Bytes.ReadByteVec(old(Rest())), Rest())
    {
      var n :- ReadCompactU16();
      r := ReadInto(n);
    }

    method ReadHeader() returns (r: Result<Header, WireError>)
      requires Valid()
      modifies this`pos
      ensures Valid() && Agrees(r, Wire.ReadHeader(old(Rest())), Rest())
    {
      var required :- ReadByte();
      var readonlySigned :- ReadByte();
      var readonlyUnsigned :- ReadByte();
      r := Ok(Header(required, readonlySigned, readonlyUnsigned));
    }

    method ReadSignature() returns (r: Result<Signature, WireError>)
      requires Valid()
      modifies this`pos
      ensures Valid() && Agrees(r, Wire.ReadSignature(old(Rest())), Rest())
    {
      var signature :- ReadInto(SIGNATURE_LEN);
      r := Ok(signature);
    }

    method ReadSignatures(n: nat) returns (r: Result<seq<Signature>, WireError>)
      requires Valid()
      modifies this`pos
      ensures Valid() && Agrees(r, Many(Wire.ReadSignature, n, old(Rest())), Rest())
    {
      var signatures: seq<Signature> := [];
      ResumeIdentity(signatures, Rest(), Many(Wire.ReadSignature, n, Rest()));
      for i := 0 to n
        invariant Valid()
        invariant Many(Wire.ReadSignature, n, old(Rest()))
               == Resume(signatures, Many(Wire.ReadSignature, n - i, Rest()))
      {
        ghost var s := Rest();
        var signature := ReadSignature();
        ResumeStep(Wire.ReadSignature, signatures, n - i, s, signature, Rest());
        if signature.Err? {
          return Err(signature.error);
        }
        signatures := signatures + [signature.value];
      }
      ResumeIdentity(signatures, Rest(), Ok((signatures, Rest())));
      r := Ok(signatures);
    }

    method ReadKeys(n: nat) returns (r: Result<seq<Key>, WireError>)
      requires Valid()
      modifies this`pos
      ensures Valid() && Agrees(r, Many(Wire.ReadKey, n, old(Rest())), Rest())
    {
      var keys: seq<Key> := [];
      ResumeIdentity(keys, Rest(), Many(Wire.ReadKey, n, Rest()));
      for i := 0 to n
        invariant Valid()
        invariant Many(Wire.ReadKey, n, old(Rest())) == Resume(keys, Many(Wire.ReadKey, n - i, Rest()))
      {
        ghost var s := Rest();
        var key := ReadKey();
        ResumeStep(Wire.ReadKey, keys, n - i, s, key, Rest());
        if key.Err? {
          return Err(key.error);
        }
        keys := keys + [key.value];
      }
      ResumeIdentity(keys, Rest(), Ok((keys, Rest())));
      r := Ok(keys);
    }

    method ReadInstruction() returns (r: Result<CompiledInstruction, WireError>)
      requires Valid()
      modifies this`pos
      ensures Valid() && Agrees(r, Wire.ReadInstruction(old(Rest())), Rest())
    {
      var program :- ReadByte();
      var accounts :- ReadByteVec();
      var instructionData :- ReadByteVec();
      r := Ok(CompiledInstruction(program, accounts, instructionData));
    }

    method ReadInstructions(n: nat) returns (r: Result<seq<CompiledInstruction>, WireError>)
      requires Valid()
      modifies this`pos
      ensures Valid() && Agrees(r, Many(Wire.ReadInstruction, n, old(Rest())), Rest())
    {
      hide Wire.ReadInstruction;
      var instructions: seq<CompiledInstruction> := [];
      ResumeIdentity(instructions, Rest(), Many(Wire.ReadInstruction, n, Rest()));
      for i := 0 to n
        invariant Valid()
        invariant Many(Wire.ReadInstruction, n, old(Rest()))
               == Resume(instructions, Many(Wire.ReadInstruction, n - i, Rest()))
      {
        ghost var s := Rest();
        var ix := ReadInstruction();
        ResumeStep(Wire.ReadInstruction, instructions, n - i, s, ix, Rest());
        if ix.Err? {
          return Err(ix.error);
        }
        instructions := instructions + [ix.value];
      }
      ResumeIdentity(instructions, Rest(), Ok((instructions, Rest())));
      r := Ok(instructions);
    }

    method ReadLookup() returns (r: Result<Lookup, WireError>)
      requires Valid()
      modifies this`pos
      ensures Valid() && Agrees(r, Wire.ReadLookup(old(Rest())), Rest())
    {
      var table :- ReadKey();
      var writable :- ReadByteVec();
      var readonly :- ReadByteVec();
      r := Ok(Lookup(table, writable, readonly));
    }

    method ReadLookups(n: nat) returns (r: Result<seq<Lookup>, WireError>)
      requires Valid()
      modifies this`pos
      ensures Valid() && Agrees(r, Many(Wire.ReadLookup, n, old(Rest())), Rest())
    {
      hide Wire.ReadLookup;
      var lookups: seq<Lookup> := [];
      ResumeIdentity(lookups, Rest(), Many(Wire.ReadLookup, n, Rest()));
      for i := 0 to n
        invariant Valid()
        invariant Many(Wire.ReadLookup, n, old(Rest())) == Resume(lookups, Many(Wire.ReadLookup, n - i, Rest()))
      {
        ghost var s := Rest();
        var lookup := ReadLookup();
        ResumeStep(Wire.ReadLookup, lookups, n - i, s, lookup, Rest());
        if lookup.Err? {
          return Err(lookup.error);
        }
        lookups := lookups + [lookup.value];
      }
      ResumeIdentity(lookups, Rest(), Ok((lookups, Rest())));
      r := Ok(lookups);
    }

    /** A legacy message, or a v0 one behind its version byte. */
    method ParseMessageFromCursor() returns (r: Result<Message, WireError>)
      requires Valid()
      modifies this`pos
      ensures Valid() && Agrees(r, ReadMessage(old(Rest())), Rest())
    {
      hide Wire.ReadHeader, Wire.ReadKey, ReadCompact, Many;
      var first :- PeekByte();
      var version := Legacy;
      if first >= V0_TAG {
        pos := pos + 1;  // the byte just peeked at, so advancing cannot fail
        if first != V0_TAG {
          return Err(Other(UnsupportedVersion));
        }
        version := V0;
      }
      var header :- ReadHeader();
      var numKeys :- ReadCompactU16();
      var keys :- ReadKeys(numKeys);
      var blockhash :- ReadKey();
      var numIx :- ReadCompactU16();
      var instructions :- ReadInstructions(numIx);
      var lookups: seq<Lookup> := [];
      if version == V0 {
        var numLookups :- ReadCompactU16();
        lookups :- ReadLookups(numLookups);
      }
      r := Ok(Message(version, header, keys, blockhash, instructions, lookups, None));
    }

    method ReadDistinctKeys(n: nat) returns (r: Result<seq<Key>, WireError>)
      requires Valid()
      modifies this`pos
      ensures Valid() && Agrees(r, Wire.ReadDistinctKeys(n, [], old(Rest())), Rest())
    {
      var keys: seq<Key> := [];
      for i := 0 to n
        invariant Valid()
        invariant Wire.ReadDistinctKeys(n, [], old(Rest())) == Wire.ReadDistinctKeys(n - i, keys, Rest())
      {
        var key :- ReadKey();
        if key in keys {
          return Err(Other(DuplicateAddress));
        }
        keys := keys + [key];
      }
      r := Ok(keys);
    }

    method ReadConfig(mask: u32) returns (r: Result<Config, WireError>)
      requires Valid()
      modifies this`pos
      ensures Valid() && Agrees(r, Wire.ReadConfig(mask, old(Rest())), Rest())
    {
      if !FeeBitsPaired(mask) {
        return Err(Other(UnpairedFeeBits));
      }
      var values: seq<u32> := [];
      var n := CountOnes(mask);
      ResumeIdentity(values, Rest(), Many(Wire.ReadU32, n, Rest()));
      for i := 0 to n
        invariant Valid()
        invariant Many(Wire.ReadU32, n, old(Rest())) == Resume(values, Many(Wire.ReadU32, n - i, Rest()))
      {
        ghost var s := Rest();
        var value := ReadU32();
        ResumeStep(Wire.ReadU32, values, n - i, s, value, Rest());
        if value.Err? {
          return Err(value.error);
        }
        values := values + [value.value];
      }
      ResumeIdentity(values, Rest(), Ok((values, Rest())));
      var config := Config(mask, values);
      if !HeapAllowed(HeapSize(config)) {
        return Err(Other(InvalidHeapSize));
      }
      r := Ok(config);
    }

    method ReadInstructionHeader() returns (r: Result<InstructionHeader, WireError>)
      requires Valid()
      modifies this`pos
      ensures Valid() && Agrees(r, Wire.ReadInstructionHeader(old(Rest())), Rest())
    {
      ghost var s := Rest();
      var program :- ReadByte();
      var accounts :- ReadByte();
      var dataLen :- ReadInto(2);
      assert dataLen[0] == s[2] && dataLen[1] == s[3];
      assert Rest() == s[4..];
      assert FromLE(dataLen) == dataLen[0] + 0x100 * FromLE(dataLen[1..]);
      r := Ok(InstructionHeader(program, accounts, FromLE(dataLen)));
    }

    method ReadInstructionHeaders(n: nat) returns (r: Result<seq<InstructionHeader>, WireError>)
      requires Valid()
      modifies this`pos
      ensures Valid() && Agrees(r, Many(Wire.ReadInstructionHeader, n, old(Rest())), Rest())
    {
      var headers: seq<InstructionHeader> := [];
      ResumeIdentity(headers, Rest(), Many(Wire.ReadInstructionHeader, n, Rest()));
      for i := 0 to n
        invariant Valid()
        invariant Many(Wire.ReadInstructionHeader, n, old(Rest()))
               == Resume(headers, Many(Wire.ReadInstructionHeader, n - i, Rest()))
      {
        ghost var s := Rest();
        var header := ReadInstructionHeader();
        ResumeStep(Wire.ReadInstructionHeader, headers, n - i, s, header, Rest());
        if header.Err? {
          return Err(header.error);
        }
        headers := headers + [header.value];
      }
      ResumeIdentity(headers, Rest(), Ok((headers, Rest())));
      r := Ok(headers);
    }

    method ReadPayload(h: InstructionHeader, numKeys: nat) returns (r: Result<CompiledInstruction, WireError>)
      requires Valid()
      modifies this`pos
      ensures Valid() && Agrees(r, Wire.ReadPayload(h, numKeys, old(Rest())), Rest())
    {
      var accounts :- ReadInto(h.accounts);
      if h.program >= numKeys || !IndicesBelow(accounts, numKeys) {
        return Err(Other(IndexOutOfRange));
      }
      var instructionData :- ReadInto(h.dataLen);
      r := Ok(CompiledInstruction(h.program, accounts, instructionData));
    }

    method ReadPayloads(hs: seq<InstructionHeader>, numKeys: nat)
      returns (r: Result<seq<CompiledInstruction>, WireError>)
      requires Valid()
      modifies this`pos
      ensures Valid() && Agrees(r, Wire.ReadPayloads(hs, numKeys, old(Rest())), Rest())
    {
      var instructions: seq<CompiledInstruction> := [];
      assert hs[0..] == hs;
      ResumeIdentity(instructions, Rest(), Wire.ReadPayloads(hs, numKeys, Rest()));
      for i := 0 to |hs|
        invariant Valid()
        invariant Wire.ReadPayloads(hs, numKeys, old(Rest()))
               == Resume(instructions, Wire.ReadPayloads(hs[i..], numKeys, Rest()))
      {
        ghost var s := Rest();
        assert hs[i..][0] == hs[i] && hs[i..][1..] == hs[i + 1..];
        var ix :- ReadPayload(hs[i], numKeys);
        PayloadStep(instructions, ix, Wire.ReadPayloads(hs[i + 1..], numKeys, Rest()));
        instructions := instructions + [ix];
      }
      ResumeIdentity(instructions, Rest(), Ok((instructions, Rest())));
      r := Ok(instructions);
    }

    lemma PayloadStep(done: seq<CompiledInstruction>, ix: CompiledInstruction, tail: Parsed<seq<CompiledInstruction>>)
      ensures Resume(done, Resume([ix], tail)) == Resume(done + [ix], tail)
    {
      if tail.Ok? {
        assert done + ([ix] + tail.value.0) == (done + [ix]) + tail.value.0;
      }
    }

    method ReadV1Prefix() returns (r: Result<V1Prefix, WireError>)
      requires Valid()
      modifies this`pos
      ensures Valid() && Agrees(r, Wire.ReadV1Prefix(old(Rest())), Rest())
    {
      var _ :- Advance(1);
      var header :- ReadHeader();
      var mask :- ReadU32();
      if mask >= 0x20 {
        return Err(Other(UnsupportedMask));
      }
      var blockhash :- ReadKey();
      var numIx :- ReadByte();
      var numKeys :- ReadByte();
      if header.required > 12
         || header.readonlySigned >= header.required
         || numKeys < header.required + header.readonlyUnsigned
         || numKeys > 64
         || numIx > 64
      {
        return Err(Other(InvalidHeaderOrCounts));
      }
      r := Ok(V1Prefix(header, mask, blockhash, numIx, numKeys));
    }

    method ParseV1Message() returns (r: Result<Message, WireError>)
      requires Valid()
      modifies this`pos
      ensures Valid() && Agrees(r, ReadV1(old(Rest())), Rest())
    {
      var p :- ReadV1Prefix();
      var keys :- ReadDistinctKeys(p.numKeys);
      var config :- ReadConfig(p.mask);
      var headers :- ReadInstructionHeaders(p.numIx);
      var instructions :- ReadPayloads(headers, p.numKeys);
      r := Ok(Message(V1, p.header, keys, p.blockhash, instructions, [], Some(config)));
    }
  }

  method ValidateV1Size(size: nat) returns (r: Result<(), WireError>)
    ensures r == if size > V1_MAX_TRANSACTION_SIZE then Err(Other(TransactionTooLarge)) else Ok(())
  {
    if size > V1_MAX_TRANSACTION_SIZE {
      return Err(Other(TransactionTooLarge));
    }
    r := Ok(());
  }

  method ParseTransaction(input: bytes) returns (r: Result<Transaction, WireError>)
    ensures r == Wire.ParseTransaction(input)
  {
    var c := new Cursor(input);
    var first :- c.PeekByte();
    if first == V1_TAG {
      var _ :- ValidateV1Size(|input|);
      var message :- c.ParseV1Message();
      var signatures :- c.ReadSignatures(message.header.required);
      var _ :- c.Finish();
      return Ok(Transaction(signatures, message));
    }
    var numSigs :- c.ReadCompactU16();
    var signatures :- c.ReadSignatures(numSigs);
    var message :- c.ParseMessageFromCursor();
    r := Ok(Transaction(signatures, message));
  }

  method ParseMessage(input: bytes) returns (r: Result<Message, WireError>)
    ensures r == Wire.ParseMessage(input)
  {
    var c := new Cursor(input);
    var first :- c.PeekByte();
    if first == V1_TAG {
      var message :- c.ParseV1Message();
      var _ :- ValidateV1Size(|input| + message.header.required * SIGNATURE_LEN);
      var _ :- c.Finish();
      return Ok(message);
    }
    r := c.ParseMessageFromCursor();
  }
}
