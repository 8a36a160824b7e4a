/**
  Bytes that arrive later never change a verdict other than `Truncated`: a reader that fails for any
  other reason fails for the same reason on every extension, and one that succeeds reads the same
  value and leaves the new bytes unread. Hence every strict prefix of an accepted input is
  `Truncated`, and nothing else is said about it.
 */
module StreamTheorems {
  import opened Common
  import opened Bytes
  import opened Wire
  import opened WireTheorems
  import opened V1Theorems

  function Extend<T>(r: Parsed<T>, more: bytes): Parsed<T> {
    if r.Ok? then Ok((r.value.0, r.value.1 + more)) else r
  }

  /** `later` is what becomes of the outcome `now` when `more` bytes arrive. */
  ghost predicate Settled<T(!new)>(now: Parsed<T>, later: Parsed<T>, more: bytes) {
    now != Err(Truncated) ==> later == Extend(now, more)
  }

  ghost predicate Stable<T(!new)>(read: bytes -> Parsed<T>) {
    forall s: bytes, more: bytes :: Settled(read(s), read(s + more), more)
  }

  // ---------------------------------------------------------------- items

  lemma TakeStable(n: nat, s: bytes, more: bytes)
    ensures Settled(Take(n, s), Take(n, s + more), more)
  {
    if |s| >= n {
      assert (s + more)[..n] == s[..n] && (s + more)[n..] == s[n..] + more;
    }
  }

  lemma ByteStable(s: bytes, more: bytes)
    ensures Settled(ReadByte(s), ReadByte(s + more), more)
  {
    if s != [] {
      assert (s + more)[1..] == s[1..] + more;
    }
  }

  lemma KeyStable()
    ensures Stable(ReadKey)
  {
    forall s: bytes, more: bytes
      ensures Settled(ReadKey(s), ReadKey(s + more), more)
    {
      TakeStable(32, s, more);
    }
  }

  lemma SignatureStable()
    ensures Stable(ReadSignature)
  {
    forall s: bytes, more: bytes
      ensures Settled(ReadSignature(s), ReadSignature(s + more), more)
    {
      TakeStable(SIGNATURE_LEN, s, more);
    }
  }

  lemma U32Stable()
    ensures Stable(ReadU32)
  {
    forall s: bytes, more: bytes
      ensures Settled(ReadU32(s), ReadU32(s + more), more)
    {
      TakeStable(4, s, more);
    }
  }

  lemma InstructionHeaderStable()
    ensures Stable(ReadInstructionHeader)
  {
    forall s: bytes, more: bytes
      ensures Settled(ReadInstructionHeader(s), ReadInstructionHeader(s + more), more)
    {
      TakeStable(4, s, more);
    }
  }

  lemma HeaderStable(s: bytes, more: bytes)
    ensures Settled(ReadHeader(s), ReadHeader(s + more), more)
  {
    ByteStable(s, more);
    if |s| > 0 {
      ByteStable(s[1..], more);
      if |s| > 1 {
        ByteStable(s[1..][1..], more);
      }
    }
  }

  lemma CompactStable(s: bytes, more: bytes)
    ensures Settled(ReadCompact(s), ReadCompact(s + more), more)
  {
    CompactVerdict(s);
    CompactVerdict(s + more);
    hide ReadCompact;
    assert |s| >= 1 ==> (s + more)[1..] == s[1..] + more;
    assert |s| >= 2 ==> (s + more)[2..] == s[2..] + more;
    assert |s| >= 3 ==> (s + more)[3..] == s[3..] + more;
  }

  lemma {:induction false} ManyStable<T(!new)>(read: bytes -> Parsed<T>, n: nat, s: bytes, more: bytes)
    requires Stable(read)
    ensures Settled(Many(read, n, s), Many(read, n, s + more), more)
    decreases n
  {
    if n > 0 {
      assert Settled(read(s), read(s + more), more);
      if read(s).Ok? {
        ManyStable(read, n - 1, read(s).value.1, more);
      }
    }
  }

  lemma VecStable<T(!new)>(read: bytes -> Parsed<T>, s: bytes, more: bytes)
    requires Stable(read)
    ensures Settled(ReadVec(read, s), ReadVec(read, s + more), more)
  {
    CompactStable(s, more);
    if ReadCompact(s).Ok? {
      ManyStable(read, ReadCompact(s).value.0, ReadCompact(s).value.1, more);
    }
  }

  lemma ByteVecStable(s: bytes, more: bytes)
    ensures Settled(ReadByteVec(s), ReadByteVec(s + more), more)
  {
    CompactStable(s, more);
    if ReadCompact(s).Ok? {
      TakeStable(ReadCompact(s).value.0, ReadCompact(s).value.1, more);
    }
  }

  // ---------------------------------------------------------------- legacy and v0 messages

  lemma TwoByteVecsStable(s: bytes, more: bytes)
    ensures Settled(ReadByteVec(s), ReadByteVec(s + more), more)
    ensures ReadByteVec(s).Ok? ==>
              var rest := ReadByteVec(s).value.1;
              Settled(ReadByteVec(rest), ReadByteVec(rest + more), more)
  {
    ByteVecStable(s, more);
    if ReadByteVec(s).Ok? {
      ByteVecStable(ReadByteVec(s).value.1, more);
    }
  }

  lemma InstructionStable()
    ensures Stable(ReadInstruction)
  {
    forall s: bytes, more: bytes
      ensures Settled(ReadInstruction(s), ReadInstruction(s + more), more)
    {
      ByteStable(s, more);
      if s != [] {
        TwoByteVecsStable(s[1..], more);
      }
      hide ReadByteVec;
    }
  }

  lemma LookupStable()
    ensures Stable(ReadLookup)
  {
    KeyStable();
    forall s: bytes, more: bytes
      ensures Settled(ReadLookup(s), ReadLookup(s + more), more)
    {
      assert Settled(ReadKey(s), ReadKey(s + more), more);
      if ReadKey(s).Ok? {
        TwoByteVecsStable(ReadKey(s).value.1, more);
      }
      hide ReadKey, ReadByteVec;
    }
  }

  lemma VersionStable(s: bytes, more: bytes)
    ensures Settled(ReadVersion(s), ReadVersion(s + more), more)
  {
    ByteStable(s, more);
  }

  lemma LookupsStable(version: Version, s: bytes, more: bytes)
    ensures Settled(ReadLookups(version, s), ReadLookups(version, s + more), more)
  {
    if version == V0 {
      LookupStable();
      VecStable(ReadLookup, s, more);
    }
  }

  /** Blockhash, instructions and lookups: everything after the keys. */
  function ReadTail(version: Version, s: bytes): Parsed<(Key, seq<CompiledInstruction>, seq<Lookup>)> {
    var (blockhash, s1) :- ReadKey(s);
    var (instructions, s2) :- ReadVec(ReadInstruction, s1);
    var (lookups, s3) :- ReadLookups(version, s2);
    Ok(((blockhash, instructions, lookups), s3))
  }

  lemma TailStable(version: Version, s: bytes, more: bytes)
    ensures Settled(ReadTail(version, s), ReadTail(version, s + more), more)
  {
    KeyStable();
    InstructionStable();
    assert Settled(ReadKey(s), ReadKey(s + more), more);
    hide ReadKey, ReadInstruction, ReadLookups;
    if ReadKey(s).Ok? {
      var s1 := ReadKey(s).value.1;
      VecStable(ReadInstruction, s1, more);
      if ReadVec(ReadInstruction, s1).Ok? {
        LookupsStable(version, ReadVec(ReadInstruction, s1).value.1, more);
      }
    }
  }

  /** Version, header and keys. */
  function ReadHead(s: bytes): Parsed<(Version, Header, seq<Key>)> {
    var (version, s1) :- ReadVersion(s);
    var (header, s2) :- ReadHeader(s1);
    var (keys, s3) :- ReadVec(ReadKey, s2);
    Ok(((version, header, keys), s3))
  }

  lemma HeadStable(s: bytes, more: bytes)
    ensures Settled(ReadHead(s), ReadHead(s + more), more)
  {
    KeyStable();
    VersionStable(s, more);
    hide ReadVersion, ReadHeader, ReadKey;
    if ReadVersion(s).Ok? {
      var s1 := ReadVersion(s).value.1;
      HeaderStable(s1, more);
      if ReadHeader(s1).Ok? {
        VecStable(ReadKey, ReadHeader(s1).value.1, more);
      }
    }
  }

  lemma MessageInParts(s: bytes)
    ensures ReadMessage(s) ==
            if ReadHead(s).Err? then Err(ReadHead(s).error)
            else
              var ((version, header, keys), rest) := ReadHead(s).value;
              if ReadTail(version, rest).Err? then Err(ReadTail(version, rest).error)
              else
                var ((blockhash, instructions, lookups), end) := ReadTail(version, rest).value;
                Ok((Message(version, header, keys, blockhash, instructions, lookups, None), end))
  {
    hide ReadVersion, ReadHeader, ReadKey, ReadVec, ReadLookups;
  }

  lemma MessageStable(s: bytes, more: bytes)
    ensures Settled(ReadMessage(s), ReadMessage(s + more), more)
  {
    MessageInParts(s);
    MessageInParts(s + more);
    HeadStable(s, more);
    if ReadHead(s).Ok? {
      TailStable(ReadHead(s).value.0.0, ReadHead(s).value.1, more);
    }
    hide ReadMessage, ReadHead, ReadTail;
  }

  // ---------------------------------------------------------------- v1 messages

  lemma {:induction false} DistinctKeysStable(n: nat, seen: seq<Key>, s: bytes, more: bytes)
    ensures Settled(ReadDistinctKeys(n, seen, s), ReadDistinctKeys(n, seen, s + more), more)
    decreases n
  {
    if n > 0 {
      KeyStable();
      assert Settled(ReadKey(s), ReadKey(s + more), more);
      if ReadKey(s).Ok? && ReadKey(s).value.0 !in seen {
        DistinctKeysStable(n - 1, seen + [ReadKey(s).value.0], ReadKey(s).value.1, more);
      }
    }
  }

  lemma PayloadStable(h: InstructionHeader, numKeys: nat, s: bytes, more: bytes)
    ensures Settled(ReadPayload(h, numKeys, s), ReadPayload(h, numKeys, s + more), more)
  {
    TakeStable(h.accounts, s, more);
    if Take(h.accounts, s).Ok? {
      TakeStable(h.dataLen, Take(h.accounts, s).value.1, more);
    }
    hide Take;
  }

  lemma {:induction false} PayloadsStable(hs: seq<InstructionHeader>, numKeys: nat, s: bytes, more: bytes)
    ensures Settled(ReadPayloads(hs, numKeys, s), ReadPayloads(hs, numKeys, s + more), more)
    decreases hs
  {
    if hs != [] {
      hide ReadPayload;
      PayloadStable(hs[0], numKeys, s, more);
      if ReadPayload(hs[0], numKeys, s).Ok? {
        PayloadsStable(hs[1..], numKeys, ReadPayload(hs[0], numKeys, s).value.1, more);
      }
    }
  }

  lemma V1InstructionsStable(numIx: nat, numKeys: nat, s: bytes, more: bytes)
    ensures Settled(ReadV1Instructions(numIx, numKeys, s), ReadV1Instructions(numIx, numKeys, s + more), more)
  {
    InstructionHeaderStable();
    ManyStable(ReadInstructionHeader, numIx, s, more);
    hide ReadInstructionHeader, ReadPayloads;
    if Many(ReadInstructionHeader, numIx, s).Ok? {
      var (hs, rest) := Many(ReadInstructionHeader, numIx, s).value;
      PayloadsStable(hs, numKeys, rest, more);
    }
  }

  lemma ConfigStable(mask: u32, s: bytes, more: bytes)
    ensures Settled(ReadConfig(mask, s), ReadConfig(mask, s + more), more)
  {
    U32Stable();
    ManyStable(ReadU32, CountOnes(mask), s, more);
    hide ReadU32, HeapSize, CountOnes;
  }

  lemma PrefixStable(s: bytes, more: bytes)
    ensures Settled(ReadV1Prefix(s), ReadV1Prefix(s + more), more)
  {
    ByteStable(s, more);
    if s != [] {
      HeaderStable(s[1..], more);
      if ReadHeader(s[1..]).Ok? {
        U32Stable();
        KeyStable();
        PrefixRestStable(ReadHeader(s[1..]).value.1, more);
      }
    }
    hide ReadHeader, ReadU32, ReadKey;
  }

  /** Mask, blockhash and the two counts, one after the other. */
  lemma PrefixRestStable(s: bytes, more: bytes)
    ensures Settled(ReadU32(s), ReadU32(s + more), more)
    ensures ReadU32(s).Ok? ==>
              var s1 := ReadU32(s).value.1;
              && Settled(ReadKey(s1), ReadKey(s1 + more), more)
              && (ReadKey(s1).Ok? ==>
                    var s2 := ReadKey(s1).value.1;
                    && Settled(ReadByte(s2), ReadByte(s2 + more), more)
                    && (s2 != [] ==> Settled(ReadByte(s2[1..]), ReadByte(s2[1..] + more), more)))
  {
    U32Stable();
    KeyStable();
    assert Settled(ReadU32(s), ReadU32(s + more), more);
    if ReadU32(s).Ok? {
      var s1 := ReadU32(s).value.1;
      assert Settled(ReadKey(s1), ReadKey(s1 + more), more);
      if ReadKey(s1).Ok? {
        var s2 := ReadKey(s1).value.1;
        ByteStable(s2, more);
        if s2 != [] {
          ByteStable(s2[1..], more);
        }
      }
    }
  }

  lemma BodyStable(p: V1Prefix, s: bytes, more: bytes)
    ensures Settled(ReadV1Body(p, s), ReadV1Body(p, s + more), more)
  {
    hide ReadDistinctKeys, ReadConfig, ReadV1Instructions;
    DistinctKeysStable(p.numKeys, [], s, more);
    if ReadDistinctKeys(p.numKeys, [], s).Ok? {
      var s1 := ReadDistinctKeys(p.numKeys, [], s).value.1;
      ConfigStable(p.mask, s1, more);
      if ReadConfig(p.mask, s1).Ok? {
        V1InstructionsStable(p.numIx, p.numKeys, ReadConfig(p.mask, s1).value.1, more);
      }
    }
  }

  lemma V1Stable(s: bytes, more: bytes)
    ensures Settled(ReadV1(s), ReadV1(s + more), more)
  {
    hide ReadV1Prefix, ReadV1Body;
    PrefixStable(s, more);
    if ReadV1Prefix(s).Ok? {
      BodyStable(ReadV1Prefix(s).value.0, ReadV1Prefix(s).value.1, more);
    }
  }

  // ---------------------------------------------------------------- whole inputs

  /** On input that is not v1, any verdict but `Truncated` is final. */
  lemma LegacyVerdictIsFinal(b: bytes, more: bytes)
    requires b != [] && b[0] != 0x81
    requires ParseTransaction(b) != Err(Truncated)
    ensures ParseTransaction(b + more) == ParseTransaction(b)
  {
    SignatureStable();
    VecStable(ReadSignature, b, more);
    hide ReadSignature, ReadMessage;
    if ReadVec(ReadSignature, b).Ok? {
      MessageStable(ReadVec(ReadSignature, b).value.1, more);
    }
  }

  /** The same for a message on its own. */
  lemma LegacyMessageVerdictIsFinal(b: bytes, more: bytes)
    requires b != [] && b[0] != 0x81
    requires ParseMessage(b) != Err(Truncated)
    ensures ParseMessage(b + more) == ParseMessage(b)
  {
    MessageStable(b, more);
    hide ReadMessage, ReadV1;
  }

  /** On v1 input an error other than `Truncated` is final, unless more bytes make the input too large. */
  lemma V1ErrorIsFinal(b: bytes, more: bytes)
    requires b != [] && b[0] == 0x81
    requires ParseTransaction(b).Err? && ParseTransaction(b) != Err(Truncated)
    ensures ParseTransaction(b + more)
         == if |b + more| > 4096 then Err(Other(TransactionTooLarge)) else ParseTransaction(b)
  {
    V1Stable(b, more);
    hide ReadV1, ReadSignature;
    if |b| <= 4096 && ReadV1(b).Ok? {
      var (m, s) := ReadV1(b).value;
      SignatureStable();
      ManyStable(ReadSignature, m.header.required, s, more);
    }
  }

  /** Every strict prefix of an accepted v1 transaction is truncated, and is told so. */
  lemma V1PrefixTruncated(b: bytes, n: nat)
    requires b != [] && b[0] == 0x81 && ParseTransaction(b).Ok? && n < |b|
    ensures ParseTransaction(b[..n]) == Err(Truncated)
  {
    hide ParseTransaction;
    NothingRejected();
    V1NoPrefix(b, n);
    V1WithinSize(b);
    if n == 0 {
      assert b[..n] == [];
    } else if ParseTransaction(b[..n]) != Err(Truncated) {
      assert b[..n] + b[n..] == b;
      V1ErrorIsFinal(b[..n], b[n..]);
    }
  }

  lemma V1WithinSize(b: bytes)
    requires b != [] && b[0] == 0x81 && ParseTransaction(b).Ok?
    ensures |b| <= 4096
  {
  }

  /** The message of a legacy or v0 transaction, and what it leaves unread. */
  function AfterSignatures(b: bytes): Parsed<Message> {
    var (signatures, s) :- ReadVec(ReadSignature, b);
    ReadMessage(s)
  }

  lemma AfterSignaturesStable(b: bytes, more: bytes)
    ensures Settled(AfterSignatures(b), AfterSignatures(b + more), more)
  {
    SignatureStable();
    VecStable(ReadSignature, b, more);
    hide ReadSignature, ReadMessage;
    if ReadVec(ReadSignature, b).Ok? {
      MessageStable(ReadVec(ReadSignature, b).value.1, more);
    }
  }

  lemma PrintedIsAllRead(t: Transaction)
    requires TransactionFits(t) && Unambiguous(t.message)
    ensures AfterSignatures(PutVec(PutSignature, t.signatures, PutMessage(t.message, []))) == Ok((t.message, []))
  {
    SignatureInverse();
    ReadVecComplete(ReadSignature, PutSignature, Any<Signature>, t.signatures, PutMessage(t.message, []));
    MessageComplete(t.message, []);
  }

  /** Every strict prefix of a legacy or v0 transaction's encoding is truncated, and is told so. */
  lemma LegacyPrefixTruncated(t: Transaction, n: nat)
    requires TransactionFits(t) && ParseTransaction(PutTransaction(t, [])) == Ok(t)
    requires n < |PutTransaction(t, [])|
    ensures ParseTransaction(PutTransaction(t, [])[..n]) == Err(Truncated)
  {
    var b := PutTransaction(t, []);
    var prefix, more := b[..n], b[n..];
    LegacyTransactionExact(t, []);
    LegacyFirstByte(t, []);
    PrintedIsAllRead(t);
    assert prefix + more == b;
    AfterSignaturesStable(prefix, more);
    NothingRejected();
    if n > 0 && ParseTransaction(prefix) != Err(Truncated) {
      LegacyVerdictIsFinal(prefix, more);
    }
    hide ReadSignature, ReadMessage, PutMessage, TransactionFits;
    assert n == 0 ==> prefix == [];
  }
}
