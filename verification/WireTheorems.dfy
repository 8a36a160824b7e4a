/** The parser and the printers are mutual inverses, for items, messages and whole transactions. */
module WireTheorems {
  import opened Common
  import opened Bytes
  import opened Wire

  predicate Any<T>(x: T) {
    true
  }

  // ---------------------------------------------------------------- items

  lemma KeyInverse()
    ensures Inverse(ReadKey, PutKey, Any<Key>)
    ensures Appends(PutKey)
  {
    forall s | ReadKey(s).Ok?
      ensures PutKey(ReadKey(s).value.0, ReadKey(s).value.1) == s
    {
    }
    forall k: Key, r
      ensures ReadKey(PutKey(k, r)) == Ok((k, r))
    {
      TakeInverse(k, r);
    }
    forall k: Key, r
      ensures PutKey(k, r) == PutKey(k, []) + r
    {
      assert k + [] == k;
    }
  }

  lemma SignatureInverse()
    ensures Inverse(ReadSignature, PutSignature, Any<Signature>)
    ensures Appends(PutSignature)
    ensures forall g: Signature, r: bytes :: |PutSignature(g, r)| == SIGNATURE_LEN + |r|
  {
    forall s | ReadSignature(s).Ok?
      ensures PutSignature(ReadSignature(s).value.0, ReadSignature(s).value.1) == s
    {
    }
    forall g: Signature, r
      ensures ReadSignature(PutSignature(g, r)) == Ok((g, r))
    {
      TakeInverse(g, r);
    }
    forall g: Signature, r
      ensures PutSignature(g, r) == PutSignature(g, []) + r
    {
      assert g + [] == g;
    }
  }

  lemma U32Inverse()
    ensures Inverse(ReadU32, PutU32, Any<u32>)
    ensures Appends(PutU32)
  {
    Widths();
    forall s | ReadU32(s).Ok?
      ensures PutU32(ReadU32(s).value.0, ReadU32(s).value.1) == s
    {
      FromLEInverse(s[..4]);
    }
    forall v: u32, r
      ensures ReadU32(PutU32(v, r)) == Ok((v, r))
    {
      ReadLEComplete(v, 4, r);
    }
    forall v: u32, r
      ensures PutU32(v, r) == PutU32(v, []) + r
    {
      assert LE(v, 4) + [] == LE(v, 4);
    }
  }

  lemma InstructionInverse()
    ensures Inverse(ReadInstruction, PutInstruction, InstructionFits)
  {
    forall s | ReadInstruction(s).Ok?
      ensures InstructionFits(ReadInstruction(s).value.0)
      ensures PutInstruction(ReadInstruction(s).value.0, ReadInstruction(s).value.1) == s
    {
      ByteVecSound(s[1..]);
      ByteVecSound(ReadByteVec(s[1..]).value.1);
    }
    forall ix, r | InstructionFits(ix)
      ensures ReadInstruction(PutInstruction(ix, r)) == Ok((ix, r))
    {
      ByteVecComplete(ix.data, r);
      ByteVecComplete(ix.accounts, PutByteVec(ix.data, r));
      assert PutInstruction(ix, r)[1..] == PutByteVec(ix.accounts, PutByteVec(ix.data, r));
    }
  }

  lemma LookupInverse()
    ensures Inverse(ReadLookup, PutLookup, LookupFits)
  {
    KeyInverse();
    forall s | ReadLookup(s).Ok?
      ensures LookupFits(ReadLookup(s).value.0)
      ensures PutLookup(ReadLookup(s).value.0, ReadLookup(s).value.1) == s
    {
      ByteVecSound(s[32..]);
      ByteVecSound(ReadByteVec(s[32..]).value.1);
    }
    forall l, r | LookupFits(l)
      ensures ReadLookup(PutLookup(l, r)) == Ok((l, r))
    {
      ByteVecComplete(l.readonly, r);
      ByteVecComplete(l.writable, PutByteVec(l.readonly, r));
      TakeInverse(l.table, PutByteVec(l.writable, PutByteVec(l.readonly, r)));
    }
  }

  lemma HeaderSound(s: bytes)
    requires ReadHeader(s).Ok?
    ensures PutHeader(ReadHeader(s).value.0, ReadHeader(s).value.1) == s
  {
    assert s[1..][1..] == s[2..] && s[2..][1..] == s[3..];
    assert s == [s[0], s[1], s[2]] + s[3..];
  }

  lemma HeaderComplete(h: Header, rest: bytes)
    ensures ReadHeader(PutHeader(h, rest)) == Ok((h, rest))
  {
    var s := PutHeader(h, rest);
    assert s[1..] == [h.readonlySigned, h.readonlyUnsigned] + rest;
    assert s[1..][1..] == [h.readonlyUnsigned] + rest;
    assert s[1..][1..][1..] == rest;
  }

  // ---------------------------------------------------------------- legacy and v0

  /** What cannot be read back as written: a legacy header byte that looks like a version tag. */
  predicate Unambiguous(m: Message) {
    m.version == Legacy ==> m.header.required < 0x80
  }

  lemma LookupsSound(m: Message, s: bytes)
    requires ReadLookups(m.version, s).Ok? && m.lookups == ReadLookups(m.version, s).value.0
    ensures |m.lookups| < 0x1_0000 && forall i :: 0 <= i < |m.lookups| ==> LookupFits(m.lookups[i])
    ensures m.version != V0 ==> m.lookups == []
    ensures PutLookups(m, ReadLookups(m.version, s).value.1) == s
  {
    if m.version == V0 {
      LookupInverse();
      ReadVecSound(ReadLookup, PutLookup, LookupFits, s);
    }
  }

  lemma VersionSound(s: bytes)
    requires ReadVersion(s).Ok?
    ensures ReadVersion(s).value.0 != V1
    ensures PutVersion(ReadVersion(s).value.0, ReadVersion(s).value.1) == s
    ensures ReadVersion(s).value.0 == Legacy ==> s[0] < 0x80
  {
  }

  /** Every accepted legacy or v0 message is the printed form of what was read. */
  lemma MessageSound(s: bytes)
    requires ReadMessage(s).Ok?
    ensures MessageFits(ReadMessage(s).value.0) && Unambiguous(ReadMessage(s).value.0)
    ensures PutMessage(ReadMessage(s).value.0, ReadMessage(s).value.1) == s
  {
    var m := ReadMessage(s).value.0;
    VersionSound(s);
    var s1 := ReadVersion(s).value.1;
    HeaderSound(s1);
    var s2 := ReadHeader(s1).value.1;
    KeyInverse();
    ReadVecSound(ReadKey, PutKey, Any<Key>, s2);
    var s3 := ReadVec(ReadKey, s2).value.1;
    var s4 := ReadKey(s3).value.1;
    assert PutKey(m.blockhash, s4) == s3;
    InstructionInverse();
    ReadVecSound(ReadInstruction, PutInstruction, InstructionFits, s4);
    LookupsSound(m, ReadVec(ReadInstruction, s4).value.1);
  }

  lemma LookupsComplete(m: Message, rest: bytes)
    requires MessageFits(m)
    ensures ReadLookups(m.version, PutLookups(m, rest)) == Ok((m.lookups, rest))
  {
    if m.version == V0 {
      LookupInverse();
      ReadVecComplete(ReadLookup, PutLookup, LookupFits, m.lookups, rest);
    }
  }

  /** Every representable, unambiguous legacy or v0 message is read back, whatever follows it. */
  lemma MessageComplete(m: Message, rest: bytes)
    requires MessageFits(m) && Unambiguous(m)
    ensures ReadMessage(PutMessage(m, rest)) == Ok((m, rest))
  {
    var s5 := PutLookups(m, rest);
    var s4 := PutVec(PutInstruction, m.instructions, s5);
    var s3 := PutKey(m.blockhash, s4);
    var s2 := PutVec(PutKey, m.keys, s3);
    var s1 := PutHeader(m.header, s2);
    LookupsComplete(m, rest);
    InstructionInverse();
    ReadVecComplete(ReadInstruction, PutInstruction, InstructionFits, m.instructions, s5);
    KeyInverse();
    TakeInverse(m.blockhash, s4);
    ReadVecComplete(ReadKey, PutKey, Any<Key>, m.keys, s3);
    HeaderComplete(m.header, s2);
    assert PutVersion(V0, s1)[1..] == s1;
    assert ReadVersion(PutVersion(m.version, s1)) == Ok((m.version, s1));
  }

  /** A legacy message whose signer count has its high bit set is taken for v0 or for an unknown version. */
  lemma AmbiguousMessageMisread(m: Message, rest: bytes)
    requires MessageFits(m) && !Unambiguous(m)
    ensures var r := ReadMessage(PutMessage(m, rest));
            if m.header.required == 0x80 then r.Ok? ==> r.value.0.version == V0
            else r == Err(Other(UnsupportedVersion))
  {
  }

  lemma MessageFirstByte(m: Message, rest: bytes)
    requires MessageFits(m)
    ensures PutMessage(m, rest) != []
    ensures PutMessage(m, rest)[0] == if m.version == V0 then 0x80 else m.header.required
  {
    hide PutVec, PutKey;
  }

  /** Exactly which legacy and v0 messages are read back as written when they come alone, whatever follows them. */
  lemma LegacyMessageExact(m: Message, rest: bytes)
    requires MessageFits(m)
    ensures ParseMessage(PutMessage(m, rest)) == Ok(m) <==> (m.version == Legacy ==> m.header.required < 0x80)
  {
    MessageFirstByte(m, rest);
    hide PutMessage, ReadV1, ReadMessage, MessageFits;
    if Unambiguous(m) {
      MessageComplete(m, rest);
    } else {
      AmbiguousMessageRejected(m, rest);
    }
  }

  lemma AmbiguousMessageRejected(m: Message, rest: bytes)
    requires MessageFits(m) && !Unambiguous(m)
    ensures ParseMessage(PutMessage(m, rest)) != Ok(m)
  {
    AmbiguousMessageMisread(m, rest);
    MessageFirstByte(m, rest);
    hide PutMessage, ReadMessage, MessageFits, ReadV1Prefix;
  }

  /** An accepted message that is not v1 starts with the printed form of its parse. */
  lemma LegacyMessageSound(b: bytes) returns (rest: bytes)
    requires ParseMessage(b).Ok? && ParseMessage(b).value.version != V1
    ensures MessageFits(ParseMessage(b).value)
    ensures ParseMessage(b).value.version == Legacy ==> ParseMessage(b).value.header.required < 0x80
    ensures PutMessage(ParseMessage(b).value, rest) == b
  {
    hide MessageFits, PutMessage, ReadV1Prefix;
    MessageSound(b);
    rest := ReadMessage(b).value.1;
  }

  predicate TransactionFits(t: Transaction) {
    MessageFits(t.message) && |t.signatures| < 0x1_0000
  }

  /** The first byte of the signature count would read as the v1 version tag. */
  predicate CountLooksLikeV1(n: nat) {
    n >= 0x80 && n % 0x80 == 1
  }

  lemma LegacyFirstByte(t: Transaction, rest: bytes)
    requires TransactionFits(t)
    ensures PutTransaction(t, rest) != []
    ensures PutTransaction(t, rest)[0] == 0x81 <==> CountLooksLikeV1(|t.signatures|)
  {
  }

  /** An accepted transaction that is not v1 starts with the printed form of its parse. */
  lemma LegacyTransactionSound(b: bytes) returns (rest: bytes)
    requires ParseTransaction(b).Ok? && ParseTransaction(b).value.message.version != V1
    ensures TransactionFits(ParseTransaction(b).value) && Unambiguous(ParseTransaction(b).value.message)
    ensures !CountLooksLikeV1(|ParseTransaction(b).value.signatures|)
    ensures PutTransaction(ParseTransaction(b).value, rest) == b
  {
    SignatureInverse();
    ReadVecSound(ReadSignature, PutSignature, Any<Signature>, b);
    var s := ReadVec(ReadSignature, b).value.1;
    MessageSound(s);
    rest := ReadMessage(s).value.1;
    LegacyFirstByte(ParseTransaction(b).value, rest);
  }

  /** Exactly which legacy and v0 transactions are read back as written. */
  lemma LegacyTransactionExact(t: Transaction, rest: bytes)
    requires TransactionFits(t)
    ensures ParseTransaction(PutTransaction(t, rest)) == Ok(t) <==>
            !CountLooksLikeV1(|t.signatures|) && Unambiguous(t.message)
  {
    LegacyFirstByte(t, rest);
    if !CountLooksLikeV1(|t.signatures|) {
      var s := PutMessage(t.message, rest);
      SignatureInverse();
      ReadVecComplete(ReadSignature, PutSignature, Any<Signature>, t.signatures, s);
      if Unambiguous(t.message) {
        MessageComplete(t.message, rest);
      } else {
        AmbiguousMessageMisread(t.message, rest);
      }
    }
  }
}
