/**
  SIMD-0385 v1 transactions: the parser accepts a byte string exactly when it is the encoding of a
  transaction within the format's limits, and the encoding delimits itself.
 */
module V1Theorems {
  import opened Common
  import opened Bytes
  import opened Wire
  import opened WireTheorems

  // ---------------------------------------------------------------- keys

  lemma {:induction false} DistinctKeysSound(n: nat, seen: seq<Key>, s: bytes)
    requires Distinct(seen)
    requires ReadDistinctKeys(n, seen, s).Ok?
    ensures var (keys, rest) := ReadDistinctKeys(n, seen, s).value;
            && |keys| == |seen| + n && seen <= keys && Distinct(keys)
            && PutAll(PutKey, keys[|seen|..], rest) == s
    decreases n
  {
    var (keys, end) := ReadDistinctKeys(n, seen, s).value;
    if n == 0 {
      assert keys[|seen|..] == [];
    } else {
      var (k, rest) := ReadKey(s).value;
      DistinctKeysSound(n - 1, seen + [k], rest);
      assert keys[|seen|..] == [k] + keys[|seen| + 1..];
      assert keys[|seen|..][1..] == keys[|seen| + 1..];
    }
  }

  lemma DistinctExtends(seen: seq<Key>, k: Key)
    requires Distinct(seen)
    ensures Distinct(seen + [k]) <==> k !in seen
  {
    if k in seen {
      var i :| 0 <= i < |seen| && seen[i] == k;
      assert (seen + [k])[i] == (seen + [k])[|seen|];
    }
  }

  lemma DistinctPrefix(a: seq<Key>, b: seq<Key>)
    requires Distinct(a + b)
    ensures Distinct(a)
  {
    assert forall i :: 0 <= i < |a| ==> (a + b)[i] == a[i];
  }

  /** Keys are read back unless one repeats. */
  lemma {:induction false} DistinctKeysVerdict(seen: seq<Key>, more: seq<Key>, rest: bytes)
    requires Distinct(seen)
    ensures ReadDistinctKeys(|more|, seen, PutAll(PutKey, more, rest))
         == if Distinct(seen + more) then Ok((seen + more, rest)) else Err(Other(DuplicateAddress))
    decreases more
  {
    hide Distinct;
    if more == [] {
      assert seen + more == seen;
    } else {
      var k := more[0];
      assert seen + more == (seen + [k]) + more[1..];
      TakeInverse(k, PutAll(PutKey, more[1..], rest));
      DistinctExtends(seen, k);
      if k in seen {
        if Distinct(seen + more) {
          DistinctPrefix(seen + [k], more[1..]);
        }
      } else {
        DistinctKeysVerdict(seen + [k], more[1..], rest);
      }
    }
  }

  // ---------------------------------------------------------------- instructions

  lemma InstructionHeaderInverse()
    ensures Inverse(ReadInstructionHeader, PutInstructionHeader, Any<InstructionHeader>)
    ensures Appends(PutInstructionHeader)
  {
    forall s | ReadInstructionHeader(s).Ok?
      ensures PutInstructionHeader(ReadInstructionHeader(s).value.0, ReadInstructionHeader(s).value.1) == s
    {
      assert s == [s[0], s[1], s[2], s[3]] + s[4..];
    }
    forall h, r
      ensures ReadInstructionHeader(PutInstructionHeader(h, r)) == Ok((h, r))
    {
      assert PutInstructionHeader(h, r)[4..] == r;
    }
    forall h, r
      ensures PutInstructionHeader(h, r) == PutInstructionHeader(h, []) + r
    {
    }
  }

  lemma PayloadSound(h: InstructionHeader, numKeys: nat, s: bytes)
    requires ReadPayload(h, numKeys, s).Ok?
    ensures var (ix, rest) := ReadPayload(h, numKeys, s).value;
            && V1InstructionAllowed(ix, numKeys) && HeaderOf(ix) == h && PutPayload(ix, rest) == s
  {
  }

  /** An instruction whose lengths fit their fields is read back unless an index is out of range. */
  lemma PayloadVerdict(ix: CompiledInstruction, numKeys: nat, rest: bytes)
    requires |ix.accounts| < 0x100 && |ix.data| < 0x1_0000
    ensures ReadPayload(HeaderOf(ix), numKeys, PutPayload(ix, rest))
         == if V1InstructionAllowed(ix, numKeys) then Ok((ix, rest)) else Err(Other(IndexOutOfRange))
  {
    TakeInverse(ix.accounts, ix.data + rest);
    TakeInverse(ix.data, rest);
  }

  lemma {:induction false} PayloadsSound(hs: seq<InstructionHeader>, numKeys: nat, s: bytes)
    requires ReadPayloads(hs, numKeys, s).Ok?
    ensures var (ixs, rest) := ReadPayloads(hs, numKeys, s).value;
            && |ixs| == |hs| && HeadersOf(ixs) == hs
            && (forall i :: 0 <= i < |ixs| ==> V1InstructionAllowed(ixs[i], numKeys))
            && PutAll(PutPayload, ixs, rest) == s
    decreases hs
  {
    if hs != [] {
      PayloadSound(hs[0], numKeys, s);
      var (ix, rest) := ReadPayload(hs[0], numKeys, s).value;
      PayloadsSound(hs[1..], numKeys, rest);
      var (ixs, end) := ReadPayloads(hs[1..], numKeys, rest).value;
      assert ([ix] + ixs)[1..] == ixs;
      assert [hs[0]] + hs[1..] == hs;
    }
  }

  ghost predicate LengthsFit(ixs: seq<CompiledInstruction>) {
    forall i :: 0 <= i < |ixs| ==> |ixs[i].accounts| < 0x100 && |ixs[i].data| < 0x1_0000
  }

  ghost predicate AllAllowed(ixs: seq<CompiledInstruction>, numKeys: nat) {
    forall i :: 0 <= i < |ixs| ==> V1InstructionAllowed(ixs[i], numKeys)
  }

  lemma AllAllowedStep(ixs: seq<CompiledInstruction>, numKeys: nat)
    requires ixs != []
    ensures AllAllowed(ixs, numKeys) <==> V1InstructionAllowed(ixs[0], numKeys) && AllAllowed(ixs[1..], numKeys)
  {
    assert forall i :: 0 < i < |ixs| ==> ixs[i] == ixs[1..][i - 1];
  }

  lemma {:induction false} PayloadsVerdict(ixs: seq<CompiledInstruction>, numKeys: nat, rest: bytes)
    requires LengthsFit(ixs)
    ensures |HeadersOf(ixs)| == |ixs|
    ensures ReadPayloads(HeadersOf(ixs), numKeys, PutAll(PutPayload, ixs, rest))
         == if AllAllowed(ixs, numKeys) then Ok((ixs, rest)) else Err(Other(IndexOutOfRange))
    decreases ixs
  {
    if ixs != [] {
      PayloadVerdict(ixs[0], numKeys, PutAll(PutPayload, ixs[1..], rest));
      PayloadsVerdict(ixs[1..], numKeys, rest);
      AllAllowedStep(ixs, numKeys);
      hide AllAllowed, V1InstructionAllowed, ReadPayload, HeaderOf, PutPayload;
      assert HeadersOf(ixs)[1..] == HeadersOf(ixs[1..]);
      assert [ixs[0]] + ixs[1..] == ixs;
    }
  }

  lemma InstructionsSound(numIx: nat, numKeys: nat, s: bytes)
    requires ReadV1Instructions(numIx, numKeys, s).Ok?
    ensures var (ixs, rest) := ReadV1Instructions(numIx, numKeys, s).value;
            && |ixs| == numIx
            && (forall i :: 0 <= i < |ixs| ==> V1InstructionAllowed(ixs[i], numKeys))
            && PutV1Instructions(ixs, rest) == s
  {
    InstructionHeaderInverse();
    ManySound(ReadInstructionHeader, PutInstructionHeader, Any<InstructionHeader>, numIx, s);
    var (hs, rest) := Many(ReadInstructionHeader, numIx, s).value;
    PayloadsSound(hs, numKeys, rest);
  }

  lemma InstructionsVerdict(ixs: seq<CompiledInstruction>, numKeys: nat, rest: bytes)
    requires LengthsFit(ixs)
    ensures ReadV1Instructions(|ixs|, numKeys, PutV1Instructions(ixs, rest))
         == if AllAllowed(ixs, numKeys) then Ok((ixs, rest)) else Err(Other(IndexOutOfRange))
  {
    PayloadsVerdict(ixs, numKeys, rest);
    InstructionHeaderInverse();
    ManyComplete(ReadInstructionHeader, PutInstructionHeader, Any<InstructionHeader>, HeadersOf(ixs),
                 PutAll(PutPayload, ixs, rest));
  }

  lemma InstructionsAppend(ixs: seq<CompiledInstruction>, a: bytes, r: bytes)
    ensures PutV1Instructions(ixs, a + r) == PutV1Instructions(ixs, a) + r
  {
    PayloadAppends();
    PutAllSplits(PutPayload, ixs, a, r);
    InstructionHeaderInverse();
    PutAllSplits(PutInstructionHeader, HeadersOf(ixs), PutAll(PutPayload, ixs, a), r);
  }

  // ---------------------------------------------------------------- prefix and configuration

  lemma PrefixSound(s: bytes)
    requires s != [] && s[0] == 0x81
    requires ReadV1Prefix(s).Ok?
    ensures var (p, rest) := ReadV1Prefix(s).value;
            && p.mask < 0x20 && CountsAllowed(p.header, p.numKeys, p.numIx)
            && PutV1Prefix(p, rest) == s
  {
    hide ReadHeader, PutHeader;
    HeaderSound(s[1..]);
    U32Inverse();
    KeyInverse();
    var s1 := ReadHeader(s[1..]).value.1;
    var s2 := ReadU32(s1).value.1;
    assert PutU32(ReadU32(s1).value.0, s2) == s1;
    var s3 := ReadKey(s2).value.1;
    assert PutKey(ReadKey(s2).value.0, s3) == s2;
    assert s3 == PutByte(s3[0], PutByte(s3[1], s3[1..][1..]));
  }

  lemma PrefixVerdict(p: V1Prefix, rest: bytes)
    ensures ReadV1Prefix(PutV1Prefix(p, rest))
         == if p.mask >= 0x20 then Err(Other(UnsupportedMask))
            else if !CountsAllowed(p.header, p.numKeys, p.numIx) then Err(Other(InvalidHeaderOrCounts))
            else Ok((p, rest))
  {
    var s4 := PutByte(p.numKeys, rest);
    var s3 := PutByte(p.numIx, s4);
    var s2 := PutKey(p.blockhash, s3);
    var s1 := PutU32(p.mask, s2);
    var s0 := PutHeader(p.header, s1);
    assert PutByte(0x81, s0)[1..] == s0 && s3[1..] == s4 && s4[1..] == rest;
    HeaderComplete(p.header, s1);
    U32Inverse();
    assert Any(p.mask);
    assert ReadU32(s1) == Ok((p.mask, s2));
    TakeInverse(p.blockhash, s3);
  }

  /** The two halves of the fee are both there or both absent. */
  lemma FeeBits(mask: nat)
    ensures FeeBitsPaired(mask) <==> mask % 2 == mask / 2 % 2
  {
  }

  lemma ConfigSound(mask: u32, s: bytes)
    requires mask < 0x20 && ReadConfig(mask, s).Ok?
    ensures var (c, rest) := ReadConfig(mask, s).value;
            && ConfigAllowed(c) && c.mask == mask && PutConfig(Some(c), rest) == s
  {
    FeeBits(mask);
    hide FeeBitsPaired, HeapSize, CountOnes;
    U32Inverse();
    ManySound(ReadU32, PutU32, Any<u32>, CountOnes(mask), s);
  }

  lemma ConfigVerdict(c: Config, rest: bytes)
    requires |c.values| == CountOnes(c.mask)
    ensures ReadConfig(c.mask, PutConfig(Some(c), rest))
         == if c.mask % 2 != c.mask / 2 % 2 then Err(Other(UnpairedFeeBits))
            else if !(0x8000 <= HeapSize(c) <= 0x40000 && HeapSize(c) % 1024 == 0) then Err(Other(InvalidHeapSize))
            else Ok((c, rest))
  {
    FeeBits(c.mask);
    hide FeeBitsPaired, HeapSize, CountOnes;
    U32Inverse();
    ManyComplete(ReadU32, PutU32, Any<u32>, c.values, rest);
  }

  // ---------------------------------------------------------------- messages

  lemma BodySound(p: V1Prefix, s: bytes)
    requires p.mask < 0x20 && CountsAllowed(p.header, p.numKeys, p.numIx)
    requires ReadV1Body(p, s).Ok?
    ensures V1Allowed(ReadV1Body(p, s).value.0)
    ensures PrefixOf(ReadV1Body(p, s).value.0) == p
    ensures PutV1Body(ReadV1Body(p, s).value.0, ReadV1Body(p, s).value.1) == s
  {
    var (keys, s1) := ReadDistinctKeys(p.numKeys, [], s).value;
    DistinctKeysSound(p.numKeys, [], s);
    assert keys[0..] == keys;
    ConfigSound(p.mask, s1);
    var (config, s2) := ReadConfig(p.mask, s1).value;
    InstructionsSound(p.numIx, p.numKeys, s2);
  }

  /** The messages the v1 layout can print: every count fits its field. */
  ghost predicate V1Printable(m: Message) {
    && m.version == V1 && m.lookups == [] && m.config.Some?
    && |m.config.value.values| == CountOnes(m.config.value.mask)
    && |m.keys| < 0x100 && |m.instructions| < 0x100
    && LengthsFit(m.instructions)
  }

  /** The first limit of the format that a message breaks. */
  ghost function BrokenLimit(m: Message): Option<Reason>
    requires m.config.Some?
  {
    if m.config.value.mask >= 0x20 then Some(UnsupportedMask)
    else if !(&& m.header.readonlySigned < m.header.required <= 12
              && m.header.required + m.header.readonlyUnsigned <= |m.keys| <= 64
              && |m.instructions| <= 64) then Some(InvalidHeaderOrCounts)
    else BrokenInBody(m)
  }

  ghost function BrokenInBody(m: Message): Option<Reason>
    requires m.config.Some?
  {
    var c := m.config.value;
    if !Distinct(m.keys) then Some(DuplicateAddress)
    else if c.mask % 2 != c.mask / 2 % 2 then Some(UnpairedFeeBits)
    else if !(0x8000 <= HeapSize(c) <= 0x40000 && HeapSize(c) % 1024 == 0) then Some(InvalidHeapSize)
    else if !AllAllowed(m.instructions, |m.keys|) then Some(IndexOutOfRange)
    else None
  }

  lemma BodyVerdict(m: Message, rest: bytes)
    requires V1Printable(m)
    ensures ReadV1Body(PrefixOf(m), PutV1Body(m, rest))
         == match BrokenInBody(m)
            case None => Ok((m, rest))
            case Some(e) => Err(Other(e))
  {
    assert Len8(|m.keys|) == |m.keys| && Len8(|m.instructions|) == |m.instructions|;
    hide Distinct, AllAllowed, HeapSize, CountOnes, Len8;
    hide ReadDistinctKeys, ReadConfig, ReadV1Instructions, PutConfig, PutV1Instructions, PutKey, PutAll;
    var c := m.config.value;
    var s2 := PutV1Instructions(m.instructions, rest);
    var s1 := PutConfig(m.config, s2);
    DistinctKeysVerdict([], m.keys, s1);
    assert [] + m.keys == m.keys;
    if Distinct(m.keys) {
      ConfigVerdict(c, s2);
      if ReadConfig(c.mask, s1).Ok? {
        InstructionsVerdict(m.instructions, |m.keys|, rest);
      }
    }
  }

  /** A printed v1 message is read back, whatever follows it, or rejected for the first limit it breaks. */
  lemma V1Verdict(m: Message, rest: bytes)
    requires V1Printable(m)
    ensures ReadV1(PutV1(m, rest))
         == match BrokenLimit(m)
            case None => Ok((m, rest))
            case Some(e) => Err(Other(e))
  {
    PrefixVerdict(PrefixOf(m), PutV1Body(m, rest));
    BodyVerdict(m, rest);
    hide BrokenInBody, LengthsFit, CountOnes, ReadV1Prefix, ReadV1Body, PutV1Prefix, PutV1Body;
  }

  lemma AllowedIsUnbroken(m: Message)
    ensures V1Allowed(m) <==> V1Printable(m) && BrokenLimit(m) == None
  {
    hide CountOnes, HeapSize, Distinct;
  }

  /** Every accepted v1 message meets the format's limits and is the printed form of what was read. */
  lemma V1Sound(s: bytes)
    requires s != [] && s[0] == 0x81
    requires ReadV1(s).Ok?
    ensures V1Allowed(ReadV1(s).value.0)
    ensures PutV1(ReadV1(s).value.0, ReadV1(s).value.1) == s
  {
    PrefixSound(s);
    BodySound(ReadV1Prefix(s).value.0, ReadV1Prefix(s).value.1);
  }

  /** Every v1 message within the limits is read back, whatever follows it. */
  lemma V1Complete(m: Message, rest: bytes)
    requires V1Allowed(m)
    ensures ReadV1(PutV1(m, rest)) == Ok((m, rest))
  {
    AllowedIsUnbroken(m);
    V1Verdict(m, rest);
  }

  lemma PayloadAppends()
    ensures Appends(PutPayload)
  {
    forall ix: CompiledInstruction, r: bytes
      ensures PutPayload(ix, r) == PutPayload(ix, []) + r
    {
      assert ix.accounts + (ix.data + r) == ix.accounts + (ix.data + []) + r;
    }
  }

  lemma PrefixAppends(p: V1Prefix, a: bytes, r: bytes)
    ensures PutV1Prefix(p, a + r) == PutV1Prefix(p, a) + r
  {
    var s4 := PutByte(p.numKeys, a);
    assert PutByte(p.numKeys, a + r) == s4 + r;
    var s3 := PutByte(p.numIx, s4);
    assert PutByte(p.numIx, s4 + r) == s3 + r;
    var s2 := PutKey(p.blockhash, s3);
    assert PutKey(p.blockhash, s3 + r) == s2 + r;
    var s1 := PutU32(p.mask, s2);
    assert PutU32(p.mask, s2 + r) == s1 + r;
    var s0 := PutHeader(p.header, s1);
    assert PutHeader(p.header, s1 + r) == s0 + r;
    assert PutByte(0x81, s0 + r) == PutByte(0x81, s0) + r;
  }

  lemma Reassociate(a: bytes, b: bytes, c: bytes)
    ensures (a + b) + c == a + (b + c)
  {
  }

  lemma PutAllSplits<T(!new)>(e: (T, bytes) -> bytes, xs: seq<T>, a: bytes, r: bytes)
    requires Appends(e)
    ensures PutAll(e, xs, a + r) == PutAll(e, xs, a) + r
  {
    var head := PutAll(e, xs, []);
    assert PutAll(e, xs, a + r) == head + (a + r) by { PutAllAppends(e, xs, a + r); }
    assert PutAll(e, xs, a) == head + a by { PutAllAppends(e, xs, a); }
    Reassociate(head, a, r);
  }

  lemma ConfigAppends(c: Option<Config>, a: bytes, r: bytes)
    ensures PutConfig(c, a + r) == PutConfig(c, a) + r
  {
    if c.Some? {
      U32Inverse();
      PutAllSplits(PutU32, c.value.values, a, r);
    }
  }

  lemma V1Splits(m: Message, a: bytes, r: bytes)
    ensures PutV1(m, a + r) == PutV1(m, a) + r
  {
    InstructionsAppend(m.instructions, a, r);
    var s3 := PutV1Instructions(m.instructions, a);
    ConfigAppends(m.config, s3, r);
    var s2 := PutConfig(m.config, s3);
    KeyInverse();
    PutAllSplits(PutKey, m.keys, s2, r);
    PrefixAppends(PrefixOf(m), PutAll(PutKey, m.keys, s2), r);
  }

  lemma V1Appends(m: Message, rest: bytes)
    ensures PutV1(m, rest) == PutV1(m, []) + rest
  {
    V1Splits(m, [], rest);
    assert [] + rest == rest;
  }

  // ---------------------------------------------------------------- whole transactions

  /** A v1 transaction within every limit of the format, signatures and total size included. */
  ghost predicate V1TransactionAllowed(t: Transaction) {
    && V1Allowed(t.message)
    && |t.signatures| == t.message.header.required
    && |PutTransaction(t, [])| <= 4096
  }

  /** A byte string parses to a v1 transaction exactly when it is that transaction's encoding. */
  lemma V1TransactionExact(b: bytes, t: Transaction)
    requires b != [] && b[0] == 0x81
    ensures ParseTransaction(b) == Ok(t) <==> V1TransactionAllowed(t) && PutTransaction(t, []) == b
  {
    SignatureInverse();
    if ParseTransaction(b) == Ok(t) {
      V1Sound(b);
      ManySound(ReadSignature, PutSignature, Any<Signature>, t.message.header.required, ReadV1(b).value.1);
    }
    if V1TransactionAllowed(t) && PutTransaction(t, []) == b {
      V1Complete(t.message, PutAll(PutSignature, t.signatures, []));
      ManyComplete(ReadSignature, PutSignature, Any<Signature>, t.signatures, []);
    }
  }

  /** The signed part alone parses exactly when it encodes a message whose signed transaction still fits. */
  lemma V1MessageExact(b: bytes, m: Message)
    requires b != [] && b[0] == 0x81
    ensures ParseMessage(b) == Ok(m) <==>
            && V1Allowed(m) && PutV1(m, []) == b
            && |b| + 64 * m.header.required <= 4096
  {
    if ParseMessage(b) == Ok(m) {
      V1Sound(b);
    }
    if V1Allowed(m) && PutV1(m, []) == b {
      V1Complete(m, []);
    }
  }

  /**
    The parser's verdict on every printed v1 transaction, with bytes after it or not: the size, then
    the first limit that is broken, then the trailing bytes.
   */
  lemma V1TransactionVerdict(t: Transaction, more: bytes)
    requires V1Printable(t.message) && |t.signatures| == t.message.header.required
    ensures ParseTransaction(PutTransaction(t, more))
         == if |PutTransaction(t, more)| > 4096 then Err(Other(TransactionTooLarge))
            else match BrokenLimit(t.message)
              case Some(e) => Err(Other(e))
              case None => if more != [] then Err(Other(TrailingData)) else Ok(t)
  {
    V1Verdict(t.message, PutAll(PutSignature, t.signatures, more));
    SignatureInverse();
    ManyComplete(ReadSignature, PutSignature, Any<Signature>, t.signatures, more);
    assert PutTransaction(t, more)[0] == 0x81;
    hide V1Printable, BrokenLimit, ReadV1, PutV1;
  }

  /** The same for a signed part alone: the size it would have when signed is looked at last but one. */
  lemma V1MessageVerdict(m: Message, more: bytes)
    requires V1Printable(m)
    ensures ParseMessage(PutV1(m, more))
         == match BrokenLimit(m)
            case Some(e) => Err(Other(e))
            case None =>
              if |PutV1(m, more)| + 64 * m.header.required > 4096 then Err(Other(TransactionTooLarge))
              else if more != [] then Err(Other(TrailingData))
              else Ok(m)
  {
    V1Verdict(m, more);
    assert PutV1(m, more)[0] == 0x81;
    hide V1Printable, BrokenLimit, ReadV1, PutV1;
  }

  /** No strict extension of an accepted v1 transaction is accepted, and the error says which limit it breaks. */
  lemma V1NoExtension(b: bytes, more: bytes)
    requires b != [] && b[0] == 0x81 && ParseTransaction(b).Ok? && more != []
    ensures ParseTransaction(b + more)
         == Err(Other(if |b + more| > 4096 then TransactionTooLarge else TrailingData))
  {
    var t := ParseTransaction(b).value;
    V1TransactionExact(b, t);
    SignatureInverse();
    PutAllAppends(PutSignature, t.signatures, more);
    V1Splits(t.message, PutAll(PutSignature, t.signatures, []), more);
    V1Complete(t.message, PutAll(PutSignature, t.signatures, more));
    ManyComplete(ReadSignature, PutSignature, Any<Signature>, t.signatures, more);
  }

  lemma NothingRejected()
    ensures ParseTransaction([]) == Err(Truncated)
  {
  }

  /** No strict prefix of an accepted v1 transaction is accepted. */
  lemma V1NoPrefix(b: bytes, n: nat)
    requires b != [] && b[0] == 0x81 && ParseTransaction(b).Ok? && n < |b|
    ensures ParseTransaction(b[..n]).Err?
  {
    hide ParseTransaction;
    NothingRejected();
    if n == 0 {
      assert b[..n] == [];
    } else if ParseTransaction(b[..n]).Ok? {
      assert b[..n] + b[n..] == b;
      V1NoExtension(b[..n], b[n..]);
    }
  }

  lemma {:induction false} SignaturesFromBytes(n: nat, s: bytes)
    ensures Many(ReadSignature, n, s).Ok? <==> |s| >= 64 * n
    ensures Many(ReadSignature, n, s).Ok? ==> Many(ReadSignature, n, s).value.1 == s[64 * n..]
    decreases n
  {
    if n > 0 && |s| >= 64 {
      SignaturesFromBytes(n - 1, s[64..]);
    }
  }

  /** A signed part followed by bytes is a transaction exactly when those bytes are its signatures. */
  lemma V1SignedPart(m: bytes, sigs: bytes)
    requires m != [] && m[0] == 0x81 && ParseMessage(m).Ok?
    ensures ParseTransaction(m + sigs).Ok? <==> |sigs| == 64 * ParseMessage(m).value.header.required
    ensures ParseTransaction(m + sigs).Ok? ==> ParseTransaction(m + sigs).value.message == ParseMessage(m).value
  {
    var msg := ParseMessage(m).value;
    V1MessageExact(m, msg);
    V1Appends(msg, sigs);
    V1Complete(msg, sigs);
    SignaturesFromBytes(msg.header.required, sigs);
  }

  /** Conversely, an accepted transaction splits into an accepted signed part and its signatures. */
  lemma V1TransactionSplits(b: bytes)
    requires b != [] && b[0] == 0x81 && ParseTransaction(b).Ok?
    ensures var t := ParseTransaction(b).value;
            var cut := |b| - 64 * t.message.header.required;
            0 < cut <= |b| && ParseMessage(b[..cut]) == Ok(t.message)
  {
    var t := ParseTransaction(b).value;
    V1TransactionExact(b, t);
    var signed, sigs := PutV1(t.message, []), PutAll(PutSignature, t.signatures, []);
    V1Appends(t.message, sigs);
    SignatureInverse();
    PutAllLength(PutSignature, t.signatures, [], 64);
    V1Complete(t.message, []);
    assert b[..|signed|] == signed;
    V1MessageExact(signed, t.message);
  }
}
