/**
  Byte-string building blocks. A reader takes the unread bytes and returns a value with what is
  left; `Put` functions are their printers and write a value in front of given bytes.
 */
module Bytes {
  import opened Common

  datatype WireError = Truncated | NonCanonicalCompactU16 | Other(reason: Reason)

  datatype Reason =
    | CompactU16TooLarge
    | UnsupportedVersion
    | UnsupportedMask
    | InvalidHeaderOrCounts
    | DuplicateAddress
    | UnpairedFeeBits
    | InvalidHeapSize
    | IndexOutOfRange
    | TransactionTooLarge
    | TrailingData
    | InvalidMessageHeader
    | TooManyAccountKeys
    | SignatureCountMismatch
    | InvalidTag

  type Parsed<+T> = Result<(T, bytes), WireError>

  // ---------------------------------------------------------------- raw bytes and fixed-width integers

  function Take(n: nat, s: bytes): Parsed<bytes> {
    if |s| < n then Err(Truncated) else Ok((s[..n], s[n..]))
  }

  function ReadByte(s: bytes): Parsed<byte> {
    if s == [] then Err(Truncated) else Ok((s[0], s[1..]))
  }

  function PutByte(b: byte, rest: bytes): bytes {
    [b] + rest
  }

  function FromLE(s: bytes): nat {
    if s == [] then 0 else s[0] + 0x100 * FromLE(s[1..])
  }

  function LE(v: nat, n: nat): (s: bytes)
    ensures |s| == n
  {
    if n == 0 then [] else [v % 0x100] + LE(v / 0x100, n - 1)
  }

  function Pow256(n: nat): nat {
    if n == 0 then 1 else 0x100 * Pow256(n - 1)
  }

  lemma {:induction false} FromLEInverse(s: bytes)
    ensures FromLE(s) < Pow256(|s|)
    ensures LE(FromLE(s), |s|) == s
  {
    if s != [] {
      FromLEInverse(s[1..]);
      assert FromLE(s) % 0x100 == s[0] && FromLE(s) / 0x100 == FromLE(s[1..]);
    }
  }

  lemma {:induction false} LEInverse(v: nat, n: nat)
    requires v < Pow256(n)
    ensures FromLE(LE(v, n)) == v
  {
    if n > 0 {
      LEInverse(v / 0x100, n - 1);
      assert LE(v, n)[1..] == LE(v / 0x100, n - 1);
    }
  }

  /** A little-endian unsigned integer of `n` bytes. */
  function ReadLE(n: nat, s: bytes): Parsed<nat> {
    var (b, rest) :- Take(n, s);
    Ok((FromLE(b), rest))
  }

  function PutLE(v: nat, n: nat, rest: bytes): bytes {
    LE(v, n) + rest
  }

  lemma ReadLESound(n: nat, s: bytes)
    requires ReadLE(n, s).Ok?
    ensures ReadLE(n, s).value.0 < Pow256(n)
    ensures PutLE(ReadLE(n, s).value.0, n, ReadLE(n, s).value.1) == s
  {
    FromLEInverse(s[..n]);
  }

  lemma ReadLEComplete(v: nat, n: nat, rest: bytes)
    requires v < Pow256(n)
    ensures ReadLE(n, PutLE(v, n, rest)) == Ok((v, rest))
  {
    LEInverse(v, n);
    assert PutLE(v, n, rest)[..n] == LE(v, n) && PutLE(v, n, rest)[n..] == rest;
  }

  lemma TakeInverse(b: bytes, rest: bytes)
    ensures Take(|b|, b + rest) == Ok((b, rest))
  {
    assert (b + rest)[..|b|] == b && (b + rest)[|b|..] == rest;
  }

  /** The widths in use; stated once so that no proof unrolls `Pow256`. */
  lemma Widths()
    ensures Pow256(2) == 0x1_0000 && Pow256(4) == 0x1_0000_0000 && Pow256(8) == 0x1_0000_0000_0000_0000
  {
    assert Pow256(3) == 0x100 * Pow256(2);
    assert Pow256(4) == 0x100 * Pow256(3);
    assert Pow256(5) == 0x100 * Pow256(4);
    assert Pow256(6) == 0x100 * Pow256(5);
    assert Pow256(7) == 0x100 * Pow256(6);
  }

  // ---------------------------------------------------------------- compact-u16

  function Shift7(i: nat): nat
    requires i < 3
  {
    if i == 0 then 1 else if i == 1 then 0x80 else 0x4000
  }

  /** Byte `i` of a strict compact-u16, with `acc` read so far: seven bits a byte, low bits first. */
  function CompactFrom(i: nat, acc: nat, s: bytes): Parsed<u16>
    requires i <= 3
    decreases s
  {
    if i == 3 then Err(NonCanonicalCompactU16)
    else
      var (b, rest) :- ReadByte(s);
      var result := acc + b % 0x80 * Shift7(i);
      if b >= 0x80 then CompactFrom(i + 1, result, rest)
      else if i > 0 && b == 0 then Err(NonCanonicalCompactU16)
      else if result > 0xFFFF then Err(Other(CompactU16TooLarge))
      else Ok((result, rest))
  }

  function ReadCompact(s: bytes): Parsed<u16> {
    CompactFrom(0, 0, s)
  }

  /** The one accepted encoding of a length. */
  function PutCompact(v: u16, rest: bytes): bytes {
    if v < 0x80 then [v] + rest
    else if v < 0x4000 then [v % 0x80 + 0x80, v / 0x80] + rest
    else [v % 0x80 + 0x80, v / 0x80 % 0x80 + 0x80, v / 0x4000] + rest
  }

  function Groups(b0: nat, b1: nat, b2: nat): nat {
    b0 + b1 * 0x80 + b2 * 0x4000
  }

  lemma CompactSteps(s: bytes)
    requires |s| > 0 && s[0] >= 0x80
    ensures ReadCompact(s) == CompactFrom(1, s[0] - 0x80, s[1..])
    ensures |s| > 1 && s[1] >= 0x80 ==>
              ReadCompact(s) == CompactFrom(2, Groups(s[0], s[1], 0) - 0x4080, s[2..])
  {
    if |s| > 1 && s[1] >= 0x80 {
      assert s[1..][1..] == s[2..];
    }
  }

  /** The outcome of reading a compact-u16, from the first three bytes. */
  lemma CompactVerdict(s: bytes)
    ensures ReadCompact(s) ==
            if |s| == 0 then Err(Truncated)
            else if s[0] < 0x80 then Ok((s[0], s[1..]))
            else if |s| == 1 then Err(Truncated)
            else if s[1] == 0 then Err(NonCanonicalCompactU16)
            else if s[1] < 0x80 then Ok((Groups(s[0], s[1], 0) - 0x80, s[2..]))
            else if |s| == 2 then Err(Truncated)
            else if s[2] == 0 || s[2] >= 0x80 then Err(NonCanonicalCompactU16)
            else if s[2] >= 4 then Err(Other(CompactU16TooLarge))
            else Ok((Groups(s[0], s[1], s[2]) - 0x4080, s[3..]))
  {
    if |s| > 0 && s[0] >= 0x80 {
      CompactSteps(s);
      assert |s| > 1 ==> s[1..][1..] == s[2..];
      assert |s| > 2 ==> s[2..][1..] == s[3..];
    }
  }

  lemma CompactComplete(v: u16, rest: bytes)
    ensures ReadCompact(PutCompact(v, rest)) == Ok((v, rest))
  {
    var s := PutCompact(v, rest);
    CompactVerdict(s);
    hide ReadCompact;
    assert v >= 0x4000 ==> s[3..] == rest;
    assert 0x80 <= v < 0x4000 ==> s[2..] == rest;
  }

  lemma CompactSound(s: bytes)
    requires ReadCompact(s).Ok?
    ensures PutCompact(ReadCompact(s).value.0, ReadCompact(s).value.1) == s
  {
    CompactVerdict(s);
    hide ReadCompact;
    if s[0] < 0x80 {
      assert s == [s[0]] + s[1..];
    } else if s[1] < 0x80 {
      GroupDigits(s[0] - 0x80, s[1], 0);
      assert s == [s[0], s[1]] + s[2..];
    } else {
      GroupDigits(s[0] - 0x80, s[1] - 0x80, s[2]);
      assert s == [s[0], s[1], s[2]] + s[3..];
    }
  }

  lemma GroupDigits(b0: nat, b1: nat, b2: nat)
    requires b0 < 0x80 && b1 < 0x80
    ensures Groups(b0, b1, b2) % 0x80 == b0
    ensures Groups(b0, b1, b2) / 0x80 == b1 + b2 * 0x80
    ensures Groups(b0, b1, b2) / 0x80 % 0x80 == b1
    ensures Groups(b0, b1, b2) / 0x4000 == b2
  {
    var high := b1 + b2 * 0x80;
    assert Groups(b0, b1, b2) == b0 + 0x80 * high;
    assert high / 0x80 == b2 && high % 0x80 == b1;
    assert Groups(b0, b1, b2) == (b0 + 0x80 * b1) + 0x4000 * b2 && b0 + 0x80 * b1 < 0x4000;
  }

  // ---------------------------------------------------------------- sequences of items

  function Many<T>(p: bytes -> Parsed<T>, n: nat, s: bytes): Parsed<seq<T>> {
    if n == 0 then Ok(([], s))
    else
      var (x, rest) :- p(s);
      var (xs, end) :- Many(p, n - 1, rest);
      Ok(([x] + xs, end))
  }

  function PutAll<T>(e: (T, bytes) -> bytes, xs: seq<T>, rest: bytes): bytes {
    if xs == [] then rest else e(xs[0], PutAll(e, xs[1..], rest))
  }

  /** Reader `p` and printer `e` undo each other on the `valid` values. */
  ghost predicate Inverse<T(!new)>(p: bytes -> Parsed<T>, e: (T, bytes) -> bytes, valid: T -> bool) {
    && (forall s :: p(s).Ok? ==> valid(p(s).value.0) && e(p(s).value.0, p(s).value.1) == s)
    && (forall x, r :: valid(x) ==> p(e(x, r)) == Ok((x, r)))
  }

  lemma {:induction false} ManySound<T(!new)>(
    p: bytes -> Parsed<T>, e: (T, bytes) -> bytes, valid: T -> bool, n: nat, s: bytes)
    requires Inverse(p, e, valid)
    requires Many(p, n, s).Ok?
    ensures var (xs, rest) := Many(p, n, s).value;
            && |xs| == n
            && (forall i :: 0 <= i < |xs| ==> valid(xs[i]))
            && PutAll(e, xs, rest) == s
    decreases n
  {
    if n > 0 {
      var (x, rest) := p(s).value;
      ManySound(p, e, valid, n - 1, rest);
      var (xs, end) := Many(p, n - 1, rest).value;
      assert ([x] + xs)[1..] == xs;
    }
  }

  lemma {:induction false} ManyComplete<T(!new)>(
    p: bytes -> Parsed<T>, e: (T, bytes) -> bytes, valid: T -> bool, xs: seq<T>, rest: bytes)
    requires Inverse(p, e, valid)
    requires forall i :: 0 <= i < |xs| ==> valid(xs[i])
    ensures Many(p, |xs|, PutAll(e, xs, rest)) == Ok((xs, rest))
    decreases xs
  {
    if xs != [] {
      ManyComplete(p, e, valid, xs[1..], rest);
      assert valid(xs[0]);
      assert [xs[0]] + xs[1..] == xs;
    }
  }

  /** Bytes written later never disturb bytes written earlier. */
  ghost predicate Appends<T(!new)>(e: (T, bytes) -> bytes) {
    forall x, r :: e(x, r) == e(x, []) + r
  }

  lemma {:induction false} PutAllAppends<T(!new)>(e: (T, bytes) -> bytes, xs: seq<T>, rest: bytes)
    requires Appends(e)
    ensures PutAll(e, xs, rest) == PutAll(e, xs, []) + rest
    decreases xs
  {
    if xs != [] {
      PutAllAppends(e, xs[1..], rest);
      var head, tail := e(xs[0], []), PutAll(e, xs[1..], []);
      assert e(xs[0], tail + rest) == head + (tail + rest);
      assert e(xs[0], tail) == head + tail;
      assert head + (tail + rest) == (head + tail) + rest;
    }
  }

  lemma {:induction false} PutAllLength<T(!new)>(e: (T, bytes) -> bytes, xs: seq<T>, rest: bytes, width: nat)
    requires forall x, r :: |e(x, r)| == width + |r|
    ensures |PutAll(e, xs, rest)| == width * |xs| + |rest|
    decreases xs
  {
    if xs != [] {
      PutAllLength(e, xs[1..], rest, width);
      assert width * |xs| == width + width * |xs[1..]|;
    }
  }

  // ---------------------------------------------------------------- vectors with a compact length

  function ReadVec<T>(p: bytes -> Parsed<T>, s: bytes): Parsed<seq<T>> {
    var (n, rest) :- ReadCompact(s);
    Many(p, n, rest)
  }

  /** A length as u16; the formats give no encoding to longer vectors. */
  function Len16(n: nat): u16 {
    if n < 0x1_0000 then n else 0
  }

  function PutVec<T>(e: (T, bytes) -> bytes, xs: seq<T>, rest: bytes): bytes {
    PutCompact(Len16(|xs|), PutAll(e, xs, rest))
  }

  lemma ReadVecSound<T(!new)>(p: bytes -> Parsed<T>, e: (T, bytes) -> bytes, valid: T -> bool, s: bytes)
    requires Inverse(p, e, valid)
    requires ReadVec(p, s).Ok?
    ensures var (xs, rest) := ReadVec(p, s).value;
            && |xs| < 0x1_0000
            && (forall i :: 0 <= i < |xs| ==> valid(xs[i]))
            && PutVec(e, xs, rest) == s
  {
    CompactSound(s);
    var (n, rest) := ReadCompact(s).value;
    ManySound(p, e, valid, n, rest);
  }

  lemma ReadVecComplete<T(!new)>(
    p: bytes -> Parsed<T>, e: (T, bytes) -> bytes, valid: T -> bool, xs: seq<T>, rest: bytes)
    requires Inverse(p, e, valid)
    requires |xs| < 0x1_0000 && forall i :: 0 <= i < |xs| ==> valid(xs[i])
    ensures ReadVec(p, PutVec(e, xs, rest)) == Ok((xs, rest))
  {
    CompactComplete(|xs|, PutAll(e, xs, rest));
    ManyComplete(p, e, valid, xs, rest);
  }

  /** A byte vector with a compact length. */
  function ReadByteVec(s: bytes): Parsed<bytes> {
    var (n, rest) :- ReadCompact(s);
    Take(n, rest)
  }

  function PutByteVec(b: bytes, rest: bytes): bytes {
    PutCompact(Len16(|b|), b + rest)
  }

  lemma ByteVecSound(s: bytes)
    requires ReadByteVec(s).Ok?
    ensures |ReadByteVec(s).value.0| < 0x1_0000
    ensures PutByteVec(ReadByteVec(s).value.0, ReadByteVec(s).value.1) == s
  {
    CompactSound(s);
  }

  lemma ByteVecComplete(b: bytes, rest: bytes)
    requires |b| < 0x1_0000
    ensures ReadByteVec(PutByteVec(b, rest)) == Ok((b, rest))
  {
    CompactComplete(|b|, b + rest);
    TakeInverse(b, rest);
  }
}
