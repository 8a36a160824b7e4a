/** The sparse v1 configuration: looking a bit up by rank recovers exactly what was packed. */
module ConfigTheorems {
  import opened Common
  import opened Wire

  /** The mask of a list of optional words, lowest bit first. */
  function Mask(slots: seq<Option<u32>>): nat {
    if slots == [] then 0 else (if slots[0].Some? then 1 else 0) + 2 * Mask(slots[1..])
  }

  /** The words that are present, in ascending bit order. */
  function Words(slots: seq<Option<u32>>): seq<u32> {
    if slots == [] then []
    else (if slots[0].Some? then [slots[0].value] else []) + Words(slots[1..])
  }

  lemma DivModUnique(n: nat, d: nat, q: nat, r: nat)
    requires n == d * q + r && r < d
    ensures n / d == q && n % d == r
  {
    assert n / d == q by {
      var e := n / d;
      assert n == d * e + n % d;
      if e < q { MulMonotone(e + 1, q, d); }
      if e > q { MulMonotone(q + 1, e, d); }
    }
  }

  lemma HalveDivMod(m: nat, p: nat)
    requires p > 0
    ensures m / (2 * p) == m / 2 / p
    ensures m % (2 * p) == m % 2 + 2 * (m / 2 % p)
  {
    var h := m / 2;
    var a, b := h / p, h % p;
    assert h == p * a + b;
    assert m == (2 * p) * a + (m % 2 + 2 * b);
    DivModUnique(m, 2 * p, a, m % 2 + 2 * b);
  }

  /** The set bits below `2p` are the lowest bit and those of the half below `p`. */
  lemma LowBits(mask: nat, p: nat)
    requires p > 0
    ensures CountOnes(mask % (2 * p)) == mask % 2 + CountOnes(mask / 2 % p)
  {
    HalveDivMod(mask, p);
    var low := mask / 2 % p;
    assert (mask % 2 + 2 * low) % 2 == mask % 2 && (mask % 2 + 2 * low) / 2 == low;
  }

  /** Dropping the lowest bit, and its word when it is set, moves every other bit down by one. */
  lemma LookupShifts(mask: nat, values: seq<u32>, bit: nat)
    requires mask % 2 == 1 ==> values != []
    ensures SparseValue(mask, values, bit + 1) == SparseValue(mask / 2, values[mask % 2..], bit)
  {
    HalveDivMod(mask, Pow2(bit));
    LowBits(mask, Pow2(bit));
  }

  /** Packing words and looking bits up are inverse, for any number of slots. */
  lemma {:induction false} LookupRecoversPacked(slots: seq<Option<u32>>, bit: nat)
    ensures SparseValue(Mask(slots), Words(slots), bit) == if bit < |slots| then slots[bit] else None
    ensures |Words(slots)| == CountOnes(Mask(slots))
    decreases slots
  {
    if slots == [] {
      assert 0 / Pow2(bit) == 0;
    } else {
      LookupRecoversPacked(slots[1..], if bit == 0 then 0 else bit - 1);
      PackedHead(slots);
      if bit > 0 {
        hide CountOnes, SparseValue;
        LookupShifts(Mask(slots), Words(slots), bit - 1);
      }
    }
  }

  lemma PackedHead(slots: seq<Option<u32>>)
    requires slots != []
    requires |Words(slots[1..])| == CountOnes(Mask(slots[1..]))
    ensures Mask(slots) / 2 == Mask(slots[1..]) && Mask(slots) % 2 == if slots[0].Some? then 1 else 0
    ensures |Words(slots)| == CountOnes(Mask(slots))
    ensures slots[0].Some? ==> Words(slots) != []
    ensures Words(slots)[Mask(slots) % 2..] == Words(slots[1..])
    ensures SparseValue(Mask(slots), Words(slots), 0) == slots[0]
  {
    var m := Mask(slots);
    assert m % Pow2(0) == 0 && m / Pow2(0) == m;
  }

  /** The first `n` slots read back from a mask and its words. */
  function Slots(mask: nat, values: seq<u32>, n: nat): seq<Option<u32>> {
    seq(n, i requires 0 <= i < n => SparseValue(mask, values, i))
  }

  lemma LowestBit(mask: nat, values: seq<u32>)
    requires |values| == CountOnes(mask)
    ensures mask % 2 == 1 ==> values != []
    ensures |values| >= mask % 2 && |values[mask % 2..]| == CountOnes(mask / 2)
    ensures SparseValue(mask, values, 0) == if mask % 2 == 1 then Some(values[0]) else None
  {
    assert mask % Pow2(0) == 0 && mask / Pow2(0) == mask;
  }

  /** Every mask with one word per set bit is the packing of what its lookups return. */
  lemma {:induction false} PackRecoversLookup(mask: nat, values: seq<u32>, n: nat)
    requires mask < Pow2(n) && |values| == CountOnes(mask)
    ensures Mask(Slots(mask, values, n)) == mask
    ensures Words(Slots(mask, values, n)) == values
    decreases n
  {
    if n == 0 {
      assert CountOnes(mask) == 0;
    } else {
      LowestBit(mask, values);
      hide SparseValue, CountOnes;
      var slots := Slots(mask, values, n);
      var rest := values[mask % 2..];
      PackRecoversLookup(mask / 2, rest, n - 1);
      forall i | 0 <= i < n - 1
        ensures slots[1..][i] == SparseValue(mask / 2, rest, i)
      {
        LookupShifts(mask, values, i);
      }
      assert slots[1..] == Slots(mask / 2, rest, n - 1);
    }
  }

  lemma {:induction false} MaskBound(slots: seq<Option<u32>>)
    ensures Mask(slots) < Pow2(|slots|)
  {
    if slots != [] {
      MaskBound(slots[1..]);
    }
  }

  function WordOr(slot: Option<u32>, default: u32): u32 {
    match slot
    case Some(v) => v
    case None => default
  }

  /** The accessors return the packed fields, or the format's defaults for absent ones. */
  lemma AccessorsRecoverFields(slots: seq<Option<u32>>)
    requires |slots| == 5
    ensures Mask(slots) < 0x20
    ensures var c := Config(Mask(slots), Words(slots));
            && PriorityFee(c) == WordOr(slots[0], 0) + 0x1_0000_0000 * WordOr(slots[1], 0)
            && ComputeUnitLimit(c) == WordOr(slots[2], 0)
            && LoadedAccountsDataSizeLimit(c) == WordOr(slots[3], 0)
            && HeapSize(c) == WordOr(slots[4], 0x8000)
  {
    MaskBound(slots);
    assert Pow2(5) == 2 * Pow2(4) && Pow2(4) == 2 * Pow2(3) && Pow2(3) == 8;
    LookupRecoversPacked(slots, 0);
    LookupRecoversPacked(slots, 1);
    LookupRecoversPacked(slots, 2);
    LookupRecoversPacked(slots, 3);
    LookupRecoversPacked(slots, 4);
  }

  /** Fewer set bits lie below a set bit than in the whole mask. */
  lemma {:induction false} RankInRange(mask: nat, bit: nat)
    requires mask / Pow2(bit) % 2 == 1
    ensures CountOnes(mask % Pow2(bit)) < CountOnes(mask)
    decreases bit
  {
    if bit > 0 {
      HalveDivMod(mask, Pow2(bit - 1));
      LowBits(mask, Pow2(bit - 1));
      RankInRange(mask / 2, bit - 1);
    }
  }

  /** On a parsed configuration every set bit has its word. */
  lemma LookupInRange(c: Config, bit: nat)
    requires ConfigAllowed(c)
    ensures ConfigValue(c, bit).Some? <==> c.mask / Pow2(bit) % 2 == 1
  {
    if c.mask / Pow2(bit) % 2 == 1 {
      RankInRange(c.mask, bit);
    }
  }
}
