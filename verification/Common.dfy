/** Result and option types, and the machine integers shared by every module. */
module Common {

  datatype Option<+T> = None | Some(value: T)

  datatype Result<+T, +E> = Ok(value: T) | Err(error: E) {

    predicate IsFailure() {
      Err?
    }

    function PropagateFailure<U>(): Result<U, E>
      requires Err?
    {
      Err(error)
    }

    function Extract(): T
      requires Ok?
    {
      value
    }
  }

  type byte = x: int | 0 <= x < 0x100
  type u16 = x: int | 0 <= x < 0x1_0000
  type u32 = x: int | 0 <= x < 0x1_0000_0000
  type u64 = x: int | 0 <= x < 0x1_0000_0000_0000_0000
  type u128 = x: int | 0 <= x < 0x1_0000_0000_0000_0000_0000_0000_0000_0000
  type i64 = x: int | -0x8000_0000_0000_0000 <= x < 0x8000_0000_0000_0000

  const U64_MAX: u64 := 0xFFFF_FFFF_FFFF_FFFF

  type bytes = seq<byte>

  /** A 32-byte public key. */
  type Key = k: bytes | |k| == 32 witness seq(32, _ => 0)

  /** Which side of the book the taker is on: a Bid pays quote for base, an Ask pays base for quote. */
  datatype Side = Bid | Ask

  /** One quoted price level. */
  datatype Level = Level(base: u64, quote: u64)

  /** The sum of a list of numbers. */
  function SumOf(s: seq<nat>): nat {
    if s == [] then 0 else SumOf(s[..|s| - 1]) + s[|s| - 1]
  }

  lemma {:induction false} SumOfHead(s: seq<nat>)
    requires s != []
    ensures SumOf(s) == s[0] + SumOf(s[1..])
    decreases s
  {
    var last := |s| - 1;
    if last > 0 {
      SumOfHead(s[..last]);
      assert s[..last][1..] == s[1..][..last - 1];
    }
  }

  /** Multiplication is monotone, and strictly so for a positive factor. */
  lemma MulMonotone(a: int, b: int, c: nat)
    requires a <= b
    ensures a * c <= b * c
    ensures a < b && c > 0 ==> a * c < b * c
  {
    var d: nat := b - a;
    assert b * c == a * c + d * c;
    assert d > 0 && c > 0 ==> d * c > 0;
  }

  /** A positive common factor can be cancelled. */
  lemma MulCancel(a: int, b: int, c: nat)
    requires c > 0
    ensures a * c < b * c ==> a < b
    ensures a * c <= b * c ==> a <= b
  {
    if a >= b { MulMonotone(b, a, c); }
    if a > b { MulMonotone(b, a, c); }
  }

  /** Integer division of non-negative numbers, rounding down. */
  function FloorDiv(n: nat, d: nat): nat
    requires d > 0
  {
    n / d
  }

  /** Floor division brackets its dividend, and is the only number that does. */
  lemma FloorBracket(n: nat, d: nat)
    requires d > 0
    ensures FloorDiv(n, d) * d <= n < (FloorDiv(n, d) + 1) * d
  {
    assert n == (n / d) * d + n % d;
  }

  lemma FloorUnique(n: nat, d: nat, q: nat)
    requires d > 0
    requires q * d <= n < (q + 1) * d
    ensures FloorDiv(n, d) == q
  {
    FloorBracket(n, d);
    MulCancel(FloorDiv(n, d), q + 1, d);
    MulCancel(q, FloorDiv(n, d) + 1, d);
  }
}
