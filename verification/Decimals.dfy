/** Decimal strings scaled to token atoms with string and big-integer arithmetic, rounding down. */
module Decimals {
  import opened Common

  predicate IsDigit(c: char) {
    '0' <= c <= '9'
  }

  predicate AllDigits(s: string) {
    forall i :: 0 <= i < |s| ==> IsDigit(s[i])
  }

  /** The characters `String.prototype.trim` removes. */
  predicate IsWhitespace(c: char) {
    || '\U{0009}' <= c <= '\U{000D}' || c == ' ' || c == '\U{00A0}' || c == '\U{1680}'
    || '\U{2000}' <= c <= '\U{200A}' || c == '\U{2028}' || c == '\U{2029}' || c == '\U{202F}'
    || c == '\U{205F}' || c == '\U{3000}' || c == '\U{FEFF}'
  }

  function Trim(s: string): string {
    if s != [] && IsWhitespace(s[0]) then Trim(s[1..])
    else if s != [] && IsWhitespace(s[|s| - 1]) then Trim(s[..|s| - 1])
    else s
  }

  /** The number a digit string denotes. */
  function Numeral(s: string): nat
    requires AllDigits(s)
  {
    if s == [] then 0 else 10 * Numeral(s[..|s| - 1]) + (s[|s| - 1] as int - '0' as int)
  }

  function Pow10(n: nat): (p: nat)
    ensures p > 0
  {
    if n == 0 then 1 else 10 * Pow10(n - 1)
  }

  function Zeros(n: nat): (s: string)
    ensures |s| == n && AllDigits(s)
  {
    seq(n, _ => '0')
  }

  /** Drops leading zeros that still have a digit after them. */
  function StripZeros(s: string): (r: string)
    requires AllDigits(s)
    ensures AllDigits(r)
  {
    if |s| >= 2 && s[0] == '0' then StripZeros(s[1..]) else s
  }

  /** A decimal as its whole and fractional digits. */
  datatype Decimal = Decimal(whole: string, frac: string) {
    predicate WellFormed() {
      AllDigits(whole) && AllDigits(frac)
    }

    /** The digits without the point: the value is this over ten to the number of fractional digits. */
    function Unscaled(): nat
      requires WellFormed()
    {
      Numeral(whole + frac)
    }
  }

  /** Position of the first point, or the length. */
  function PointAt(s: string): (k: nat)
    ensures k <= |s|
    ensures forall i :: 0 <= i < k ==> s[i] != '.'
    ensures k < |s| ==> s[k] == '.'
  {
    if s == [] || s[0] == '.' then 0 else 1 + PointAt(s[1..])
  }

  /** The match against digits, optionally a point and more digits, followed by the split at the point. */
  function ParseDecimal(s: string): (r: Option<Decimal>)
    ensures r.Some? ==> r.value.WellFormed()
  {
    var k := PointAt(s);
    if k == 0 || !AllDigits(s[..k]) then None
    else if k == |s| then Some(Decimal(s[..k], []))
    else if k + 1 == |s| || !AllDigits(s[k + 1..]) then None
    else Some(Decimal(s[..k], s[k + 1..]))
  }

  /** The digits with exactly `decimals` fractional places: cut off or padded with zeros. */
  function FixedDigits(d: Decimal, decimals: nat): (s: string)
    requires d.WellFormed()
    ensures AllDigits(s)
  {
    var kept := if decimals < |d.frac| then d.frac[..decimals] else d.frac;
    d.whole + (kept + Zeros(decimals - |kept|))
  }

  function DecimalToAtoms(value: string, decimals: nat): Option<nat> {
    match ParseDecimal(Trim(value))
    case None => None
    case Some(d) => Some(Numeral(StripZeros(FixedDigits(d, decimals))))
  }

  datatype LevelAtoms = LevelAtoms(base: nat, quote: nat)

  /** A product of digits times ten to the exponent that is left, which may be negative. */
  function ScaleProduct(product: nat, exp: int): nat {
    if exp >= 0 then product * Pow10(exp) else FloorDiv(product, Pow10(-exp))
  }

  function QuoteAtoms(q: Decimal, p: Decimal, quoteDecimals: nat): nat
    requires q.WellFormed() && p.WellFormed()
  {
    ScaleProduct(Numeral(StripZeros(q.whole + q.frac)) * Numeral(StripZeros(p.whole + p.frac)),
                 quoteDecimals - |q.frac| - |p.frac|)
  }

  function QtyPriceToAtoms(qty: string, price: string, baseDecimals: nat, quoteDecimals: nat): Option<LevelAtoms> {
    match (ParseDecimal(Trim(qty)), ParseDecimal(Trim(price)), DecimalToAtoms(Trim(qty), baseDecimals))
    case (Some(q), Some(p), Some(base)) =>
      Some(LevelAtoms(base, QuoteAtoms(q, p, quoteDecimals)))
    case (_, _, _) => None
  }

  // ---------------------------------------------------------------- the accepted strings

  /** Parsing accepts exactly the strings of the decimal grammar, with the digits as written. */
  lemma ParseDecimalExact(s: string, d: Decimal)
    ensures ParseDecimal(s) == Some(d) <==>
            && d.WellFormed() && d.whole != []
            && s == if d.frac == [] then d.whole else d.whole + "." + d.frac
  {
    if d.WellFormed() && d.whole != [] {
      if s == d.whole {
        NoPointInDigits(s);
        assert s[..|s|] == s;
      }
      if d.frac != [] && s == d.whole + "." + d.frac {
        PointAfterDigits(d.whole, d.frac);
        assert s[..|d.whole|] == d.whole && s[|d.whole| + 1..] == d.frac;
      }
    }
    if ParseDecimal(s) == Some(d) {
      var k := PointAt(s);
      assert k < |s| ==> s == s[..k] + [s[k]] + s[k + 1..];
    }
  }

  lemma {:induction false} NoPointInDigits(s: string)
    requires AllDigits(s)
    ensures PointAt(s) == |s|
  {
    if s != [] {
      NoPointInDigits(s[1..]);
    }
  }

  lemma {:induction false} PointAfterDigits(w: string, f: string)
    requires AllDigits(w)
    ensures PointAt(w + "." + f) == |w|
  {
    var s := w + "." + f;
    if w != [] {
      PointAfterDigits(w[1..], f);
      assert s[1..] == w[1..] + "." + f;
    }
  }

  /** The digit characters, listed. */
  lemma DigitCharacters(c: char)
    ensures IsDigit(c) <==> c in "0123456789"
  {
  }

  // ---------------------------------------------------------------- surrounding whitespace

  const WHITESPACE: set<int> := {
    0x09, 0x0A, 0x0B, 0x0C, 0x0D, 0x20, 0xA0, 0x1680,
    0x2000, 0x2001, 0x2002, 0x2003, 0x2004, 0x2005, 0x2006, 0x2007, 0x2008, 0x2009, 0x200A,
    0x2028, 0x2029, 0x202F, 0x205F, 0x3000, 0xFEFF
  }

  predicate Blank(s: string) {
    forall i :: 0 <= i < |s| ==> s[i] as int in WHITESPACE
  }

  /** Empty, or no whitespace at either end. */
  predicate Bare(s: string) {
    s != [] ==> s[0] as int !in WHITESPACE && s[|s| - 1] as int !in WHITESPACE
  }

  lemma WhitespaceCharacters(c: char)
    ensures IsWhitespace(c) <==> c as int in WHITESPACE
  {
  }

  /** Trimming removes the whitespace on both sides, all of it, and nothing else. */
  lemma {:induction false} TrimExact(a: string, t: string, b: string)
    requires Blank(a) && Bare(t) && Blank(b)
    ensures Trim(a + t + b) == t
    decreases |a| + |b|, |b|
  {
    hide IsWhitespace;
    var s := a + t + b;
    if s != [] {
      WhitespaceCharacters(s[0]);
      WhitespaceCharacters(s[|s| - 1]);
    }
    if a != [] {
      TrimExact(a[1..], t, b);
      assert s[1..] == a[1..] + t + b;
    } else if b != [] && t == [] {
      TrimExact(b, [], []);
      assert s == b + [] + [];
    } else if b != [] {
      TrimExact([], t, b[..|b| - 1]);
      assert s[..|s| - 1] == [] + t + b[..|b| - 1];
    } else {
      assert s == t;
    }
  }

  /** Every string is its trimmed form between two runs of whitespace. */
  lemma {:induction false} TrimSplits(s: string) returns (a: string, b: string)
    ensures Blank(a) && Bare(Trim(s)) && Blank(b)
    ensures s == a + Trim(s) + b
    decreases |s|
  {
    hide IsWhitespace;
    a, b := [], [];
    if s != [] {
      WhitespaceCharacters(s[0]);
      WhitespaceCharacters(s[|s| - 1]);
      if IsWhitespace(s[0]) {
        a, b := TrimSplits(s[1..]);
        assert s == [s[0]] + (a + Trim(s) + b) == ([s[0]] + a) + Trim(s) + b;
        a := [s[0]] + a;
      } else if IsWhitespace(s[|s| - 1]) {
        a, b := TrimSplits(s[..|s| - 1]);
        assert s == (a + Trim(s) + b) + [s[|s| - 1]] == a + Trim(s) + (b + [s[|s| - 1]]);
        b := b + [s[|s| - 1]];
      }
    }
  }

  /** Trimming an already trimmed string changes nothing. */
  lemma TrimTwice(s: string)
    ensures Trim(Trim(s)) == Trim(s)
  {
    var _, _ := TrimSplits(s);
    TrimExact([], Trim(s), []);
    assert [] + Trim(s) + [] == Trim(s);
  }

  /** How the grammar writes a decimal. */
  function Text(d: Decimal): string {
    if d.frac == [] then d.whole else d.whole + "." + d.frac
  }

  /** The string writes the decimal, with whitespace around it or not. */
  ghost predicate Writes(s: string, d: Decimal) {
    && d.whole != []
    && (forall c :: c in d.whole || c in d.frac ==> c in "0123456789")
    && exists a, b :: Blank(a) && Blank(b) && s == a + Text(d) + b
  }

  lemma WrittenIsWellFormed(s: string, d: Decimal)
    requires Writes(s, d)
    ensures d.WellFormed()
  {
    forall c | c in d.whole || c in d.frac
      ensures IsDigit(c)
    {
      DigitCharacters(c);
    }
  }

  lemma TextIsBare(d: Decimal)
    requires d.WellFormed() && d.whole != []
    ensures Bare(Text(d))
  {
  }

  /** Trimming and parsing finds the one decimal a string writes. */
  lemma ParsesWhatIsWritten(s: string, d: Decimal)
    ensures ParseDecimal(Trim(s)) == Some(d) <==> Writes(s, d)
  {
    hide Trim, ParseDecimal;
    ParseDecimalExact(Trim(s), d);
    if Writes(s, d) {
      WrittenIsWellFormed(s, d);
      TextIsBare(d);
      var a, b :| Blank(a) && Blank(b) && s == a + Text(d) + b;
      TrimExact(a, Text(d), b);
    }
    if ParseDecimal(Trim(s)) == Some(d) {
      var a, b := TrimSplits(s);
      forall c | c in d.whole || c in d.frac
        ensures c in "0123456789"
      {
        DigitCharacters(c);
      }
    }
  }

  // ---------------------------------------------------------------- numerals

  lemma LastDigit(s: string)
    requires AllDigits(s) && s != []
    ensures Numeral(s) == 10 * Numeral(s[..|s| - 1]) + (s[|s| - 1] as int - '0' as int)
    ensures Pow10(|s|) == 10 * Pow10(|s| - 1)
  {
  }

  lemma {:induction false} NumeralConcat(a: string, b: string)
    requires AllDigits(a) && AllDigits(b)
    ensures AllDigits(a + b)
    ensures Numeral(a + b) == Numeral(a) * Pow10(|b|) + Numeral(b)
    decreases |b|
  {
    if b == [] {
      assert a + b == a;
    } else {
      hide Numeral, Pow10;
      var front := b[..|b| - 1];
      NumeralConcat(a, front);
      LastDigit(b);
      LastDigit(a + b);
      assert (a + b)[..|a + b| - 1] == a + front;
      ScaleTen(Numeral(a), Pow10(|front|));
    }
  }

  lemma ScaleTen(a: nat, p: nat)
    ensures 10 * (a * p) == a * (10 * p)
  {
  }

  lemma {:induction false} NumeralBound(s: string)
    requires AllDigits(s)
    ensures Numeral(s) < Pow10(|s|)
  {
    if s != [] {
      NumeralBound(s[..|s| - 1]);
    }
  }

  lemma {:induction false} NumeralZeros(n: nat)
    ensures Numeral(Zeros(n)) == 0
  {
    if n > 0 {
      NumeralZeros(n - 1);
      assert Zeros(n)[..n - 1] == Zeros(n - 1);
    }
  }

  /** The usual spelling of a number, without leading zeros. */
  function Spelling(n: nat): string {
    if n < 10 then ["0123456789"[n]] else Spelling(n / 10) + ["0123456789"[n % 10]]
  }

  lemma AppendDigit(s: string, digit: nat)
    requires AllDigits(s) && digit < 10
    ensures AllDigits(s + ["0123456789"[digit]])
    ensures Numeral(s + ["0123456789"[digit]]) == 10 * Numeral(s) + digit
  {
    var t := s + ["0123456789"[digit]];
    assert t[..|t| - 1] == s && t[|t| - 1] as int == '0' as int + digit;
  }

  /** A digit string denotes the number it spells, leading zeros or not. */
  lemma {:induction false} NumeralOfSpelling(zeros: nat, n: nat)
    ensures AllDigits(Zeros(zeros) + Spelling(n))
    ensures Numeral(Zeros(zeros) + Spelling(n)) == n
    decreases n
  {
    hide Numeral, Zeros;
    var c := ["0123456789"[n % 10]];
    if n < 10 {
      NumeralZeros(zeros);
      AppendDigit(Zeros(zeros), n);
      assert Spelling(n) == c;
    } else {
      NumeralOfSpelling(zeros, n / 10);
      AppendDigit(Zeros(zeros) + Spelling(n / 10), n % 10);
      assert Zeros(zeros) + Spelling(n) == (Zeros(zeros) + Spelling(n / 10)) + c;
    }
  }

  /** One more digit on the right. */
  lemma SpellingStep(n: nat, digit: nat)
    requires n > 0 && digit < 10
    ensures Spelling(10 * n + digit) == Spelling(n) + ["0123456789"[digit]]
  {
    assert (10 * n + digit) / 10 == n && (10 * n + digit) % 10 == digit;
  }

  /** Every digit string spells its number after some zeros, so no other reading is possible. */
  lemma {:induction false} SpellingOfNumeral(s: string) returns (zeros: nat)
    requires AllDigits(s) && s != []
    ensures s == Zeros(zeros) + Spelling(Numeral(s))
    decreases |s|
  {
    var front, digit := s[..|s| - 1], s[|s| - 1] as int - '0' as int;
    assert s == front + ["0123456789"[digit]];
    assert Numeral(s) == 10 * Numeral(front) + digit;
    if Numeral(front) == 0 {
      ZeroNumeral(front);
      zeros := |front|;
      assert Spelling(Numeral(s)) == ["0123456789"[digit]];
    } else {
      zeros := SpellingOfNumeral(front);
      SpellingStep(Numeral(front), digit);
      hide Numeral;
      var tail := ["0123456789"[digit]];
      assert (Zeros(zeros) + Spelling(Numeral(front))) + tail == Zeros(zeros) + (Spelling(Numeral(front)) + tail);
    }
  }

  lemma {:induction false} ZeroNumeral(s: string)
    requires AllDigits(s) && Numeral(s) == 0
    ensures s == Zeros(|s|)
  {
    if s != [] {
      ZeroNumeral(s[..|s| - 1]);
      assert s == s[..|s| - 1] + "0";
    }
  }

  lemma Pow10IsNumeral(n: nat)
    ensures Numeral("1" + Zeros(n)) == Pow10(n)
  {
    NumeralConcat("1", Zeros(n));
    NumeralZeros(n);
    assert "1"[..0] == [];
    assert Numeral("1") == 1;
  }

  lemma {:induction false} StripKeepsNumeral(s: string)
    requires AllDigits(s)
    ensures Numeral(StripZeros(s)) == Numeral(s)
    decreases |s|
  {
    if |s| >= 2 && s[0] == '0' {
      StripKeepsNumeral(s[1..]);
      NumeralConcat(s[..1], s[1..]);
      assert s[..1] + s[1..] == s;
      assert s[..1][..0] == [];
      assert Numeral(s[..1]) == 0;
    }
  }

  lemma {:induction false} Pow10Sum(a: nat, b: nat)
    ensures Pow10(a + b) == Pow10(a) * Pow10(b)
  {
    if a > 0 {
      Pow10Sum(a - 1, b);
    }
  }

  // ---------------------------------------------------------------- exact scaling

  /** The value of a decimal times a power of ten, rounded down, from its digits alone. */
  function Scaled(unscaled: nat, fractional: nat, decimals: nat): nat {
    FloorDiv(unscaled * Pow10(decimals), Pow10(fractional))
  }

  lemma Reassociate(a: nat, b: nat, c: nat)
    ensures (a * b) * c == a * (b * c)
  {
  }

  lemma ScaleUp(n: nat, f: nat, d: nat)
    requires f <= d
    ensures Scaled(n, f, d) == n * Pow10(d - f)
  {
    Pow10Sum(d - f, f);
    var p, q := Pow10(d - f), Pow10(f);
    Reassociate(n, p, q);
    MulMonotone(n * p, n * p + 1, q);
    FloorUnique(n * Pow10(d), q, n * p);
  }

  lemma ScaleDown(n: nat, f: nat, d: nat, a: nat)
    requires d <= f
    requires a * Pow10(f - d) <= n < (a + 1) * Pow10(f - d)
    ensures Scaled(n, f, d) == a
  {
    Pow10Sum(f - d, d);
    var p, q := Pow10(f - d), Pow10(d);
    MulMonotone(a * p, n, q);
    MulMonotone(n, (a + 1) * p, q);
    Reassociate(a, p, q);
    Reassociate(a + 1, p, q);
    FloorUnique(n * q, p * q, a);
  }

  /** Cutting fractional digits off rounds down. */
  lemma CutIsScaled(d: Decimal, decimals: nat)
    requires d.WellFormed() && decimals < |d.frac|
    ensures Numeral(d.whole + d.frac[..decimals]) == Scaled(d.Unscaled(), |d.frac|, decimals)
  {
    hide Scaled, Numeral;
    var head, cut := d.whole + d.frac[..decimals], d.frac[decimals..];
    assert d.whole + d.frac == head + cut;
    NumeralConcat(head, cut);
    NumeralBound(cut);
    var a, p := Numeral(head), Pow10(|cut|);
    assert (a + 1) * p == a * p + p;
    ScaleDown(d.Unscaled(), |d.frac|, decimals, a);
  }

  /** Padding with zeros scales exactly. */
  lemma PadIsScaled(d: Decimal, decimals: nat)
    requires d.WellFormed() && |d.frac| <= decimals
    ensures Numeral(d.whole + d.frac + Zeros(decimals - |d.frac|)) == Scaled(d.Unscaled(), |d.frac|, decimals)
  {
    hide Scaled, Numeral;
    NumeralConcat(d.whole + d.frac, Zeros(decimals - |d.frac|));
    NumeralZeros(decimals - |d.frac|);
    ScaleUp(d.Unscaled(), |d.frac|, decimals);
  }

  lemma ParsedToAtoms(value: string, decimals: nat)
    ensures match ParseDecimal(Trim(value))
            case None => DecimalToAtoms(value, decimals) == None
            case Some(d) => DecimalToAtoms(value, decimals) == Some(Scaled(d.Unscaled(), |d.frac|, decimals))
  {
    match ParseDecimal(Trim(value)) {
      case None =>
      case Some(d) =>
        var digits := FixedDigits(d, decimals);
        StripKeepsNumeral(digits);
        if decimals < |d.frac| {
          CutIsScaled(d, decimals);
          assert digits == d.whole + d.frac[..decimals];
        } else {
          PadIsScaled(d, decimals);
          assert digits == d.whole + d.frac + Zeros(decimals - |d.frac|);
        }
    }
  }

  /**
    Atoms are the exact value of the decimal that is written, whitespace aside, times ten to the
    decimals, rounded down, for strings of any length; any other string is refused.
   */
  lemma DecimalToAtomsExact(value: string, decimals: nat)
    ensures forall d :: Writes(value, d) ==>
              d.WellFormed() && DecimalToAtoms(value, decimals) == Some(Scaled(d.Unscaled(), |d.frac|, decimals))
    ensures (forall d :: !Writes(value, d)) ==> DecimalToAtoms(value, decimals) == None
  {
    hide Trim, ParseDecimal, DecimalToAtoms, Writes, Scaled, Numeral;
    ParsedToAtoms(value, decimals);
    forall d
      ensures ParseDecimal(Trim(value)) == Some(d) <==> Writes(value, d)
    {
      ParsesWhatIsWritten(value, d);
    }
  }

  lemma QuoteAtomsExact(q: Decimal, p: Decimal, quoteDecimals: nat)
    requires q.WellFormed() && p.WellFormed()
    ensures QuoteAtoms(q, p, quoteDecimals) == Scaled(q.Unscaled() * p.Unscaled(), |q.frac| + |p.frac|, quoteDecimals)
  {
    hide ScaleProduct, Scaled, StripZeros, Numeral;
    StripKeepsNumeral(q.whole + q.frac);
    StripKeepsNumeral(p.whole + p.frac);
    ProductScaled(q.Unscaled() * p.Unscaled(), |q.frac| + |p.frac|, quoteDecimals);
  }

  /** Quantity, and quantity times price, each scaled to its own decimals and rounded down once. */
  ghost function ExactAtoms(q: Decimal, p: Decimal, baseDecimals: nat, quoteDecimals: nat): LevelAtoms
    requires q.WellFormed() && p.WellFormed()
  {
    LevelAtoms(Scaled(q.Unscaled(), |q.frac|, baseDecimals),
               Scaled(q.Unscaled() * p.Unscaled(), |q.frac| + |p.frac|, quoteDecimals))
  }

  lemma ParsedQtyPriceToAtoms(
      qty: string, price: string, q: Decimal, p: Decimal, baseDecimals: nat, quoteDecimals: nat)
    requires ParseDecimal(Trim(qty)) == Some(q) && ParseDecimal(Trim(price)) == Some(p)
    requires q.WellFormed() && p.WellFormed()
    ensures QtyPriceToAtoms(qty, price, baseDecimals, quoteDecimals)
         == Some(ExactAtoms(q, p, baseDecimals, quoteDecimals))
  {
    hide Trim, ParseDecimal, DecimalToAtoms, QuoteAtoms, Scaled, Numeral;
    TrimTwice(qty);
    ParsedToAtoms(Trim(qty), baseDecimals);
    QuoteAtomsExact(q, p, quoteDecimals);
  }

  lemma UnparsedQtyPrice(qty: string, price: string, baseDecimals: nat, quoteDecimals: nat)
    requires (forall d :: !Writes(qty, d)) || (forall d :: !Writes(price, d))
    ensures QtyPriceToAtoms(qty, price, baseDecimals, quoteDecimals) == None
  {
    hide Trim, ParseDecimal, DecimalToAtoms, QuoteAtoms, Writes;
    if ParseDecimal(Trim(qty)).Some? && ParseDecimal(Trim(price)).Some? {
      ParsesWhatIsWritten(qty, ParseDecimal(Trim(qty)).value);
      ParsesWhatIsWritten(price, ParseDecimal(Trim(price)).value);
    }
  }

  /**
    Quote atoms are the written quantity times the written price, scaled and rounded down once at
    the end, on both exponent branches; anything else is refused.
   */
  lemma QtyPriceToAtomsExact(qty: string, price: string, baseDecimals: nat, quoteDecimals: nat)
    ensures forall q, p :: Writes(qty, q) && Writes(price, p) ==>
              && q.WellFormed() && p.WellFormed()
              && QtyPriceToAtoms(qty, price, baseDecimals, quoteDecimals)
                 == Some(ExactAtoms(q, p, baseDecimals, quoteDecimals))
    ensures (forall d :: !Writes(qty, d)) || (forall d :: !Writes(price, d)) ==>
              QtyPriceToAtoms(qty, price, baseDecimals, quoteDecimals) == None
  {
    hide *;
    forall q, p | Writes(qty, q) && Writes(price, p)
      ensures q.WellFormed() && p.WellFormed()
      ensures QtyPriceToAtoms(qty, price, baseDecimals, quoteDecimals)
           == Some(ExactAtoms(q, p, baseDecimals, quoteDecimals))
    {
      WrittenIsWellFormed(qty, q);
      WrittenIsWellFormed(price, p);
      ParsesWhatIsWritten(qty, q);
      ParsesWhatIsWritten(price, p);
      ParsedQtyPriceToAtoms(qty, price, q, p, baseDecimals, quoteDecimals);
    }
    if (forall d :: !Writes(qty, d)) || (forall d :: !Writes(price, d)) {
      UnparsedQtyPrice(qty, price, baseDecimals, quoteDecimals);
    }
  }

  lemma ProductScaled(n: nat, f: nat, d: nat)
    ensures Scaled(n, f, d) == ScaleProduct(n, d - f)
  {
    if d >= f {
      ScaleUp(n, f, d);
    } else {
      FloorBracket(n, Pow10(f - d));
      ScaleDown(n, f, d, FloorDiv(n, Pow10(f - d)));
    }
  }
}
