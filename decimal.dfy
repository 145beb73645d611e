/** The decimal notation that itoa produces, as a specification on values:
    digit characters, the canonical representation of a number, and the
    reading of such a representation back into a number. */
module Decimal {

  datatype Option<T> = None | Some(value: T)

  /** Largest C `int` (32 bits). The smallest, -INT_MAX - 1, has no
      representable negation and is outside every contract here. */
  const INT_MAX: int := 0x7FFF_FFFF

  predicate IsDigit(c: char) { '0' <= c <= '9' }

  predicate AllDigits(cs: seq<char>) {
    forall k :: 0 <= k < |cs| ==> IsDigit(cs[k])
  }

  /** The value of a digit character. */
  function DigitValue(c: char): (d: nat)
    requires IsDigit(c)
    ensures d < 10
  {
    c as int - '0' as int
  }

  /** The character for a digit, as C's `d + '0'`. */
  function DigitChar(d: nat): (c: char)
    requires d < 10
    ensures IsDigit(c) && DigitValue(c) == d
  {
    ('0' as int + d) as char
  }

  function Pow10(k: nat): (p: nat)
    ensures p >= 1
  {
    if k == 0 then 1 else 10 * Pow10(k - 1)
  }

  /** The decimal digits of m, most significant first, without leading zeros
      (zero itself is the single digit "0"). */
  function NatDigits(m: nat): (r: seq<char>)
    ensures |r| >= 1 && AllDigits(r)
    ensures r[0] == '0' <==> m == 0
  {
    if m < 10 then [DigitChar(m)] else NatDigits(m / 10) + [DigitChar(m % 10)]
  }

  /** The decimal representation of n: a '-' for negative numbers, then the
      digits of |n|. */
  function DecimalString(n: int): (r: seq<char>)
    ensures |r| >= 1 && (r[0] == '-' <==> n < 0)
  {
    if n < 0 then ['-'] + NatDigits(-n) else NatDigits(n)
  }

  /** Every character of DecimalString(n) is a digit except a leading '-',
      and the numeral is canonical. */
  lemma DecimalStringShape(n: int)
    ensures var r := DecimalString(n);
      (forall k :: 0 <= k < |r| ==> IsDigit(r[k]) || (k == 0 && r[k] == '-')) && Canonical(r)
  {
  }

  /** A signed decimal numeral in the form DecimalString gives: an optional
      '-', then at least one digit, no leading zero, and no "-0". */
  predicate Canonical(cs: seq<char>) {
    var ds := if |cs| > 0 && cs[0] == '-' then cs[1..] else cs;
    |ds| >= 1 && AllDigits(ds) && (ds[0] != '0' || (|ds| == 1 && ds == cs))
  }

  /** The value of a digit string, read left to right. */
  function ParseNat(ds: seq<char>): (v: nat)
    requires AllDigits(ds)
    ensures v < Pow10(|ds|)
  {
    if |ds| == 0 then 0
    else
      var init := ds[..|ds| - 1];
      assert AllDigits(init);
      var hi := ParseNat(init);
      assert hi * 10 <= (Pow10(|init|) - 1) * 10;
      hi * 10 + DigitValue(ds[|ds| - 1])
  }

  /** Reads an optional '-' followed by one or more digits. */
  function ParseSigned(cs: seq<char>): (r: Option<int>)
    ensures r.Some? <==> |cs| >= 1 && (AllDigits(cs) || (cs[0] == '-' && |cs| >= 2 && AllDigits(cs[1..])))
    ensures r.Some? ==> (r.value < 0 ==> cs[0] == '-') && -(Pow10(|cs|) as int) < r.value < Pow10(|cs|)
  {
    if |cs| >= 2 && cs[0] == '-' && AllDigits(cs[1..]) then Some(-(ParseNat(cs[1..]) as int))
    else if |cs| >= 1 && AllDigits(cs) then Some(ParseNat(cs))
    else None
  }

  /** Peeling off the last digit of m leaves the digits of m / 10. */
  lemma NatDigitsSplit(m: nat)
    requires m >= 10
    ensures NatDigits(m)[..|NatDigits(m)| - 1] == NatDigits(m / 10)
    ensures NatDigits(m)[|NatDigits(m)| - 1] == DigitChar(m % 10)
  {
  }

  /** Reading the digits of m back gives m. */
  lemma {:induction false} ParseNatDigits(m: nat)
    ensures ParseNat(NatDigits(m)) == m
  {
    var ds := NatDigits(m);
    if m < 10 {
      assert ds[..|ds| - 1] == [];
    } else {
      NatDigitsSplit(m);
      ParseNatDigits(m / 10);
    }
  }

  /** A digit string without a leading zero has no fewer digits than its value needs. */
  lemma {:induction false} ParseNatLowerBound(ds: seq<char>)
    requires |ds| >= 1 && AllDigits(ds) && ds[0] != '0'
    ensures ParseNat(ds) >= Pow10(|ds| - 1)
  {
    if |ds| > 1 {
      var init := ds[..|ds| - 1];
      ParseNatLowerBound(init);
    }
  }

  /** Conversely, a digit string without a leading zero is the NatDigits of its value. */
  lemma {:induction false} NatDigitsOfParse(ds: seq<char>)
    requires |ds| >= 1 && AllDigits(ds) && (ds[0] != '0' || |ds| == 1)
    ensures NatDigits(ParseNat(ds)) == ds
  {
    var last := ds[|ds| - 1];
    if |ds| == 1 {
      assert DigitChar(DigitValue(last)) == last;
    } else {
      var init := ds[..|ds| - 1];
      ParseNatLowerBound(init);
      NatDigitsOfParse(init);
      var m := ParseNat(ds);
      assert m / 10 == ParseNat(init) && m % 10 == DigitValue(last);
      assert DigitChar(DigitValue(last)) == last;
      assert ds == init + [last];
    }
  }

  /** Round trip: reading DecimalString(n) back as a signed numeral gives n. */
  lemma {:induction false} ParseDecimalString(n: int)
    ensures ParseSigned(DecimalString(n)) == Some(n)
  {
    var ds := NatDigits(if n < 0 then -n else n);
    ParseNatDigits(if n < 0 then -n else n);
    if n < 0 {
      assert DecimalString(n) == ['-'] + ds;
      assert DecimalString(n)[1..] == ds;
    } else {
      assert IsDigit(ds[0]);
    }
  }

  /** The other direction: a canonical numeral is the DecimalString of its value,
      so DecimalString is the one canonical spelling of each number. */
  lemma {:induction false} DecimalStringOfParse(cs: seq<char>)
    requires Canonical(cs)
    ensures ParseSigned(cs).Some? && DecimalString(ParseSigned(cs).value) == cs
  {
    if cs[0] == '-' {
      var ds := cs[1..];
      assert |ds| >= 1 && AllDigits(ds) && ds[0] != '0';
      var v: int := ParseNat(ds);
      assert ParseSigned(cs) == Some(-v);
      ParseNatLowerBound(ds);
      NatDigitsOfParse(ds);
      assert DecimalString(-v) == ['-'] + NatDigits(v);
      assert cs == ['-'] + ds;
    } else {
      assert |cs| >= 1 && AllDigits(cs) && (cs[0] != '0' || |cs| == 1);
      assert ParseSigned(cs) == Some(ParseNat(cs));
      NatDigitsOfParse(cs);
    }
  }

  /** m below 10^k needs at most k digits. */
  lemma {:induction false} NatDigitsLength(m: nat, k: nat)
    requires k >= 1 && m < Pow10(k)
    ensures |NatDigits(m)| <= k
  {
    if m >= 10 {
      assert k >= 2;
      assert m / 10 < Pow10(k - 1);
      NatDigitsLength(m / 10, k - 1);
    }
  }

  /** Every C `int` other than INT_MIN takes at most 11 characters ('-' and ten
      digits), so with its terminator it fits a 12-character buffer. */
  lemma DecimalStringFitsInt(n: int)
    requires -INT_MAX <= n <= INT_MAX
    ensures |DecimalString(n)| <= 11
  {
    assert Pow10(10) == 10_000_000_000;
    NatDigitsLength(if n < 0 then -n else n, 10);
  }
}
