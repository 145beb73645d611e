/** The K&R string routines of the pwritev smoke test: `reverse` turns a
    NUL-terminated character array around in place, `itoa` writes a signed
    `int` into a caller's buffer in decimal, and the test uses the latter to
    spell out the byte count it reports. */
module PwritevTest {
  import opened Decimal
  import opened CString

  /** K&R reverse: swaps s[i] and s[j] with i running up from 0 and j down
      from strlen(s) - 1 until they meet, and hands back the same buffer.
      The bound on the length keeps strlen(s) - 1 inside a C `int`; for the
      empty string j starts at -1 and nothing is swapped. */
  method Reverse(s: array<char>) returns (r: array<char>)
    requires NUL in s[..] && StrLen(s[..]) <= INT_MAX + 1
    modifies s
    ensures r == s
    ensures s[..] == ReverseCString(old(s[..]))
  {
    ghost var orig := s[..];
    var len := StrLen(s[..]);
    var i, j := 0, len - 1;
    while i < j
      invariant 0 <= i <= j + 1 <= len && i + j == len - 1
      invariant forall k {:trigger s[k]} :: 0 <= k < i ==> s[k] == orig[len - 1 - k]
      invariant forall k {:trigger s[k]} :: i <= k <= j ==> s[k] == orig[k]
      invariant forall k {:trigger s[k]} :: j < k < len ==> s[k] == orig[len - 1 - k]
      invariant forall k {:trigger s[k]} :: len <= k < s.Length ==> s[k] == orig[k]
    {
      var c := s[i];
      s[i] := s[j];
      s[j] := c;
      i, j := i + 1, j - 1;
    }
    r := s;
  }

  /** The digits of m least significant first: the order in which itoa's
      do-while loop emits them. */
  function LowDigits(m: nat): (r: seq<char>)
    ensures |r| >= 1 && AllDigits(r)
  {
    if m < 10 then [DigitChar(m)] else [DigitChar(m % 10)] + LowDigits(m / 10)
  }

  /** One pass of itoa's loop: the next digit emitted is m % 10, and the
      loop goes on with m / 10 exactly when that is still positive. */
  lemma LowDigitsStep(m: nat)
    ensures LowDigits(m)[0] == DigitChar(m % 10)
    ensures m / 10 > 0 ==> LowDigits(m) == [DigitChar(m % 10)] + LowDigits(m / 10)
    ensures m / 10 == 0 ==> LowDigits(m) == [DigitChar(m % 10)]
  {
  }

  /** Emitting the digits least significant first and reversing them gives
      the digits in reading order. */
  lemma {:induction false} LowDigitsReversed(m: nat)
    ensures Reversed(LowDigits(m)) == NatDigits(m)
  {
    if m >= 10 {
      var c := DigitChar(m % 10);
      LowDigitsReversed(m / 10);
      ReversedConcat([c], LowDigits(m / 10));
      NatDigitsSplit(m);
      assert NatDigits(m) == NatDigits(m / 10) + [c];
    }
  }

  /** What itoa has in the buffer just before it calls reverse: the digits
      of |n| least significant first, then a '-' when n is negative. */
  function Unreversed(n: int): (r: seq<char>)
    ensures |r| >= 1 && (r[|r| - 1] == '-' <==> n < 0)
    ensures r[0] == DigitChar((if n < 0 then -n else n) % 10)
  {
    LowDigits(if n < 0 then -n else n) + (if n < 0 then ['-'] else [])
  }

  /** Reversing that buffer content yields the decimal numeral of n. */
  lemma UnreversedNumeral(n: int)
    ensures Reversed(Unreversed(n)) == DecimalString(n)
  {
    var low := LowDigits(if n < 0 then -n else n);
    LowDigitsReversed(if n < 0 then -n else n);
    ReversedConcat(low, if n < 0 then ['-'] else []);
  }

  /** That buffer content is as long as the numeral and holds no NUL. */
  lemma UnreversedShape(n: int)
    ensures |Unreversed(n)| == |DecimalString(n)| && NUL !in Unreversed(n)
  {
    UnreversedNumeral(n);
    var low := LowDigits(if n < 0 then -n else n);
    assert forall k :: 0 <= k < |low| ==> IsDigit(low[k]);
  }

  /** Writing the sign (for a negative number) and then the NUL right after
      the emitted digits, which sit at the front of the buffer. */
  lemma WriteSignAndNul(neg: bool, low: seq<char>, emitted: seq<char>, tail: seq<char>)
    requires var len := if neg then |low| + 1 else |low|;
      len < |emitted| && emitted[..|low|] == low && emitted[len + 1..] == tail
    ensures (if neg then emitted[|low| := '-'][|low| + 1 := NUL] else emitted[|low| := NUL])
      == low + (if neg then ['-'] else []) + [NUL] + tail
  {
    var len := if neg then |low| + 1 else |low|;
    assert emitted == emitted[..|low|] + emitted[|low|..len + 1] + emitted[len + 1..];
  }

  /** The reversal itoa ends with turns the buffer into the numeral of n,
      still terminated, with the rest of the buffer as it was. */
  lemma ItoaReversal(n: int, tail: seq<char>)
    ensures NUL in Unreversed(n) + [NUL] + tail
    ensures ReverseCString(Unreversed(n) + [NUL] + tail) == DecimalString(n) + [NUL] + tail
  {
    UnreversedNumeral(n);
    ReverseCStringOfTerminated(Unreversed(n), tail);
  }

  /** The do-while loop of K&R itoa: writes the digits of the non-negative
      m, least significant first, from index 0 (always at least one, so 0
      gives "0"), and returns how many it wrote. Cells past them keep their
      contents. */
  method EmitDigits(m: int, s: array<char>) returns (i: int)
    requires 0 <= m && |LowDigits(m)| <= s.Length
    modifies s
    ensures i == |LowDigits(m)| && s[..i] == LowDigits(m)
    ensures s[i..] == old(s[|LowDigits(m)|..])
  {
    ghost var low, tail := LowDigits(m), s[|LowDigits(m)|..];
    ghost var emitted: seq<char> := [];
    var n := m;
    i := 0;
    while true
      invariant 0 <= n && 0 <= i <= s.Length && emitted + LowDigits(n) == low
      invariant s[..i] == emitted
      invariant forall k :: |low| <= k < s.Length ==> s[k] == old(s[k])
      decreases n
    {
      LowDigitsStep(n);
      s[i] := DigitChar(n % 10);
      emitted := emitted + [DigitChar(n % 10)];
      i := i + 1;
      n := n / 10;
      if !(n > 0) {
        break;
      }
    }
  }

  /** K&R itoa: records the sign, makes n positive, emits its digits least
      significant first, appends '-' for a negative n and the terminator,
      then reverses the digits into reading order. It hands back the same
      buffer. INT_MIN is excluded because its negation overflows; the buffer
      must hold the numeral and its NUL. */
  method Itoa(n: int, s: array<char>) returns (r: array<char>)
    requires -INT_MAX <= n <= INT_MAX
    requires |DecimalString(n)| < s.Length
    modifies s
    ensures r == s
    ensures s[..] == DecimalString(n) + [NUL] + old(s[|DecimalString(n)| + 1..])
  {
    ghost var numeral := DecimalString(n);
    ghost var tail := s[|numeral| + 1..];
    UnreversedShape(n);
    var sign := n;
    var m := n;
    if sign < 0 {
      m := -n;
    }
    ghost var low := LowDigits(m);
    assert Unreversed(n) == low + (if n < 0 then ['-'] else []);
    var i := EmitDigits(m, s);
    ghost var before := s[..];
    assert before[..|low|] == low && before[|numeral| + 1..] == tail;
    if sign < 0 {
      s[i] := '-';
      i := i + 1;
    }
    s[i] := NUL;
    assert s[..] == (if n < 0 then before[|low| := '-'][|low| + 1 := NUL] else before[|low| := NUL]);
    WriteSignAndNul(n < 0, low, before, tail);
    StrLenOfTerminated(Unreversed(n), tail);
    DecimalStringFitsInt(n);
    r := Reverse(s);
    ItoaReversal(n, tail);
  }

  /** The string itoa leaves in a buffer is exactly the numeral of n: its
      terminator sits right after the numeral, and reading the string back as
      a signed decimal gives n. */
  lemma ItoaOutputReadsBack(n: int, tail: seq<char>)
    ensures var buffer := DecimalString(n) + [NUL] + tail;
      NUL in buffer && StrLen(buffer) == |DecimalString(n)|
      && ParseSigned(buffer[..StrLen(buffer)]) == Some(n)
  {
    UnreversedNumeral(n);
    ReversedConcat(Unreversed(n), []);
    assert NUL !in DecimalString(n);
    StrLenOfTerminated(DecimalString(n), tail);
    ParseDecimalString(n);
  }

  /** The report the test prints once pwritev has returned a count: "wrote ",
      the count spelled by itoa into a 12-character buffer, and " bytes\n".
      The count is a non-negative ssize_t narrowed to `int`, so it must fit
      an `int`; the -1 error return has been dealt with before this point. */
  method WrittenMessage(nwritten: int) returns (msg: string)
    requires 0 <= nwritten <= INT_MAX
    ensures msg == "wrote " + DecimalString(nwritten) + " bytes\n"
  {
    var nwrittenStr := new char[12];
    DecimalStringFitsInt(nwritten);
    var digits := Itoa(nwritten, nwrittenStr);
    ItoaOutputReadsBack(nwritten, digits[|DecimalString(nwritten)| + 1..]);
    msg := "wrote " + digits[..StrLen(digits[..])] + " bytes\n";
  }
}
