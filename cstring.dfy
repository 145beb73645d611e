/** NUL-terminated character arrays as the C code sees them: the length is the
    index of the first NUL, and reversing a string touches only the cells
    before it. */
module CString {

  const NUL: char := '\0'

  /** C's strlen: the index of the first NUL. */
  function StrLen(s: seq<char>): (len: nat)
    requires NUL in s
    ensures len < |s| && s[len] == NUL
    ensures NUL !in s[..len]
  {
    if s[0] == NUL then 0
    else
      assert NUL in s[1..] by {
        var k :| 0 <= k < |s| && s[k] == NUL;
        assert s[1..][k - 1] == NUL;
      }
      1 + StrLen(s[1..])
  }

  /** A character sequence followed by a NUL has that sequence's length. */
  lemma StrLenOfTerminated(t: seq<char>, tail: seq<char>)
    requires NUL !in t
    ensures NUL in t + [NUL] + tail && StrLen(t + [NUL] + tail) == |t|
    ensures (t + [NUL] + tail)[..|t|] == t
  {
    var s := t + [NUL] + tail;
    assert s[|t|] == NUL;
  }

  /** The sequence s read back to front. */
  function Reversed(s: seq<char>): seq<char> {
    seq(|s|, k requires 0 <= k < |s| => s[|s| - 1 - k])
  }

  /** Reversal turns a concatenation around. */
  lemma ReversedConcat(a: seq<char>, b: seq<char>)
    ensures Reversed(a + b) == Reversed(b) + Reversed(a)
  {
  }

  /** Reversing twice gives back the original. */
  lemma ReversedReversed(s: seq<char>)
    ensures Reversed(Reversed(s)) == s
  {
  }

  /** The string s after K&R reverse: the characters before the first NUL in
      opposite order, the NUL and everything after it as they were. */
  function ReverseCString(s: seq<char>): (r: seq<char>)
    requires NUL in s
    ensures |r| == |s|
    ensures forall k {:trigger r[k]} :: 0 <= k < StrLen(s) ==> r[k] == s[StrLen(s) - 1 - k]
    ensures forall k {:trigger r[k]} :: StrLen(s) <= k < |s| ==> r[k] == s[k]
  {
    Reversed(s[..StrLen(s)]) + s[StrLen(s)..]
  }

  /** Reversal keeps the terminator where it was, so the string length is unchanged. */
  lemma ReverseCStringKeepsLength(s: seq<char>)
    requires NUL in s
    ensures NUL in ReverseCString(s) && StrLen(ReverseCString(s)) == StrLen(s)
  {
    var r, len := ReverseCString(s), StrLen(s);
    assert r[len] == NUL;
  }

  /** Reversing a string twice restores it. */
  lemma ReverseCStringInvolutive(s: seq<char>)
    requires NUL in s
    ensures NUL in ReverseCString(s) && ReverseCString(ReverseCString(s)) == s
  {
    ReverseCStringKeepsLength(s);
    var len, r := StrLen(s), ReverseCString(s);
    assert r[..len] == Reversed(s[..len]) && r[len..] == s[len..];
    ReversedReversed(s[..len]);
    assert s == s[..len] + s[len..];
  }

  /** A string of length 0 or 1 is its own reversal. */
  lemma ReverseCStringShort(s: seq<char>)
    requires NUL in s && StrLen(s) <= 1
    ensures ReverseCString(s) == s
  {
  }

  /** Reversing a terminated sequence reverses just the part before the NUL. */
  lemma ReverseCStringOfTerminated(t: seq<char>, tail: seq<char>)
    requires NUL !in t
    ensures NUL in t + [NUL] + tail
    ensures ReverseCString(t + [NUL] + tail) == Reversed(t) + [NUL] + tail
  {
    StrLenOfTerminated(t, tail);
  }
}
