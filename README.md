# K&R `reverse` and `itoa` of the pwritev smoke test

The pwritev smoke test (`pwritev/test_simple/pwritev_test.c`) writes a
message with one `pwritev` call, then reports how many bytes were written
without using `printf`. It formats the count with two K&R string routines:

- `reverse` turns a NUL-terminated `char` array around in place. Index `i`
  runs up from 0 and `j` runs down from `strlen(s) - 1`, and the two cells
  are swapped until the indices meet.
- `itoa` records the sign of `n` and makes `n` positive. A do-while loop
  then emits the digits least significant first. The routine appends `'-'`
  for a negative number, writes the terminator, and calls `reverse` to put
  the characters into reading order.

This project models both routines as methods on `array<char>`, in three
modules:

- `Decimal` holds the value-level specification:
  - the digits of a number (`NatDigits`) and its signed decimal numeral
    (`DecimalString`);
  - reading a numeral back (`ParseNat`, `ParseSigned`);
  - the round trips between the two, and the 11-character bound for a C
    `int`.
- `CString` holds NUL-terminated sequences: `StrLen` and `ReverseCString`,
  the latter being the string after an in-place reversal.
- `PwritevTest` holds the imperative routines:
  - `Reverse`, `EmitDigits` (itoa's do-while loop) and `Itoa`, each proved
    against those functions;
  - `WrittenMessage`, the `"wrote N bytes\n"` report, which calls `Itoa` on
    a fresh 12-character buffer.

The model takes a C `int` to be 32 bits, -2^31 .. 2^31 - 1. It excludes
INT_MIN (-2^31), whose negation at line 48 is undefined (see "## Left
out"), so the numbers it formats lie in -(2^31 - 1) .. 2^31 - 1. Dafny
integers are otherwise unbounded. No index or quotient in the model leaves
the `int` range, so nothing wraps.

## Model

| member | source | states |
|---|---|---|
| PwritevTest.Reverse | pwritev/test_simple/pwritev_test.c:25-37 | returns the buffer it was given; afterwards the buffer holds `ReverseCString` of its old contents (the characters before the first NUL in opposite order, everything from the NUL on untouched) |
| CString.ReverseCString | pwritev/test_simple/pwritev_test.c:30-34 | same length; position k below strlen holds the old character at strlen-1-k; every position from the NUL on keeps its character |
| CString.ReverseCStringKeepsLength | pwritev/test_simple/pwritev_test.c:30 | the reversed string is still terminated, and its strlen is the same |
| CString.ReverseCStringShort | pwritev/test_simple/pwritev_test.c:30 | a string of length 0 or 1 comes out unchanged (the loop condition `i < j` is false at once) |
| CString.ReverseCStringInvolutive | pwritev/test_simple/pwritev_test.c:25-37 | reversing twice restores the original buffer contents |
| CString.ReverseCStringOfTerminated | pwritev/test_simple/pwritev_test.c:30-34 | for a NUL-free t, reversing t, NUL, tail gives reversed t, NUL, tail |
| CString.StrLen | pwritev/test_simple/pwritev_test.c:30 | strlen is the index of a NUL with no NUL before it |
| CString.StrLenOfTerminated | pwritev/test_simple/pwritev_test.c:55 | a NUL-free t followed by a NUL has strlen equal to the length of t |
| PwritevTest.EmitDigits | pwritev/test_simple/pwritev_test.c:49-52 | the do-while writes `LowDigits(m)` (at least one digit, so 0 gives "0") from index 0, returns its length, and leaves later cells alone |
| PwritevTest.LowDigits | pwritev/test_simple/pwritev_test.c:50-52 | the digits of m least significant first, in the order the do-while writes them: at least one, all digit characters |
| PwritevTest.LowDigitsStep | pwritev/test_simple/pwritev_test.c:51-52 | each pass emits m % 10, and the loop continues with m / 10 exactly when that is positive |
| PwritevTest.LowDigitsReversed | pwritev/test_simple/pwritev_test.c:50-56 | the digits emitted least significant first, once reversed, are the decimal digits of m in reading order |
| PwritevTest.Unreversed | pwritev/test_simple/pwritev_test.c:50-55 | the buffer's content just before `return reverse(s)`: it starts with the least significant digit of \|n\| and ends with '-' exactly when n is negative |
| PwritevTest.UnreversedNumeral | pwritev/test_simple/pwritev_test.c:50-56 | the digits plus a trailing '-' for a negative n, once reversed, are `DecimalString(n)` |
| PwritevTest.UnreversedShape | pwritev/test_simple/pwritev_test.c:50-55 | the content before the terminator is as long as the numeral and contains no NUL |
| PwritevTest.WriteSignAndNul | pwritev/test_simple/pwritev_test.c:53-55 | writing '-' (when negative) and then NUL after the digits gives digits, sign, NUL, and the untouched tail |
| PwritevTest.ItoaReversal | pwritev/test_simple/pwritev_test.c:56 | the final `reverse` turns that buffer into the numeral, the NUL and the untouched tail |
| PwritevTest.Itoa | pwritev/test_simple/pwritev_test.c:43-57 | returns the buffer it was given; the buffer holds `DecimalString(n)`, then NUL, then its old cells past that point |
| PwritevTest.ItoaOutputReadsBack | pwritev/test_simple/pwritev_test.c:39-57 | in itoa's output the NUL sits at index `\|DecimalString(n)\|`, and reading the string back as a signed decimal gives n |
| PwritevTest.WrittenMessage | pwritev/test_simple/pwritev_test.c:120-127 | the report is "wrote ", the decimal numeral of the count, then " bytes\n" |
| Decimal.NatDigits | pwritev/test_simple/pwritev_test.c:50-52 | at least one digit character, with a leading '0' exactly when the number is 0 |
| Decimal.DecimalString | pwritev/test_simple/pwritev_test.c:47-54 | non-empty, and it starts with '-' exactly when n is negative |
| Decimal.DecimalStringShape | pwritev/test_simple/pwritev_test.c:51-54 | every character is a digit except a leading '-'; the numeral is canonical (no leading zero, no "-0") |
| Decimal.ParseNat | pwritev/test_simple/pwritev_test.c:51 | a string of k digits reads as a value below 10^k |
| Decimal.ParseSigned | pwritev/test_simple/pwritev_test.c:47-55 | the signed reader behind the round trips: it accepts exactly one or more digits, optionally after a '-'; a negative value comes only from a leading '-'; a value read from k characters lies strictly between -10^k and 10^k |
| Decimal.ParseNatDigits | pwritev/test_simple/pwritev_test.c:50-52 | reading the digits of m back gives m |
| Decimal.ParseNatLowerBound | pwritev/test_simple/pwritev_test.c:50-52 | k digits without a leading zero read as at least 10^(k-1) |
| Decimal.NatDigitsOfParse | pwritev/test_simple/pwritev_test.c:50-52 | a digit string without a leading zero is the digits of its own value |
| Decimal.ParseDecimalString | pwritev/test_simple/pwritev_test.c:39-57 | round trip: reading `DecimalString(n)` back as a signed numeral gives n |
| Decimal.DecimalStringOfParse | pwritev/test_simple/pwritev_test.c:39-57 | the converse: every canonical numeral is the `DecimalString` of the value it reads as, so the output format is the one canonical spelling |
| Decimal.NatDigitsLength | pwritev/test_simple/pwritev_test.c:50-52 | a number below 10^k needs at most k digits |
| Decimal.DecimalStringFitsInt | pwritev/test_simple/pwritev_test.c:121-125 | every `int` other than INT_MIN takes at most 11 characters, so with its NUL it fits the 12-character buffer |
| Decimal.DigitChar | pwritev/test_simple/pwritev_test.c:51 | `d + '0'` is a digit character whose value is d |

## Left out

- The vectored-write harnesses are not modelled. This covers the `open`, `pwritev`, `writev`, `fsync`, `close` and `free` sequences and `main`. Their outcomes are decided by the operating system.
- The loops that write the report's segments to a file descriptor are not modelled. They retry `write(2)` until the whole segment has gone out. `WrittenMessage` stops at the assembled text.
- `usage` and the command-line parsing (`strtoul`, `atoi`, `getopt`) are not modelled. They are output and library calls whose code is not visible here.
- The guard checks in front of the system calls are not modelled. These are the `IOV_MAX` check, the partial-write advisory and the `fsync` `EINVAL` downgrade; each is a single comparison.
- PwritevTest.Itoa: INT_MIN is excluded by a precondition. Its negation at line 48 is undefined behaviour in C.
- PwritevTest.WrittenMessage: the count must be between 0 and INT_MAX. Narrowing the `ssize_t` count to `int` at line 125 is implementation-defined for larger values. The -1 error return is handled before the report is built.
- PwritevTest.Reverse: the string length must be at most 2^31. That keeps `strlen(s) - 1`, a `size_t` converted to `int`, exact. For the empty string the model takes the conversion to give -1, as it does on the usual two's-complement targets, so nothing is swapped.
- Itoa's do-while loop is a separate method, `EmitDigits`. The loop's own behaviour is kept, a `while` whose test comes after the body. `Itoa` calls it where the loop stands.
- Buffer contents beyond the terminator are arbitrary in the model. The contracts say those cells keep whatever they held, and the C code does not read them.
- A C `char` is one byte, whereas a Dafny `char` is a Unicode scalar value. The model treats each cell as an abstract character, which matches C when every cell stands for one byte. On a UTF-8 string, C's `reverse` reverses the bytes, not the code points, and the model says nothing about encodings.
