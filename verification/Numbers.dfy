/** Number printing in student-distrib/lib.c: `itoa`, its in-place `strrev`, and printf's `%#x`. */
module Numbers {
  import opened Bytes
  import opened CStrings

  const ZERO: byte := 48 // '0'

  // lookup[] in itoa: 0-9 then A-Z.
  function DigitChar(d: nat): byte
    requires d < 36
  {
    if d < 10 then 48 + d else 55 + d
  }

  function DigitValue(c: byte): nat {
    if 48 <= c < 58 then c - 48 else if 65 <= c < 91 then c - 55 else 36
  }

  ghost predicate IsNumeral(text: seq<byte>, radix: nat) {
    forall i :: 0 <= i < |text| ==> DigitValue(text[i]) < radix
  }

  // A numeral with no leading zero, except for "0" itself.
  ghost predicate Canonical(text: seq<byte>, radix: nat) {
    text != [] && IsNumeral(text, radix) && (text[0] == ZERO ==> |text| == 1)
  }

  // The value a reader gives to a numeral.
  function Parse(text: seq<byte>, radix: nat): nat {
    if text == [] then 0 else Parse(text[..|text| - 1], radix) * radix + DigitValue(text[|text| - 1])
  }

  lemma Quotient(value: nat, radix: nat)
    requires radix >= 2
    ensures value == (value / radix) * radix + value % radix && 0 <= value % radix < radix
    ensures value >= radix ==> 1 <= value / radix
    ensures value > 0 ==> value / radix < value
    ensures 2 * (value / radix) <= value
  {
    var q := value / radix;
    assert value == radix * q + value % radix;
    assert (radix - 2) * q >= 0;
    assert radix * q == (radix - 2) * q + 2 * q;
  }

  // Most significant digit first.
  function Digits(value: nat, radix: nat): (text: seq<byte>)
    requires 2 <= radix <= 36
    ensures text != []
  {
    if value < radix then [DigitChar(value)]
    else
      Quotient(value, radix);
      Digits(value / radix, radix) + [DigitChar(value % radix)]
  }

  lemma Small(k: int, radix: int, x: int)
    requires radix > 0 && k * radix == x && -radix < x < radix
    ensures k == 0
  {}

  lemma QuotientOf(q: nat, d: nat, radix: nat)
    requires radix >= 2 && d < radix
    ensures (q * radix + d) / radix == q && (q * radix + d) % radix == d
  {
    var v := q * radix + d;
    Quotient(v, radix);
    var p := v / radix;
    assert (p - q) * radix == d - v % radix;
    Small(p - q, radix, d - v % radix);
  }

  lemma DigitsStep(q: nat, d: nat, radix: nat)
    requires 2 <= radix <= 36 && q >= 1 && d < radix
    ensures Digits(q * radix + d, radix) == Digits(q, radix) + [DigitChar(d)]
    ensures q * radix + d > 0
  {
    assert q * radix >= radix;
    QuotientOf(q, d, radix);
  }

  /** Printing then reading gives the value back, and the text is canonical. */
  lemma {:induction false} ParseDigits(value: nat, radix: nat)
    requires 2 <= radix <= 36
    ensures Parse(Digits(value, radix), radix) == value
    ensures Canonical(Digits(value, radix), radix)
    ensures value > 0 ==> Digits(value, radix)[0] != ZERO
  {
    var text := Digits(value, radix);
    if value < radix {
      assert text[..0] == [];
    } else {
      Quotient(value, radix);
      ParseDigits(value / radix, radix);
      assert text[..|text| - 1] == Digits(value / radix, radix);
    }
  }

  /** Reading then printing gives the text back: each value has exactly one canonical numeral. */
  lemma {:induction false} DigitsParse(text: seq<byte>, radix: nat)
    requires 2 <= radix <= 36 && Canonical(text, radix)
    ensures Digits(Parse(text, radix), radix) == text
    ensures text[0] != ZERO ==> Parse(text, radix) > 0
  {
    var last := DigitValue(text[|text| - 1]);
    var init := text[..|text| - 1];
    assert DigitChar(last) == text[|text| - 1];
    if init == [] {
      assert text == [DigitChar(last)];
    } else {
      assert init[0] == text[0];
      DigitsParse(init, radix);
      DigitsStep(Parse(init, radix), last, radix);
      assert text == init + [text[|text| - 1]];
    }
  }

  function Pow2(n: nat): nat { if n == 0 then 1 else 2 * Pow2(n - 1) }

  // A value below 2^bits has at most `bits` digits in any radix.
  lemma {:induction false} DigitsLength(value: nat, radix: nat, bits: nat)
    requires 2 <= radix <= 36 && 1 <= bits && value < Pow2(bits)
    ensures |Digits(value, radix)| <= bits
  {
    assert Pow2(1) == 2;
    if value < radix {
    } else {
      Quotient(value, radix);
      assert bits > 1;
      DigitsLength(value / radix, radix, bits - 1);
    }
  }

  lemma Pow2Word()
    ensures Pow2(32) == 0x1_0000_0000
  {
    assert Pow2(8) == 0x100;
    assert Pow2(16) == 0x1_0000 by { assert Pow2(12) == 0x1000; }
    assert Pow2(24) == 0x100_0000 by { assert Pow2(20) == 0x10_0000; }
    assert Pow2(28) == 0x1000_0000;
  }

  lemma NumeralFits(value: nat, radix: nat)
    requires value < 0x1_0000_0000 && 2 <= radix <= 36
    ensures |Digits(value, radix)| <= 32
  {
    Pow2Word();
    DigitsLength(value, radix, 32);
  }

  // ----- the buffers -----

  function Reverse(s: seq<byte>): (r: seq<byte>)
    ensures |r| == |s| && forall i :: 0 <= i < |s| ==> r[i] == s[|s| - 1 - i]
  {
    seq(|s|, i requires 0 <= i < |s| => s[|s| - 1 - i])
  }

  ghost predicate StringAt(buf: seq<byte>, at: nat, text: seq<byte>) {
    && at + |text| < |buf|
    && (forall k :: at <= k < at + |text| ==> buf[k] == text[k - at] != NUL)
    && buf[at + |text|] == NUL
  }

  lemma StringName(buf: seq<byte>, at: nat, text: seq<byte>)
    requires StringAt(buf, at, text)
    ensures Name(buf[at..], |buf| - at) == text
  {
    var s := buf[at..];
    assert forall k :: 0 <= k < |text| ==> s[k] == buf[at + k];
    NameUpTo(s, |s|, text);
  }

  // strlen of the string that stands at buf[at..]
  method LengthAt(buf: array<byte>, at: nat, ghost text: seq<byte>) returns (len: nat)
    requires StringAt(buf[..], at, text)
    ensures len == |text|
  {
    StringName(buf[..], at, text);
    assert buf[..][at..] == buf[at..];
    len := Strlen(buf[at..]);
  }

  method Strrev(buf: array<byte>, at: nat, ghost text: seq<byte>)
    requires StringAt(buf[..], at, text)
    modifies buf
    ensures StringAt(buf[..], at, Reverse(text))
    ensures forall k :: 0 <= k < buf.Length && !(at <= k < at + |text|) ==> buf[k] == old(buf[k])
  {
    var len := LengthAt(buf, at, text);
    var beg: int, end: int := 0, (len as int) - 1;
    while beg < end
      invariant beg + end + 1 == len && 0 <= beg <= end + 2
      invariant forall k :: 0 <= k < buf.Length && !(at <= k < at + beg) && !(at + end < k < at + len) ==>
        buf[k] == old(buf[k])
      invariant forall k :: at <= k < at + beg || at + end < k < at + len ==>
        buf[k] == old(buf[at + (at + len - 1 - k)])
    {
      var tmp := buf[at + end];
      buf[at + end] := buf[at + beg];
      buf[at + beg] := tmp;
      beg, end := beg + 1, end - 1;
    }
    assert forall k :: 0 <= k < buf.Length ==> buf[..][k] == buf[k] && old(buf[..])[k] == old(buf[k]);
    forall k | at <= k < at + |text| ensures buf[..][k] == Reverse(text)[k - at] != NUL {
      assert buf[k] == old(buf[at + (at + len - 1 - k)]);
    }
  }

  // What is still to be written, given the value that is left.
  function HighDigits(value: nat, radix: nat): seq<byte>
    requires 2 <= radix <= 36
  {
    if value == 0 then [] else Digits(value, radix)
  }

  lemma HighDigitsStep(value: nat, radix: nat)
    requires 2 <= radix <= 36 && value > 0
    ensures HighDigits(value, radix) == HighDigits(value / radix, radix) + [DigitChar(value % radix)]
    ensures value / radix < value
  {
    Quotient(value, radix);
    if value < radix { QuotientOf(0, value, radix); }
  }

  // The digits still to be written and those written, lowest place first, make up the numeral.
  ghost predicate Splits(value: nat, radix: nat, left: nat, low: seq<byte>)
    requires 2 <= radix <= 36
  {
    HighDigits(left, radix) + Reverse(low) == Digits(value, radix)
  }

  lemma SplitStart(value: nat, radix: nat)
    requires 0 < value && 2 <= radix <= 36
    ensures Splits(value, radix, value, [])
  {}

  lemma SplitStep(value: nat, radix: nat, left: nat, low: seq<byte>)
    requires 2 <= radix <= 36 && left > 0 && Splits(value, radix, left, low)
    ensures |low| < |Digits(value, radix)| && left / radix < left
    ensures Splits(value, radix, left / radix, low + [DigitChar(left % radix)])
  {
    HighDigitsStep(left, radix);
    hide HighDigits, Digits;
    var high, digit := HighDigits(left / radix, radix), DigitChar(left % radix);
    assert high + [digit] + Reverse(low) == high + Reverse(low + [digit]);
  }

  lemma SplitEnd(value: nat, radix: nat, low: seq<byte>)
    requires 2 <= radix <= 36 && Splits(value, radix, 0, low)
    ensures Reverse(low) == Digits(value, radix)
  {}

  // The digit of the lowest place, and the value that is left.
  method NextDigit(newval: nat, radix: nat, ghost value: nat, ghost low: seq<byte>) returns (digit: byte, left: nat)
    requires 2 <= radix <= 36 && newval > 0 && Splits(value, radix, newval, low)
    ensures digit != NUL && left < newval
    ensures Splits(value, radix, left, low + [digit]) && |low| < |Digits(value, radix)|
  {
    SplitStep(value, radix, newval, low);
    digit, left := DigitChar(newval % radix), newval / radix;
  }

  // The characters of a string whose NUL is still to come.
  ghost predicate Stored(buf: seq<byte>, at: nat, text: seq<byte>) {
    at + |text| <= |buf| && forall k :: at <= k < at + |text| ==> buf[k] == text[k - at] != NUL
  }

  method PutDigit(buf: array<byte>, at: nat, newbuf: nat, digit: byte, ghost text: seq<byte>)
    requires Stored(buf[..], at, text) && at + |text| == newbuf < buf.Length && digit != NUL
    modifies buf
    ensures Stored(buf[..], at, text + [digit])
    ensures forall k :: 0 <= k < buf.Length && k != newbuf ==> buf[k] == old(buf[k])
  {
    buf[newbuf] := digit;
  }

  method PutNul(buf: array<byte>, at: nat, newbuf: nat, ghost text: seq<byte>)
    requires Stored(buf[..], at, text) && at + |text| == newbuf < buf.Length
    modifies buf
    ensures StringAt(buf[..], at, text)
    ensures forall k :: 0 <= k < buf.Length && k != newbuf ==> buf[k] == old(buf[k])
  {
    buf[newbuf] := NUL;
  }

  // The digit loop of itoa, lowest place first.
  method WriteLowFirst(value: nat, buf: array<byte>, at: nat, radix: nat) returns (ghost low: seq<byte>)
    requires 0 < value < 0x1_0000_0000 && 2 <= radix <= 36 && at + 32 < buf.Length
    modifies buf
    ensures StringAt(buf[..], at, low) && Reverse(low) == Digits(value, radix)
    ensures forall k :: 0 <= k < buf.Length && !(at <= k <= at + |low|) ==> buf[k] == old(buf[k])
  {
    NumeralFits(value, radix);
    SplitStart(value, radix);
    low := [];
    assert Stored(buf[..], at, low);
    hide Digits, Pow2, Splits, Stored, StringAt;
    var newbuf: nat, newval: nat := at, value;
    while newval > 0
      invariant newbuf == at + |low|
      invariant Splits(value, radix, newval, low)
      invariant Stored(buf[..], at, low)
      invariant forall k :: 0 <= k < buf.Length && !(at <= k < newbuf) ==> buf[k] == old(buf[k])
      decreases newval
    {
      var digit;
      digit, newval := NextDigit(newval, radix, value, low);
      PutDigit(buf, at, newbuf, digit, low);
      low := low + [digit];
      newbuf := newbuf + 1;
    }
    SplitEnd(value, radix, low);
    PutNul(buf, at, newbuf, low);
  }

  /** The string left at buf[at..] is the value's numeral, most significant digit first. */
  method Itoa(value: nat, buf: array<byte>, at: nat, radix: nat)
    requires value < 0x1_0000_0000 && 2 <= radix <= 36 && at + 32 < buf.Length
    modifies buf
    ensures StringAt(buf[..], at, Digits(value, radix))
    ensures forall k :: 0 <= k < buf.Length && !(at <= k <= at + |Digits(value, radix)|) ==> buf[k] == old(buf[k])
  {
    if value == 0 {
      buf[at] := ZERO;
      buf[at + 1] := NUL;
      return;
    }
    ghost var low := WriteLowFirst(value, buf, at, radix);
    Strrev(buf, at, low);
  }

  lemma {:induction false} ParseZeros(n: nat, text: seq<byte>, radix: nat)
    ensures Parse(seq(n, i => ZERO) + text, radix) == Parse(text, radix)
    decreases |text|, n
  {
    var zeros := seq(n, i => ZERO);
    var whole := zeros + text;
    if text != [] {
      assert whole[..|whole| - 1] == zeros + text[..|text| - 1];
      ParseZeros(n, text[..|text| - 1], radix);
    } else if n > 0 {
      assert whole[..n - 1] == seq(n - 1, i => ZERO) + [];
      ParseZeros(n - 1, [], radix);
    }
  }

  lemma Pow2Digit(n: nat)
    requires n >= 1
    ensures Pow2(4 * n) == 16 * Pow2(4 * (n - 1))
  {
    var m := 4 * n;
    assert Pow2(m) == 2 * Pow2(m - 1) && Pow2(m - 1) == 2 * Pow2(m - 2);
    assert Pow2(m - 2) == 2 * Pow2(m - 3) && Pow2(m - 3) == 2 * Pow2(m - 4);
  }

  // Eight hexadecimal digits hold every 32-bit value.
  lemma {:induction false} HexLength(value: nat, n: nat)
    requires 1 <= n <= 8 && value < Pow2(4 * n)
    ensures |Digits(value, 16)| <= n
  {
    if value < 16 {
    } else {
      Pow2Digit(n);
      assert 4 * (n - 1) != 0;
      HexLength(value / 16, n - 1);
    }
  }

  /** `%#x` prints exactly eight hexadecimal digits, and they read back as the value. */
  method PrintHexAligned(value: nat) returns (printed: seq<byte>)
    requires value < 0x1_0000_0000
    ensures |printed| == 8 && IsNumeral(printed, 16) && Parse(printed, 16) == value
  {
    hide Digits, Parse, Pow2;
    var convBuf := new byte[64];
    Itoa(value, convBuf, 8, 16);
    ghost var text := Digits(value, 16);
    Pow2Word();
    HexLength(value, 8);
    ParseDigits(value, 16);
    var start := LengthAt(convBuf, 8, text);
    var i := start;
    while i < 8
      invariant start <= i <= 8
      invariant forall k :: start <= k < i ==> convBuf[k] == ZERO
      invariant StringAt(convBuf[..], 8, text)
    {
      convBuf[i] := ZERO;
      i := i + 1;
    }
    ghost var zeros := seq(8 - start, i => ZERO);
    assert StringAt(convBuf[..], start, zeros + text);
    var len := LengthAt(convBuf, start, zeros + text);
    printed := convBuf[start..start + len];
    assert printed == zeros + text;
    ParseZeros(8 - start, text, 16);
  }
}
