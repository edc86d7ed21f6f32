/** The text of the encoder's out-of-range error (`make_overflow_message`):
    the value kind, its size and the protocol maximum, with sizes written
    in decimal as `std::to_string` writes them. */
module OverflowMessages {

  predicate IsDigit(c: char)
  {
    '0' <= c <= '9'
  }

  predicate AllDigits(s: string)
  {
    forall i :: 0 <= i < |s| ==> IsDigit(s[i])
  }

  function DigitChar(d: nat): (c: char)
    requires d < 10
    ensures IsDigit(c)
  {
    ('0' as int + d) as char
  }

  /** `std::to_string` of an unsigned integer: decimal, no sign, no leading zeros. */
  function DecimalString(n: nat): (s: string)
    ensures 1 <= |s| && AllDigits(s)
    ensures |s| > 1 ==> s[0] != '0'
    decreases n
  {
    if n < 10 then [DigitChar(n)] else DecimalString(n / 10) + [DigitChar(n % 10)]
  }

  /** Reads a string of decimal digits. */
  function ParseDecimal(s: string): nat
    requires AllDigits(s)
  {
    if |s| == 0 then 0 else ParseDecimal(s[..|s| - 1]) * 10 + (s[|s| - 1] as int - '0' as int)
  }

  lemma {:induction false} DecimalRoundTrip(n: nat)
    ensures ParseDecimal(DecimalString(n)) == n
    decreases n
  {
    if n >= 10 {
      var s := DecimalString(n);
      assert s[..|s| - 1] == DecimalString(n / 10);
      DecimalRoundTrip(n / 10);
    }
  }

  const MESSAGE_START := "Cannot msgpack encode "
  const MESSAGE_SIZE := " of size "
  const MESSAGE_MAX := ", which exceeds the protocol maximum of "

  /** The pieces `make_overflow_message` appends, in order, with the text
      standing for the maximum left as a parameter. */
  function Assemble(typeName: string, actual: nat, maxText: string): string
  {
    MESSAGE_START + typeName + MESSAGE_SIZE + DecimalString(actual) + (MESSAGE_MAX + maxText + ".")
  }

  /** The message as the source builds it: `message += max` picks the
      `char` overload of `operator+=`, so the maximum becomes one character,
      its low byte, instead of decimal digits. */
  function OverflowMessageAsWritten(typeName: string, actual: nat, max: nat): (r: string)
    ensures |r| == |Assemble(typeName, actual, "")| + 1
    ensures r[|r| - 2] as int == max % 256
  {
    Assemble(typeName, actual, [(max % 256) as char])
  }

  /** The message as intended: the maximum in decimal like the actual size. */
  function OverflowMessage(typeName: string, actual: nat, max: nat): (r: string)
    ensures |r| > |DecimalString(max)|
    ensures r[|r| - 1 - |DecimalString(max)|..|r| - 1] == DecimalString(max)
    ensures ParseDecimal(r[|r| - 1 - |DecimalString(max)|..|r| - 1]) == max
  {
    var m := DecimalString(max);
    var r := Assemble(typeName, actual, m);
    assert r[|r| - 1 - |m|..|r| - 1] == m;
    DecimalRoundTrip(max);
    r
  }

  /** The character at position `i` of `head + d + x`. */
  lemma CharAt(head: string, d: string, x: string, i: int)
    ensures |head| <= i < |head| + |d| ==> (head + d + x)[i] == d[i - |head|]
    ensures i == |head| + |d| < |head + d + x| ==> (head + d + x)[i] == x[0]
  {
  }

  /** After a common head, two digit strings each followed by a non-digit
      can be told apart. */
  lemma SplitDigits(head: string, d1: string, x1: string, d2: string, x2: string)
    requires AllDigits(d1) && AllDigits(d2)
    requires |x1| > 0 && |x2| > 0 && !IsDigit(x1[0]) && !IsDigit(x2[0])
    requires head + d1 + x1 == head + d2 + x2
    ensures d1 == d2 && x1 == x2
  {
    var s1, s2 := head + d1 + x1, head + d2 + x2;
    var h := |head|;
    if |d1| < |d2| {
      CharAt(head, d1, x1, h + |d1|);
      CharAt(head, d2, x2, h + |d1|);
      assert false;
    } else if |d2| < |d1| {
      CharAt(head, d1, x1, h + |d2|);
      CharAt(head, d2, x2, h + |d2|);
      assert false;
    } else {
      assert d1 == s1[h..h + |d1|];
      assert d2 == s2[h..h + |d2|];
      assert x1 == s1[h + |d1|..];
      assert x2 == s2[h + |d2|..];
    }
  }

  /** The intended message determines both the actual size and the maximum
      of an error about a given kind of value. */
  lemma OverflowMessageDeterminesSizes(typeName: string, actual1: nat, max1: nat, actual2: nat, max2: nat)
    requires OverflowMessage(typeName, actual1, max1) == OverflowMessage(typeName, actual2, max2)
    ensures actual1 == actual2 && max1 == max2
  {
    var head := MESSAGE_START + typeName + MESSAGE_SIZE;
    var a1, a2 := DecimalString(actual1), DecimalString(actual2);
    var m1, m2 := DecimalString(max1), DecimalString(max2);
    var tail1, tail2 := MESSAGE_MAX + m1 + ".", MESSAGE_MAX + m2 + ".";
    assert tail1[0] == ',' && tail2[0] == ',';
    SplitDigits(head, a1, tail1, a2, tail2);
    SplitDigits(MESSAGE_MAX, m1, ".", m2, ".");
    DecimalRoundTrip(actual1);
    DecimalRoundTrip(actual2);
    DecimalRoundTrip(max1);
    DecimalRoundTrip(max2);
  }

  /** As written, the message cannot tell the 32-bit maximum 4294967295 from
      255: both come out as the single character U+00FF, whereas the
      intended messages differ. */
  lemma OverflowMessageAsWrittenLosesMaximum(typeName: string, actual: nat)
    ensures OverflowMessageAsWritten(typeName, actual, 0xFFFF_FFFF)
         == OverflowMessageAsWritten(typeName, actual, 0xFF)
    ensures OverflowMessage(typeName, actual, 0xFFFF_FFFF)
         != OverflowMessage(typeName, actual, 0xFF)
  {
    var max := 0xFFFF_FFFF;
    assert (max % 256) as char == (0xFF % 256) as char;
    if OverflowMessage(typeName, actual, max) == OverflowMessage(typeName, actual, 0xFF) {
      OverflowMessageDeterminesSizes(typeName, actual, max, actual, 0xFF);
    }
  }
}
