/** The two instantiations of the codec, their alphabets and the codes its methods return. */
module Utf7 {

  /** A UTF-16 code unit (`char16_t`). */
  type Unit = u: nat | u < 0x10000

  /** The value of a `char`, which beyond 7 bits is negative or not, as the platform has it. */
  type Byte = int

  predicate IsAscii(s: seq<Byte>) {
    forall i :: 0 <= i < |s| ==> 0 <= s[i] < 128
  }

  /** UTF-7 (RFC 2152), and the mailbox-name form of section 5.1.3 of RFC 3501. */
  datatype Variant = UTF7 | MUTF7

  /** The conversion of a `char` to `char16_t`. */
  function Widen(b: Byte): Unit {
    b % 0x10000
  }

  datatype Mode = Direct | Base64

  datatype Status = Ok | MoreOutput | IllegalInput

  const MINUS: Byte := 45  // '-'

  function EscChar(v: Variant): Byte {
    if v.UTF7? then 43 else 38  // '+' or '&'
  }

  function LastChar(v: Variant): Byte {
    if v.UTF7? then 47 else 44  // '/' or ','
  }

  /** The character of a base64 value; -1 for a number that is none. */
  function ValueToChar(last: Byte, value: nat): Byte {
    if value < 26 then 65 + value
    else if value < 52 then 97 + value - 26
    else if value < 62 then 48 + value - 52
    else if value == 62 then 43
    else if value == 63 then last
    else -1
  }

  /** The base64 value of a character; 0xffff for a character that is no digit. */
  function CharToValue(last: Byte, c: Byte): nat {
    if 65 <= c <= 90 then c - 65
    else if 97 <= c <= 122 then 26 + c - 97
    else if 48 <= c <= 57 then 52 + c - 48
    else if c == 43 then 62
    else if c == last then 63
    else 0xffff
  }

  /** The units a variant writes as themselves. */
  predicate DirectEncodable(v: Variant, ch: Unit) {
    match v
    case MUTF7 => 0x20 <= ch <= 0x7e
    case UTF7 =>
      || 65 <= ch <= 90 || 97 <= ch <= 122 || 48 <= ch <= 57
      || 39 <= ch <= 41 || 44 <= ch <= 47
      || ch == 58 || ch == 63 || ch == 32 || ch == 9 || ch == 13 || ch == 10 || ch == 60
      || ch == 33 || ch == 34 || ch == 62 || ch == 61 || ch == 59 || ch == 91 || ch == 93
  }

  function ModeOf(v: Variant, ch: Unit): Mode {
    if DirectEncodable(v, ch) then Direct else Base64
  }

  function Digit(v: Variant, d: nat): Byte
    requires d < 64
  {
    ValueToChar(LastChar(v), d)
  }

  function Value(v: Variant, c: Byte): nat {
    CharToValue(LastChar(v), c)
  }

  predicate IsDigit(v: Variant, c: Byte) {
    Value(v, c) < 64
  }

  /** A string of digits, written out. */
  function Chars(v: Variant, ds: seq<nat>): (s: seq<Byte>)
    requires forall i :: 0 <= i < |ds| ==> ds[i] < 64
    ensures |s| == |ds| && forall i :: 0 <= i < |ds| ==> s[i] == Digit(v, ds[i])
  {
    seq(|ds|, i requires 0 <= i < |ds| => Digit(v, ds[i]))
  }

  /** A string of digits, read back. */
  function Values(v: Variant, s: seq<Byte>): (ds: seq<nat>)
    requires forall i :: 0 <= i < |s| ==> IsDigit(v, s[i])
    ensures |ds| == |s| && forall i :: 0 <= i < |s| ==> ds[i] == Value(v, s[i])
    ensures forall i :: 0 <= i < |ds| ==> ds[i] < 64
  {
    var ds := seq(|s|, i requires 0 <= i < |s| => Value(v, s[i]));
    assert forall i :: 0 <= i < |s| ==> IsDigit(v, s[i]);
    ds
  }

  /** `CharToValue` and `ValueToChar` are inverse on the 64 digits, and to both `-` is no digit. */
  lemma DigitValue(v: Variant, d: nat)
    requires d < 64
    ensures IsDigit(v, Digit(v, d)) && Value(v, Digit(v, d)) == d
    ensures Digit(v, d) != MINUS
    ensures 0x20 < Digit(v, d) < 0x7f
    ensures DirectEncodable(v, Digit(v, d)) || Digit(v, d) == 43
  {
  }

  lemma ValueDigit(v: Variant, c: Byte)
    ensures Value(v, c) > 0xff <==> !IsDigit(v, c)
    ensures IsDigit(v, c) ==> Digit(v, Value(v, c)) == c
    ensures c == MINUS ==> !IsDigit(v, c)
  {
  }

  lemma CharsConcat(v: Variant, a: seq<nat>, b: seq<nat>)
    requires forall i :: 0 <= i < |a| ==> a[i] < 64
    requires forall i :: 0 <= i < |b| ==> b[i] < 64
    ensures Chars(v, a + b) == Chars(v, a) + Chars(v, b)
  {
  }

  lemma CharsOfValues(v: Variant, s: seq<Byte>)
    requires forall i :: 0 <= i < |s| ==> IsDigit(v, s[i])
    ensures Chars(v, Values(v, s)) == s
  {
    forall i | 0 <= i < |s| ensures Chars(v, Values(v, s))[i] == s[i] {
      ValueDigit(v, s[i]);
    }
  }

  lemma ValuesOfChars(v: Variant, ds: seq<nat>)
    requires forall i :: 0 <= i < |ds| ==> ds[i] < 64
    ensures forall i :: 0 <= i < |ds| ==> IsDigit(v, Chars(v, ds)[i])
    ensures Values(v, Chars(v, ds)) == ds
  {
    forall i | 0 <= i < |ds|
      ensures IsDigit(v, Chars(v, ds)[i]) && Value(v, Chars(v, ds)[i]) == ds[i]
    {
      DigitValue(v, ds[i]);
    }
  }
}
