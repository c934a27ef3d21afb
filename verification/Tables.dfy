/** The tables of the codec, spelt out, and what they make of texts. */
module Tables {
  import opened Sequences
  import opened Utf7
  import opened EncoderText
  import opened EncoderFacts
  import opened DecoderText
  import opened RoundTrip
  import D = DecoderSpec
  import DecoderRuns
  import EncoderSpec

  const UPPER := "ABCDEFGHIJKLMNOPQRSTUVWXYZ"
  const LOWER := "abcdefghijklmnopqrstuvwxyz"
  const NUMBERS := "0123456789"

  /** The base64 digits in the order of their values. */
  function Alphabet(v: Variant): string {
    UPPER + LOWER + NUMBERS + "+" + (if v == UTF7 then "/" else ",")
  }

  /** What a UTF-7 encoder leaves alone besides letters and numbers, in the order in which it tests for it. */
  const OTHERS := "'(),-./:? \t\r\n<!\">=;[]"

  /** The units that stand for themselves. */
  predicate Literal(v: Variant, ch: Unit) {
    if v == UTF7 then ch < 128 && (ch as char) in UPPER + LOWER + NUMBERS + OTHERS else 0x20 <= ch <= 0x7e
  }

  // ----- digits

  lemma LettersSpelt(d: nat)
    ensures |UPPER| == |LOWER| == 26 && |NUMBERS| == 10
    ensures d < 26 ==> UPPER[d] as int == 65 + d && LOWER[d] as int == 97 + d
    ensures d < 10 ==> NUMBERS[d] as int == 48 + d
  {
  }

  /** The digit of each value is its character in the alphabet, and that character's value is its place there. */
  lemma DigitSpelt(v: Variant, d: nat)
    requires d < 64
    ensures |Alphabet(v)| == 64 && Digit(v, d) == Alphabet(v)[d] as int && Value(v, Alphabet(v)[d] as int) == d
    ensures MINUS == '-' as int && EscChar(UTF7) == '+' as int && EscChar(MUTF7) == '&' as int
  {
    LettersSpelt(if d < 26 then d else if d < 52 then d - 26 else if d < 62 then d - 52 else 0);
  }

  /** No other byte is a digit. */
  lemma DigitExactly(v: Variant, c: Byte)
    ensures |Alphabet(v)| == 64
    ensures IsDigit(v, c) <==> exists d :: 0 <= d < 64 && Alphabet(v)[d] as int == c
  {
    hide Alphabet, Digit, Value;
    DigitSpelt(v, 0);
    ValueDigit(v, c);
    if IsDigit(v, c) {
      DigitSpelt(v, Value(v, c));
    }
    if d :| 0 <= d < 64 && Alphabet(v)[d] as int == c {
      DigitSpelt(v, d);
    }
  }

  // ----- units that stand for themselves

  lemma LettersIn(ch: nat)
    requires ch < 128
    ensures (ch as char) in UPPER <==> 65 <= ch <= 90
    ensures (ch as char) in LOWER <==> 97 <= ch <= 122
    ensures (ch as char) in NUMBERS <==> 48 <= ch <= 57
  {
  }

  lemma OthersIn(ch: nat)
    requires ch < 128
    ensures (ch as char) in OTHERS
       <==> 39 <= ch <= 41 || 44 <= ch <= 47 || 58 <= ch <= 63 || 32 <= ch <= 34 || ch in {9, 10, 13, 91, 93}
  {
  }

  lemma LiteralExactly(v: Variant, ch: Unit)
    ensures DirectEncodable(v, ch) <==> Literal(v, ch)
  {
    if ch < 128 {
      LettersIn(ch);
      OthersIn(ch);
    }
  }

  /** What a text begins with. */
  lemma TextBegins(v: Variant, u: seq<Unit>)
    requires u != []
    ensures var s := Encode(v, u);
            var escape := if v == UTF7 then '+' else '&';
            && s != []
            && (Literal(v, u[0]) && u[0] != '&' as int ==> s == [u[0]] + Encode(v, u[1..]))
            && (v == MUTF7 && u[0] == '&' as int ==> s == ['&' as int, '-' as int] + Encode(v, u[1..]))
            && (!Literal(v, u[0]) ==> s[0] == escape as int)
  {
    hide Literal;
    LiteralExactly(v, u[0]);
  }

  lemma {:induction false} TextGrows(v: Variant, u: seq<Unit>)
    ensures |Encode(v, u)| >= |u|
    ensures (exists i :: 0 <= i < |u| && (!Literal(v, u[i]) || u[i] == '&' as int)) ==> |Encode(v, u)| > |u|
    decreases |u|
  {
    hide Literal, Section, Encode;
    if u != [] {
      var k := RunLength(v, u);
      LiteralExactly(v, u[0]);
      TextBegins(v, u);
      if k > 0 {
        RunFirst(v, u);
        TextGrows(v, u[k..]);
      } else {
        TextGrows(v, u[1..]);
        LiteralExactly(v, 38);
        assert forall i :: 1 <= i < |u| ==> u[i] == u[1..][i - 1];
      }
    }
  }

  lemma RunFirst(v: Variant, u: seq<Unit>)
    requires RunLength(v, u) > 0
    ensures |Encode(v, u)| > RunLength(v, u) + |Encode(v, u[RunLength(v, u)..])|
  {
    hide Section;
    SectionLength(v, u[..RunLength(v, u)]);
  }

  /** A text is its own encoding if and only if all its units are spelt out above and none is `&`. */
  lemma {:induction false} LiteralText(v: Variant, u: seq<Unit>)
    ensures Encode(v, u) == u <==> forall i :: 0 <= i < |u| ==> Literal(v, u[i]) && u[i] != '&' as int
    decreases |u|
  {
    hide Literal, Encode;
    TextGrows(v, u);
    if u == [] {
      assert Encode(v, u) == [] by { EncodeNone(v); }
    } else if forall i :: 0 <= i < |u| ==> Literal(v, u[i]) && u[i] != '&' as int {
      TextBegins(v, u);
      LiteralText(v, u[1..]);
      assert u == [u[0]] + u[1..];
    }
  }

  lemma EncodeNone(v: Variant)
    ensures Encode(v, []) == []
  {
  }

  // ----- units that do not

  /** One unit between escape character and `-`: its bits on the left of three digits. */
  lemma UnitSpelt(v: Variant, ch: Unit)
    requires !Literal(v, ch)
    ensures var a := Alphabet(v);
            |a| == 64 &&
            Encode(v, [ch])
            == [(if v == UTF7 then '+' else '&') as int,
                a[ch / 1024] as int, a[ch / 16 % 64] as int, a[ch % 16 * 4] as int, '-' as int]
  {
    hide Literal, Alphabet, Digit, Encode;
    var base := EncoderSpec.EncState(Base64, 0, 0);
    LiteralExactly(v, ch);
    RestIsText(v, [ch]);
    EnterUnit(v, ch);
    UnitDigitsSpelt(v, ch);
    assert [ch][1..] == [];
    DigitSpelt(v, ch / 1024);
    DigitSpelt(v, ch / 16 % 64);
    DigitSpelt(v, ch % 16 * 4);
  }

  lemma UnitDigitsSpelt(v: Variant, ch: Unit)
    requires !DirectEncodable(v, ch)
    ensures var base := EncoderSpec.EncState(Base64, 0, 0);
            var next := EncoderSpec.EncState(Base64, ch % 16 * 4, 1);
            && EncoderSpec.UnitOut(v, base, ch) == [Digit(v, ch / 1024), Digit(v, ch / 16 % 64)]
            && EncoderSpec.UnitNext(v, base, ch) == next
            && EncoderSpec.ShiftOut(v, next, Direct) == [Digit(v, ch % 16 * 4), MINUS]
  {
    hide Digit, DirectEncodable;
  }

  /** Three digits between escape character and `-`, whatever the two bits behind the unit are. */
  lemma UnitRead(v: Variant, st: D.DecState, i: nat, j: nat, k: nat)
    requires D.Valid(st) && st.mode.Direct? && i < 64 && j < 64 && k < 64
    ensures var a := Alphabet(v);
            |a| == 64 &&
            D.Decode(v, st, [(if v == UTF7 then '+' else '&') as int, a[i] as int, a[j] as int, a[k] as int, '-' as int]).out
            == [1024 * i + 16 * j + k / 4]
  {
    hide Alphabet, Digit, D.Decode, DigitsOut;
    DigitSpelt(v, i);
    DigitSpelt(v, j);
    DigitSpelt(v, k);
    DecodeSection(v, st, [i, j, k], []);
    DecodeEmpty(v, st);
    ThreeDigits(i, j, k);
    var a := Alphabet(v);
    assert [(if v == UTF7 then '+' else '&') as int, a[i] as int, a[j] as int, a[k] as int, '-' as int]
        == [EscChar(v)] + (Chars(v, [i, j, k]) + ([MINUS] + []));
    Empty(DigitsOut(D.FRESH, [i, j, k]));
  }

  lemma ThreeDigits(i: nat, j: nat, k: nat)
    requires i < 64 && j < 64 && k < 64
    ensures DigitsOut(D.FRESH, [i, j, k]) == [1024 * i + 16 * j + k / 4]
  {
    hide DigitsOut, D.DigitNext, D.DigitOut, D.Valid;
    FirstDigits(i, j, k);
    var st := D.DigitNext(D.FRESH, i);
    var st' := D.DigitNext(st, j);
    OutCons(D.FRESH, i, [j, k]);
    OutCons(st, j, [k]);
    OutCons(st', k, []);
    NoDigits(D.DigitNext(st', k));
    assert [i] + [j, k] == [i, j, k] && [j] + [k] == [j, k] && [k] + [] == [k];
  }

  lemma FirstDigits(i: nat, j: nat, k: nat)
    requires i < 64 && j < 64 && k < 64
    ensures D.Valid(D.FRESH) && D.DigitOut(D.FRESH, i) == []
    ensures D.DigitOut(D.DigitNext(D.FRESH, i), j) == []
    ensures D.DigitOut(D.DigitNext(D.DigitNext(D.FRESH, i), j), k) == [1024 * i + 16 * j + k / 4]
  {
    var st := D.DigitNext(D.FRESH, i);
    assert st.bits == 1024 * i && st.step == 1;
    var st' := D.DigitNext(st, j);
    assert st'.bits == 1024 * i + 16 * j && st'.step == 2;
  }

  /** Bytes among which there is no escape character stand for themselves, as unsigned 16-bit numbers. */
  lemma {:induction false} BytesRead(v: Variant, st: D.DecState, s: seq<Byte>)
    requires D.Valid(st) && st.mode.Direct?
    requires forall i :: 0 <= i < |s| ==> s[i] != (if v == UTF7 then '+' else '&') as int && -0x8000 <= s[i] < 0x8000
    ensures var t := D.Decode(v, st, s);
            && t.st == st && |t.out| == |s|
            && forall i :: 0 <= i < |s| ==> t.out[i] == if s[i] < 0 then 0x10000 + s[i] else s[i]
    decreases |s|
  {
    if s != [] {
      BytesRead(v, st, s[1..]);
    }
  }
}
