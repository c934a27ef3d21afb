/** The strings the encoder writes, described without the encoder; on them it undoes the decoder. */
module Canonical {
  import opened Sequences
  import opened Bits
  import opened Utf7
  import opened EncoderText
  import opened EncoderFacts
  import opened DecoderSpec
  import opened DecoderText
  import opened RoundTrip

  // ----- the strings

  function DigitSpan(v: Variant, s: seq<Byte>): (n: nat)
    ensures n <= |s| && forall i :: 0 <= i < n ==> IsDigit(v, s[i])
    ensures n < |s| ==> !IsDigit(v, s[n])
  {
    if s == [] || !IsDigit(v, s[0]) then 0 else 1 + DigitSpan(v, s[1..])
  }

  /** The bits of `ds` are those of the units of `r`, none of them direct, and fewer than six zeros. */
  ghost predicate IsRunOf(v: Variant, ds: seq<nat>, r: seq<Unit>) {
    && r != [] && (forall i :: 0 <= i < |r| ==> !DirectEncodable(v, r[i]))
    && exists pad: nat :: pad < 6 && Flat(6, ds) == Flat(16, r) + Zeros(pad)
  }

  ghost predicate HasRun(v: Variant, ds: seq<nat>) {
    exists r :: IsRunOf(v, ds, r)
  }

  predicate StartsPair(v: Variant, s: seq<Byte>) {
    |s| >= 2 && s[0] == EscChar(v) && s[1] == MINUS
  }

  predicate StartsSection(v: Variant, s: seq<Byte>) {
    s != [] && s[0] == EscChar(v) && !StartsPair(v, s)
  }

  /** Direct bytes, escape pairs for a direct escape character, and closed sections, no two in a row. */
  ghost predicate Canonical(v: Variant, s: seq<Byte>)
    decreases |s|
  {
    if s == [] then true
    else if s[0] != EscChar(v) then 0 <= s[0] < 128 && DirectEncodable(v, s[0]) && Canonical(v, s[1..])
    else if StartsPair(v, s) then DirectEncodable(v, EscChar(v)) && Canonical(v, s[2..])
    else
      var n := DigitSpan(v, s[1..]);
      && n + 1 < |s| && s[n + 1] == MINUS && HasRun(v, Values(v, s[1..][..n]))
      && !StartsSection(v, s[n + 2..]) && Canonical(v, s[n + 2..])
  }

  // ----- the encoder writes nothing else

  lemma {:induction false} SpanOfChars(v: Variant, ds: seq<nat>, rest: seq<Byte>)
    requires forall i :: 0 <= i < |ds| ==> ds[i] < 64
    ensures DigitSpan(v, Chars(v, ds) + ([MINUS] + rest)) == |ds|
  {
    hide Value, Digit;
    var s := Chars(v, ds) + ([MINUS] + rest);
    ValueDigit(v, MINUS);
    if ds != [] {
      DigitValue(v, ds[0]);
      assert s[1..] == Chars(v, ds[1..]) + ([MINUS] + rest);
      SpanOfChars(v, ds[1..], rest);
    }
  }

  /** A run, its closing `-` and a canonical text that does not begin with a section are canonical. */
  lemma SectionCanonical(v: Variant, r: seq<Unit>, rest: seq<Byte>)
    requires r != [] && forall i :: 0 <= i < |r| ==> !DirectEncodable(v, r[i])
    requires Canonical(v, rest) && !StartsSection(v, rest)
    ensures Canonical(v, Section(v, r) + rest)
  {
    hide DirectEncodable, RunDigits, Digit, IsDigit, Flat, StartsSection;
    var ds := RunDigits(r);
    var s := Section(v, r) + rest;
    var tail := Chars(v, ds) + ([MINUS] + rest);
    assert s[1..] == tail && s[0] == EscChar(v);
    SpanOfChars(v, ds, rest);
    DigitValue(v, ds[0]);
    assert s[1] == Digit(v, ds[0]) != MINUS;
    ValuesOfChars(v, ds);
    assert s[1..][..|ds|] == Chars(v, ds) && s[|ds| + 1] == MINUS && s[|ds| + 2..] == rest;
    RunDigitsOf(v, r);
  }

  lemma RunDigitsOf(v: Variant, r: seq<Unit>)
    requires r != [] && forall i :: 0 <= i < |r| ==> !DirectEncodable(v, r[i])
    ensures HasRun(v, RunDigits(r))
  {
    hide DirectEncodable, Flat, Sextets;
    SextetsFlat(Flat(16, r));
    assert IsRunOf(v, RunDigits(r), r);
  }

  lemma {:induction false} EncodeCanonical(v: Variant, u: seq<Unit>)
    ensures Canonical(v, Encode(v, u))
    ensures u == [] || DirectEncodable(v, u[0]) ==> !StartsSection(v, Encode(v, u))
    decreases |u|
  {
    hide Section;
    if u == [] {
    } else if DirectEncodable(v, u[0]) {
      var rest := Encode(v, u[1..]);
      EncodeCanonical(v, u[1..]);
      var s := DirectText(v, u[0]) + rest;
      if u[0] == EscChar(v) {
        assert s[2..] == rest;
      } else {
        assert s[1..] == rest;
      }
    } else {
      var k := RunLength(v, u);
      EncodeCanonical(v, u[k..]);
      SectionCanonical(v, u[..k], Encode(v, u[k..]));
    }
  }

  // ----- and on them encoding undoes decoding

  lemma {:induction false} RunOnly(v: Variant, r: seq<Unit>)
    requires forall i :: 0 <= i < |r| ==> !DirectEncodable(v, r[i])
    ensures RunLength(v, r) == |r|
  {
    hide DirectEncodable;
    if r != [] {
      RunOnly(v, r[1..]);
    }
  }

  /** A run before a text that does not begin with one is encoded as its section. */
  lemma EncodeRun(v: Variant, r: seq<Unit>, u: seq<Unit>)
    requires r != [] && forall i :: 0 <= i < |r| ==> !DirectEncodable(v, r[i])
    requires u == [] || DirectEncodable(v, u[0])
    ensures Encode(v, r + u) == Section(v, r) + Encode(v, u)
  {
    hide DirectEncodable, Section, RunLength;
    RunOnly(v, r);
    RunLengthConcat(v, r, u);
    assert (r + u)[..|r|] == r && (r + u)[|r|..] == u && (r + u)[0] == r[0];
  }

  lemma SectionOfRun(v: Variant, s: seq<Byte>, ds: seq<nat>, r: seq<Unit>)
    requires (forall i :: 0 <= i < |s| ==> IsDigit(v, s[i])) && ds == Values(v, s) && IsRunOf(v, ds, r)
    ensures Section(v, r) == [EscChar(v)] + s + [MINUS] && RunDigits(r) == ds
  {
    hide Flat, Sextets, DirectEncodable, IsDigit;
    var pad: nat :| pad < 6 && Flat(6, ds) == Flat(16, r) + Zeros(pad);
    SextetsUnique(ds, Flat(16, r), pad);
    CharsOfValues(v, s);
  }

  lemma {:induction false} EncodeDecode(v: Variant, st: DecState, s: seq<Byte>) returns (u: seq<Unit>)
    requires Valid(st) && st.mode.Direct? && Canonical(v, s)
    ensures Decode(v, st, s).out == u && Decode(v, st, s).st.mode.Direct? && Encode(v, u) == s
    ensures !StartsSection(v, s) ==> u == [] || DirectEncodable(v, u[0])
    decreases |s|
  {
    hide Decode, Encode, DirectEncodable, IsDigit, HasRun, Section, Values, DirectText;
    if s == [] {
      DecodeEmpty(v, st);
      EncodeEmpty(v);
      u := [];
    } else if s[0] != EscChar(v) || StartsPair(v, s) {
      var rest := s[if s[0] != EscChar(v) then 1 else 2..];
      var u' := EncodeDecode(v, st, rest);
      u := DecodeCanonicalDirect(v, st, s[0], rest, u');
      DirectTextFirst(v, s);
    } else {
      var n := DigitSpan(v, s[1..]);
      var span, rest := s[1..][..n], s[n + 2..];
      var u' := EncodeDecode(v, st, rest);
      u := DecodeCanonicalSection(v, st, span, rest, u');
      SectionFirst(s, n);
    }
  }

  lemma EncodeEmpty(v: Variant)
    ensures Encode(v, []) == []
  {
  }

  lemma DirectTextFirst(v: Variant, s: seq<Byte>)
    requires s != [] && 0 <= s[0] < 128 && (s[0] != EscChar(v) || StartsPair(v, s))
    ensures s == DirectText(v, s[0]) + s[if s[0] != EscChar(v) then 1 else 2..]
  {
  }

  lemma SectionFirst(s: seq<Byte>, n: nat)
    requires n + 1 < |s| && s[n + 1] == MINUS
    ensures s == [s[0]] + (s[1..][..n] + ([MINUS] + s[n + 2..]))
  {
  }

  lemma DecodeCanonicalDirect(v: Variant, st: DecState, ch: Unit, rest: seq<Byte>, u': seq<Unit>) returns (u: seq<Unit>)
    requires Valid(st) && st.mode.Direct? && DirectEncodable(v, ch)
    requires Decode(v, st, rest).out == u' && Decode(v, st, rest).st.mode.Direct? && Encode(v, u') == rest
    ensures var s := DirectText(v, ch) + rest;
            Decode(v, st, s).out == u && Decode(v, st, s).st.mode.Direct? && Encode(v, u) == s
    ensures u != [] && u[0] == ch
  {
    hide Decode, DirectEncodable, DirectText;
    u := [ch] + u';
    assert u[1..] == u';
    DecodeDirectText(v, st, ch, rest);
  }

  lemma DecodeCanonicalSection(v: Variant, st: DecState, span: seq<Byte>, rest: seq<Byte>, u': seq<Unit>)
    returns (u: seq<Unit>)
    requires Valid(st) && st.mode.Direct? && forall i :: 0 <= i < |span| ==> IsDigit(v, span[i])
    requires HasRun(v, Values(v, span)) && (u' == [] || DirectEncodable(v, u'[0]))
    requires Decode(v, st, rest).out == u' && Decode(v, st, rest).st.mode.Direct? && Encode(v, u') == rest
    ensures var s := [EscChar(v)] + (span + ([MINUS] + rest));
            Decode(v, st, s).out == u && Decode(v, st, s).st.mode.Direct? && Encode(v, u) == s
  {
    hide Decode, DirectEncodable, IsDigit, IsRunOf, Section, RunDigits, Encode;
    var ds := Values(v, span);
    var r :| IsRunOf(v, ds, r);
    RunFacts(v, ds, r);
    SectionOfRun(v, span, ds, r);
    CharsOfValues(v, span);
    DigitsOfRun(r);
    DecodeSection(v, st, ds, rest);
    u := r + u';
    EncodeRun(v, r, u');
    Assoc4([EscChar(v)], span, [MINUS], rest);
  }

  lemma RunFacts(v: Variant, ds: seq<nat>, r: seq<Unit>)
    requires IsRunOf(v, ds, r)
    ensures r != [] && ds != [] && forall i :: 0 <= i < |r| ==> !DirectEncodable(v, r[i])
  {
    hide DirectEncodable;
    FlatLength(16, r);
    FlatLength(6, ds);
  }

  ghost predicate Reencodes(v: Variant, s: seq<Byte>) {
    var u := Decode(v, DecState(Direct, 0, 0, false), s).out;
    (forall i :: 0 <= i < |u| ==> 0 <= u[i] < 0x10000) && Encode(v, u) == s
  }

  /** The canonical strings are the encoder's image, and the strings that re-encoding their meaning restores. */
  lemma CanonicalExactly(v: Variant, s: seq<Byte>)
    ensures Canonical(v, s) <==> exists u: seq<Unit> :: Encode(v, u) == s
    ensures Canonical(v, s) <==> Reencodes(v, s)
  {
    hide Canonical, Encode, Decode;
    if Canonical(v, s) {
      var u := EncodeDecode(v, DecState(Direct, 0, 0, false), s);
    }
    if u: seq<Unit> :| Encode(v, u) == s {
      EncodeCanonical(v, u);
    }
    if Reencodes(v, s) {
      var u: seq<Unit> := Decode(v, DecState(Direct, 0, 0, false), s).out;
      EncodeCanonical(v, u);
    }
  }
}
