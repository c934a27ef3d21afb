/** What becomes of a text when the encoder is reset on the way. */
module Resets {
  import opened Bits
  import opened Sequences
  import opened Utf7
  import opened EncoderSpec
  import opened EncoderRuns
  import opened EncoderText
  import opened EncoderFacts
  import opened FinishSession
  import opened RoundTrip
  import D = DecoderSpec
  import DecoderRuns
  import DecoderText

  // ----- what is written without the reset, and with it

  /**
    * In base64 mode, the digits due carry on from the bits kept and are followed by `-`; after a reset the same units are
    * written from scratch. In front of a direct unit or the end, exactly what a finish would have written is lost.
    */
  lemma ResetLoses(v: Variant, st: EncState, u: seq<Unit>)
    requires Valid(st)
    ensures var k := RunLength(v, u);
            && Rest(v, IDLE, u) == Encode(v, u)
            && (st.mode.Base64? ==> Rest(v, st, u) == Chars(v, DueDigits(st, u[..k])) + ([MINUS] + Encode(v, u[k..])))
            && (k == 0 ==> Rest(v, st, u) == ShiftOut(v, st, Direct) + Rest(v, IDLE, u))
    ensures ShiftOut(v, st, Direct) == [] <==> st == IDLE
  {
    hide Rest, Encode, DueDigits, Digit, DirectEncodable;
    var k := RunLength(v, u);
    RestIsText(v, u);
    RestIsText(v, u[k..]);
    if k == 0 {
      LeaveRun(v, st, u);
    }
    if st.mode.Base64? {
      RunRest(v, st, u[..k], u[k..]);
      assert u == u[..k] + u[k..];
    }
  }

  /** The units of a run written so far: whole digits, and the bits carried. */
  lemma {:induction false} FeedRun(v: Variant, st: EncState, r: seq<Unit>) returns (ds: seq<nat>)
    requires Valid(st) && st.mode.Base64? && forall i :: 0 <= i < |r| ==> !DirectEncodable(v, r[i])
    ensures (forall i :: 0 <= i < |ds| ==> ds[i] < 64) && Feed(v, st, r) == Chars(v, ds)
    ensures Carried(st) + Flat(16, r) == Flat(6, ds) + Carried(Fed(v, st, r))
    ensures r != [] ==> ds != []
    decreases |r|
  {
    hide UnitDigits, Emitted, Chars, Carried, ToBits, DirectEncodable;
    if r == [] {
      ds := [];
      Empty(Carried(st));
    } else {
      var a, st', r' := UnitDigits(st, r[0]), Emitted(st, r[0]), r[1..];
      var ds' := FeedRun(v, st', r');
      ds := a + ds';
      UnitBits(st, r[0]);
      CharsConcat(v, a, ds');
      FlatConcat(6, a, ds');
      Empty(Chars(v, a));
      Assoc(Carried(st), ToBits(16, r[0]), Flat(16, r'));
      Assoc(Flat(6, a), Carried(st'), Flat(16, r'));
      Assoc(Flat(6, a), Flat(6, ds'), Carried(Fed(v, st', r')));
    }
  }

  lemma FedDirect(v: Variant, u: seq<Unit>)
    requires u != [] ==> DirectEncodable(v, u[|u| - 1])
    ensures Fed(v, IDLE, u) == IDLE && Feed(v, IDLE, u) == Encode(v, u)
  {
    hide Feed, Fed, Encode, DirectEncodable;
    FedPhase(v, u);
    FeedIsText(v, u);
    Empty(Feed(v, IDLE, u));
  }

  lemma EnterFeed(v: Variant, u: seq<Unit>)
    requires u != [] && !DirectEncodable(v, u[0])
    ensures Feed(v, IDLE, u) == [EscChar(v)] + Feed(v, BASE, u) && Fed(v, IDLE, u) == Fed(v, BASE, u)
  {
    hide UnitOut, UnitNext, DirectEncodable;
    EnterUnit(v, u[0]);
    Assoc([EscChar(v)], UnitOut(v, BASE, u[0]), Feed(v, UnitNext(v, BASE, u[0]), u[1..]));
  }

  /** A text that has just consumed a run `a`: its section is open, the bits carried are not out. */
  lemma OpenText(v: Variant, u: seq<Unit>) returns (pre: seq<Unit>, a: seq<Unit>, ds: seq<nat>)
    requires Fed(v, IDLE, u).mode.Base64?
    ensures u == pre + a && a != [] && ds != [] && forall i :: 0 <= i < |ds| ==> ds[i] < 64
    ensures Feed(v, IDLE, u) == Encode(v, pre) + ([EscChar(v)] + Chars(v, ds))
    ensures Flat(16, a) == Flat(6, ds) + Carried(Fed(v, IDLE, u))
  {
    hide Feed, Fed, Encode, DirectEncodable, Chars, ToBits;
    FedPhase(v, u);
    var n := |u| - TrailingRun(v, u);
    pre, a := u[..n], u[n..];
    assert u == pre + a;
    FedDirect(v, pre);
    FeedConcat(v, IDLE, pre, a);
    EnterFeed(v, a);
    ds := FeedRun(v, BASE, a);
    Empty(Flat(16, a));
  }

  // ----- what an open section makes of the text that follows

  /** A text that does not begin with a byte that a section takes for its own. */
  predicate Separate(v: Variant, u: seq<Unit>) {
    u == [] || (var b := if DirectEncodable(v, u[0]) then u[0] else EscChar(v); !IsDigit(v, b) && b != MINUS)
  }

  /** A text that begins with a section whose escape character is a digit to the section before it. */
  predicate Joined(v: Variant, u: seq<Unit>) {
    v == UTF7 && u != [] && !DirectEncodable(v, u[0])
  }

  lemma SeparateDecoded(v: Variant, st: D.DecState, u: seq<Unit>)
    requires D.Valid(st) && st.mode.Base64? && !st.escaped && Separate(v, u)
    ensures D.Decode(v, st, Encode(v, u)).out == u
  {
    hide Encode, D.Decode;
    DecodeEncode(v, st.(mode := Direct, escaped := false), u);
    FirstByte(v, u);
    if u == [] {
      DecodeEmpty(v, st);
    } else {
      SameFromDirect(v, st, Encode(v, u));
    }
  }

  lemma FirstByte(v: Variant, u: seq<Unit>)
    ensures var s := Encode(v, u);
            if u == [] then s == [] else s != [] && s[0] == if DirectEncodable(v, u[0]) then u[0] else EscChar(v)
  {
  }

  lemma SameFromDirect(v: Variant, st: D.DecState, s: seq<Byte>)
    requires D.Valid(st) && st.mode.Base64? && !st.escaped
    requires s != [] && !IsDigit(v, s[0]) && s[0] != MINUS
    ensures D.Decode(v, st, s).out == D.Decode(v, st.(mode := Direct, escaped := false), s).out
  {
  }

  /** A direct unit that is taken for a digit, or for the end of the section. */
  lemma AbsorbedDecoded(v: Variant, st: D.DecState, u: seq<Unit>)
    requires D.Valid(st) && st.mode.Base64? && !st.escaped && !Separate(v, u) && !Joined(v, u)
    ensures IsDigit(v, u[0]) ==>
              var d := Value(v, u[0]);
              D.Decode(v, st, Encode(v, u)).out
              == D.DigitOut(st, d) + D.Decode(v, D.DigitNext(st, d), Encode(v, u[1..])).out
    ensures !IsDigit(v, u[0]) ==> D.Decode(v, st, Encode(v, u)).out == u[1..]
  {
    hide Encode, D.Decode, D.DigitOut, D.DigitNext;
    var s, left := Encode(v, u[1..]), st.(mode := Direct, escaped := false);
    AbsorbedText(v, u);
    DecoderRuns.DecodeCons(v, st, [u[0]], s);
    assert [u[0]][1..] == [];
    Empty(s);
    DecodeEncode(v, left, u[1..]);
    Empty(D.Decode(v, left, s).out);
  }

  lemma AbsorbedText(v: Variant, u: seq<Unit>)
    requires !Separate(v, u) && !Joined(v, u)
    ensures DirectEncodable(v, u[0]) && Encode(v, u) == [u[0]] + Encode(v, u[1..])
  {
  }

  /** The digits of a section that is taken for the continuation of the one before it, `+` being the digit 62. */
  function JoinedDigits(u: seq<Unit>): (ds: seq<nat>)
    ensures forall i :: 0 <= i < |ds| ==> ds[i] < 64
  {
    [62] + RunDigits(u[..RunLength(UTF7, u)])
  }

  lemma JoinedDecoded(st: D.DecState, u: seq<Unit>)
    requires D.Valid(st) && st.mode.Base64? && Joined(UTF7, u)
    ensures D.Decode(UTF7, st, Encode(UTF7, u)).out
         == DecoderText.DigitsOut(st, JoinedDigits(u)) + u[RunLength(UTF7, u)..]
  {
    hide D.Decode, RunDigits, DecoderText.DigitsOut, DecoderText.DigitsNext, IsDigit, RunLength, D.Valid;
    var k, ds := RunLength(UTF7, u), JoinedDigits(u);
    var e, end := Encode(UTF7, u[k..]), DecoderText.DigitsNext(st, ds);
    var left := end.(mode := Direct, escaped := false);
    JoinedText(u);
    DecoderText.DecodeDigits(UTF7, st, ds, [MINUS] + e);
    DecoderRuns.DecodeCons(UTF7, end, [MINUS], e);
    assert [MINUS][1..] == [];
    Empty(e);
    ValueDigit(UTF7, MINUS);
    DecodeEncode(UTF7, left, u[k..]);
    AfterMinus(UTF7, end);
    Empty(u[k..]);
  }

  lemma AfterMinus(v: Variant, st: D.DecState)
    requires D.Valid(st) && st.mode.Base64? && !st.escaped
    ensures D.Valid(st.(mode := Direct, escaped := false))
    ensures D.ByteOut(v, st, MINUS) == [] && D.ByteNext(v, st, MINUS) == st.(mode := Direct, escaped := false)
  {
    ValueDigit(v, MINUS);
  }

  lemma JoinedText(u: seq<Unit>)
    requires Joined(UTF7, u)
    ensures Encode(UTF7, u) == Chars(UTF7, JoinedDigits(u)) + ([MINUS] + Encode(UTF7, u[RunLength(UTF7, u)..]))
  {
    hide RunDigits;
    var k := RunLength(UTF7, u);
    var ds := RunDigits(u[..k]);
    CharsConcat(UTF7, [62], ds);
    assert Chars(UTF7, [62]) == [EscChar(UTF7)];
    Assoc([EscChar(UTF7)] + Chars(UTF7, ds), [MINUS], Encode(UTF7, u[k..]));
  }

  // ----- how many units come out

  function BitsLeft(st: D.DecState): nat {
    6 * st.step % 16
  }

  lemma DigitsCount(st: D.DecState, ds: seq<nat>)
    requires D.Valid(st) && forall i :: 0 <= i < |ds| ==> ds[i] < 64
    ensures var out, end := DecoderText.DigitsOut(st, ds), DecoderText.DigitsNext(st, ds);
            BitsLeft(st) + 6 * |ds| == 16 * |out| + BitsLeft(end) && (end.step == 0 <==> BitsLeft(end) == 0)
  {
    hide Flat, DecoderText.DigitsOut, DecoderText.DigitsNext, DecoderText.Carried;
    var out, end := DecoderText.DigitsOut(st, ds), DecoderText.DigitsNext(st, ds);
    DecoderText.DigitsKeepBits(st, ds);
    FlatLength(6, ds);
    FlatLength(16, out);
    BitsCarried(st);
    BitsCarried(end);
  }

  lemma BitsCarried(st: D.DecState)
    requires D.Valid(st)
    ensures |DecoderText.Carried(st)| == BitsLeft(st) && (st.step == 0 <==> BitsLeft(st) == 0)
  {
    hide ToBits;
  }

  lemma DigitCount(st: D.DecState, d: nat)
    requires D.Valid(st) && d < 64
    ensures BitsLeft(st) + 6 == 16 * |D.DigitOut(st, d)| + BitsLeft(D.DigitNext(st, d))
    ensures D.DigitNext(st, d).mode == st.mode && !D.DigitNext(st, d).escaped
  {
    hide D.Aligned, D.DigitBits;
    AlignedStep(st);
  }

  lemma AlignedStep(st: D.DecState)
    requires D.Valid(st)
    ensures st.step < 8
  {
  }

  /** Direct units that are taken for digits stand for too few units; only a section behind them may make up for it. */
  lemma {:induction false} AbsorbedLength(v: Variant, st: D.DecState, u: seq<Unit>)
    requires D.Valid(st) && st.mode.Base64? && !st.escaped
    ensures var n := 16 * |D.Decode(v, st, Encode(v, u)).out|;
            && n <= 16 * |u| + BitsLeft(st) + 10
            && (!Joined(v, u) ==> n <= 16 * |u| + BitsLeft(st))
            && (!Separate(v, u) && !Joined(v, u) && !Joined(v, u[1..]) && BitsLeft(st) == 0 ==> n < 16 * |u|)
    decreases |u|
  {
    hide Encode, D.Decode, D.Valid, DirectEncodable, D.DigitOut, D.DigitNext, IsDigit, Value, JoinedDigits;
    if Joined(v, u) {
      var k := RunLength(v, u);
      JoinedDecoded(st, u);
      DigitsCount(st, JoinedDigits(u));
      JoinedCount(u);
    } else if Separate(v, u) {
      SeparateDecoded(v, st, u);
    } else {
      AbsorbedDecoded(v, st, u);
      if IsDigit(v, u[0]) {
        var d := Digit6(v, u[0]);
        DigitCount(st, d);
        AbsorbedLength(v, D.DigitNext(st, d), u[1..]);
      }
    }
  }

  lemma Digit6(v: Variant, c: Byte) returns (d: nat)
    requires IsDigit(v, c)
    ensures d == Value(v, c) < 64
  {
    d := Value(v, c);
  }

  lemma JoinedCount(u: seq<Unit>)
    ensures 6 * |JoinedDigits(u)| <= 10 + 16 * RunLength(UTF7, u)
  {
    hide RunLength;
  }

  /** One direct unit between two sections would be read as a unit beyond all direct ones. */
  lemma BetweenSections(st: D.DecState, u: seq<Unit>)
    requires D.Valid(st) && st.mode.Base64? && !st.escaped && st.step == 0
    requires u != [] && DirectEncodable(UTF7, u[0]) && IsDigit(UTF7, u[0]) && Joined(UTF7, u[1..])
    ensures D.Decode(UTF7, st, Encode(UTF7, u)).out != u
  {
    hide Encode, D.Decode, DecoderText.DigitsOut, JoinedDigits, RunLength, D.Valid, DirectEncodable;
    var d := Digit6(UTF7, u[0]);
    AbsorbedDecoded(UTF7, st, u);
    DigitCount(st, d);
    JoinedDecoded(D.DigitNext(st, d), u[1..]);
    Beyond(st, d, u[1..]);
    assert u[0] < 128 by { DirectIsAscii(u[0]); }
  }

  lemma DirectIsAscii(ch: Unit)
    requires DirectEncodable(UTF7, ch)
    ensures ch < 128
  {
  }

  lemma Beyond(st: D.DecState, d: nat, u: seq<Unit>)
    requires D.Valid(st) && st.step == 0 && d < 64 && Joined(UTF7, u)
    ensures var out := DecoderText.DigitsOut(D.DigitNext(st, d), JoinedDigits(u));
            D.DigitOut(st, d) == [] && out != [] && out[0] >= 992
  {
    hide RunDigits, DirectEncodable, D.DigitNext, D.DigitOut, D.Valid, DecoderText.DigitsOut;
    var r := RunDigits(u[..RunLength(UTF7, u)]);
    var st1 := D.DigitNext(st, d);
    var st2 := D.DigitNext(st1, 62);
    assert RunLength(UTF7, u) >= 1;
    TwoDigits(st, d, r[0]);
    DecoderText.OutCons(st1, 62, r);
    assert r == [r[0]] + r[1..];
    DecoderText.OutCons(st2, r[0], r[1..]);
  }

  lemma TwoDigits(st: D.DecState, d: nat, x: nat)
    requires D.Valid(st) && st.step == 0 && d < 64 && x < 64
    ensures var st1 := D.DigitNext(st, d);
            var st2 := D.DigitNext(st1, 62);
            && D.DigitOut(st, d) == [] && D.DigitOut(st1, 62) == []
            && D.DigitOut(st2, x) == [d * 1024 + 992 + x / 4]
  {
    hide D.Aligned;
    var st1 := D.DigitNext(st, d);
    assert st1.bits == d * 1024 && st1.step == 1;
    var st2 := D.DigitNext(st1, 62);
    assert st2.bits == d * 1024 + 992 && st2.step == 2;
  }

  // ----- the exact condition

  /**
    * The section left open ends in front of the text with nothing carried; or a section that is taken for more of it
    * repeats its bits, shifted by the `+`.
    */
  predicate Harmless(v: Variant, st: EncState, u: seq<Unit>) {
    || st.mode.Direct?
    || (st.step == 0 && Separate(v, u))
    || (Joined(v, u) && (var r := Flat(16, u[..RunLength(v, u)]); Carried(st) + r <= ToBits(6, 62) + r))
  }

  /** The whole digits of a run stand for all its units, or for all but the last. */
  lemma OpenDigits(a: seq<Unit>, ds: seq<nat>, c: seq<bool>)
    requires a != [] && (forall i :: 0 <= i < |ds| ==> ds[i] < 64) && Flat(16, a) == Flat(6, ds) + c && |c| <= 4
    ensures var out, end := DecoderText.DigitsOut(D.FRESH, ds), DecoderText.DigitsNext(D.FRESH, ds);
            && (c == [] ==> out == a && end.step == 0)
            && (c != [] ==> |out| == |a| - 1 && BitsLeft(end) > 0)
            && BitsLeft(end) < 16
  {
    hide Flat, DecoderText.DigitsOut, DecoderText.DigitsNext;
    DigitsCount(D.FRESH, ds);
    FlatLength(6, ds);
    FlatLength(16, a);
    if c == [] {
      Empty(Flat(6, ds));
      Empty(Flat(16, a));
      DigitsOfBits(ds, a, []);
    }
  }

  lemma JoinedExactly(a: seq<Unit>, ds: seq<nat>, c: seq<bool>, u: seq<Unit>)
    requires (forall i :: 0 <= i < |ds| ==> ds[i] < 64) && Flat(16, a) == Flat(6, ds) + c && |c| <= 4
    ensures var r := u[..RunLength(UTF7, u)];
            var out := DecoderText.DigitsOut(D.FRESH, ds + JoinedDigits(u));
            out == a + r <==> c + Flat(16, r) <= ToBits(6, 62) + Flat(16, r)
  {
    hide Flat, DecoderText.DigitsOut, DecoderText.DigitsNext, ToBits, Zeros, RunLength, Sextets;
    var r := u[..RunLength(UTF7, u)];
    var fr, all := Flat(16, r), ds + JoinedDigits(u);
    var out, z := DecoderText.DigitsOut(D.FRESH, all), Zeros(Pad(|fr|));
    SextetsFlat(fr);
    FlatCons(6, 62, RunDigits(r));
    FlatConcat(6, ds, JoinedDigits(u));
    DecoderText.DigitsRefine(all);
    FlatLength(16, a);
    FlatLength(16, r);
    FlatConcat(16, a, r);
    PadOfRun(|r|);
    DecoderText.Remainder(|all|, |a| + |r|, 6 - |c| + |z|);
    SameUnits(out, a + r);
    Overlap(Flat(6, ds), c, fr, ToBits(6, 62), z);
  }

  lemma Overlap<T>(d: seq<T>, c: seq<T>, r: seq<T>, x: seq<T>, z: seq<T>)
    requires |c| <= |x|
    ensures (d + (x + (r + z)))[..|d| + |c| + |r|] == (d + c) + r <==> c + r <= x + r
  {
    var n := |c| + |r|;
    assert (d + (x + (r + z)))[..|d| + |c| + |r|] == d + (x + r)[..n];
    Assoc(d, c, r);
    Prepend(d, (x + r)[..n], c + r);
  }

  lemma OpenDecoded(v: Variant, pre: seq<Unit>, ds: seq<nat>, u: seq<Unit>, st: D.DecState)
    requires ds != [] && (forall i :: 0 <= i < |ds| ==> ds[i] < 64) && D.Valid(st) && st.mode.Direct?
    ensures var end := DecoderText.DigitsNext(D.FRESH, ds);
            D.Decode(v, st, (Encode(v, pre) + ([EscChar(v)] + Chars(v, ds))) + Encode(v, u)).out
            == pre + (DecoderText.DigitsOut(D.FRESH, ds) + D.Decode(v, end, Encode(v, u)).out)
  {
    hide Encode, Chars, D.Decode, DecoderText.DigitsOut, DecoderText.DigitsNext;
    var p, esc, c, s := Encode(v, pre), [EscChar(v)], Chars(v, ds), Encode(v, u);
    DecodeEncode(v, st, pre);
    Assoc(p, esc + c, s);
    Assoc(esc, c, s);
    DecoderRuns.DecodeSplits(v, st, p, esc + (c + s));
    DecoderRuns.DecodeCons(v, st, esc, c + s);
    assert esc[1..] == [];
    Empty(c + s);
    DecoderText.DecodeDigits(v, D.FRESH, ds, s);
    Empty(D.Decode(v, D.FRESH, c + s).out);
  }

  lemma {:induction false} DigitsOutConcat(st: D.DecState, a: seq<nat>, b: seq<nat>)
    requires D.Valid(st) && (forall i :: 0 <= i < |a| ==> a[i] < 64) && (forall i :: 0 <= i < |b| ==> b[i] < 64)
    ensures DecoderText.DigitsOut(st, a + b)
         == DecoderText.DigitsOut(st, a) + DecoderText.DigitsOut(DecoderText.DigitsNext(st, a), b)
    decreases |a|
  {
    hide D.DigitOut, D.DigitNext;
    if a == [] {
      Empty(b);
      Empty(DecoderText.DigitsOut(st, b));
    } else {
      var st' := D.DigitNext(st, a[0]);
      assert (a + b)[1..] == a[1..] + b;
      DigitsOutConcat(st', a[1..], b);
      Assoc(D.DigitOut(st, a[0]), DecoderText.DigitsOut(st', a[1..]),
            DecoderText.DigitsOut(DecoderText.DigitsNext(st', a[1..]), b));
    }
  }

  /** A run whose section is open, and the text behind it. */
  lemma OpenExactly(v: Variant, a: seq<Unit>, ds: seq<nat>, st: EncState, u: seq<Unit>)
    requires a != [] && ds != [] && (forall i :: 0 <= i < |ds| ==> ds[i] < 64)
    requires Valid(st) && st.mode.Base64? && Flat(16, a) == Flat(6, ds) + Carried(st)
    ensures var end := DecoderText.DigitsNext(D.FRESH, ds);
            DecoderText.DigitsOut(D.FRESH, ds) + D.Decode(v, end, Encode(v, u)).out == a + u <==> Harmless(v, st, u)
  {
    hide Encode, D.Decode, DecoderText.DigitsOut, DecoderText.DigitsNext, Carried, Flat, ToBits, JoinedDigits;
    hide DirectEncodable, IsDigit, RunLength;
    var end := DecoderText.DigitsNext(D.FRESH, ds);
    var out, more := DecoderText.DigitsOut(D.FRESH, ds), D.Decode(v, end, Encode(v, u)).out;
    CarriedAtMost(st);
    OpenDigits(a, ds, Carried(st));
    if Joined(v, u) {
      OpenJoined(a, ds, st, u);
    } else if Separate(v, u) {
      SeparateDecoded(v, end, u);
      Append(out, a, u);
    } else {
      AbsorbedLength(v, end, u);
      if st.step == 0 {
        Prepend(a, more, u);
        AbsorbedChanges(v, end, u);
      }
    }
  }

  lemma FreshIsValid()
    ensures D.Valid(D.FRESH)
  {
  }

  lemma OpenJoined(a: seq<Unit>, ds: seq<nat>, st: EncState, u: seq<Unit>)
    requires a != [] && ds != [] && (forall i :: 0 <= i < |ds| ==> ds[i] < 64) && Joined(UTF7, u)
    requires Valid(st) && st.mode.Base64? && Flat(16, a) == Flat(6, ds) + Carried(st)
    ensures var end := DecoderText.DigitsNext(D.FRESH, ds);
            var out := DecoderText.DigitsOut(D.FRESH, ds) + D.Decode(UTF7, end, Encode(UTF7, u)).out;
            out == a + u <==> Harmless(UTF7, st, u)
  {
    hide Encode, D.Decode, DecoderText.DigitsOut, DecoderText.DigitsNext, Carried, Flat, ToBits, JoinedDigits;
    hide Joined, Separate, RunLength, D.Valid;
    FreshIsValid();
    var end, k := DecoderText.DigitsNext(D.FRESH, ds), RunLength(UTF7, u);
    var out, js := DecoderText.DigitsOut(D.FRESH, ds), DecoderText.DigitsOut(end, JoinedDigits(u));
    CarriedAtMost(st);
    JoinedDecoded(end, u);
    DigitsOutConcat(D.FRESH, ds, JoinedDigits(u));
    JoinedExactly(a, ds, Carried(st), u);
    JoinedIsNotSeparate(u);
    assert u == u[..k] + u[k..];
    Assoc(out, js, u[k..]);
    Assoc(a, u[..k], u[k..]);
    Append(out + js, a + u[..k], u[k..]);
  }

  lemma AbsorbedChanges(v: Variant, st: D.DecState, u: seq<Unit>)
    requires D.Valid(st) && st.mode.Base64? && !st.escaped && st.step == 0 && !Separate(v, u) && !Joined(v, u)
    ensures D.Decode(v, st, Encode(v, u)).out != u
  {
    hide Encode, D.Decode;
    AbsorbedLength(v, st, u);
    AbsorbedDecoded(v, st, u);
    if Joined(v, u[1..]) && IsDigit(v, u[0]) {
      BetweenSections(st, u);
    }
  }

  lemma JoinedIsNotSeparate(u: seq<Unit>)
    requires Joined(UTF7, u)
    ensures !Separate(UTF7, u)
  {
  }

  lemma CarriedAtMost(st: EncState)
    requires Valid(st)
    ensures |Carried(st)| <= 4 && (Carried(st) == [] <==> st.step == 0)
  {
  }

  /** A reset behind the units of a text, written so far as they are due, and any other text. */
  lemma ResetText(v: Variant, open: seq<Unit>, u: seq<Unit>, st: D.DecState)
    requires D.Valid(st) && st.mode.Direct?
    ensures D.Decode(v, st, Feed(v, IDLE, open) + Encode(v, u)).out == open + u <==> Harmless(v, Fed(v, IDLE, open), u)
  {
    hide Encode, D.Decode, Feed, Fed, Chars, Carried, Flat, Joined, Separate;
    var out, from := Feed(v, IDLE, open), Fed(v, IDLE, open);
    if from.mode.Direct? {
      FeedIsText(v, open);
      Empty(out);
      DecodeEncode(v, st, open);
      DecodeEncode(v, st, u);
      DecoderRuns.DecodeSplits(v, st, out, Encode(v, u));
    } else {
      var pre, a, ds := OpenText(v, open);
      OpenDecoded(v, pre, ds, u, st);
      OpenExactly(v, a, ds, from, u);
      var end := DecoderText.DigitsNext(D.FRESH, ds);
      Assoc(pre, a, u);
      Prepend(pre, DecoderText.DigitsOut(D.FRESH, ds) + D.Decode(v, end, Encode(v, u)).out, a + u);
    }
  }

  /** When all input is consumed and no finish half done, a reset keeps the text if and only if it is harmless. */
  lemma ResetExactly(v: Variant, es: seq<Event>, u: seq<Unit>, st: D.DecState)
    requires AllLegal(v, START, es) && D.Valid(st) && st.mode.Direct?
    requires Play(v, START, es).pending == [] && !Play(v, START, es).half
    ensures var s := Play(v, START, es);
            var out := D.Decode(v, st, s.out + Rest(v, IDLE, u)).out;
            out == (Flatten(s.texts) + s.open) + u <==> Harmless(v, s.st, u)
  {
    hide Encode, Encoded, Rest, Flatten, D.Decode, Feed, Fed, Harmless, AllLegal, Play, Units, Sound;
    StartSound(v);
    PlayKeeps(v, START, es);
    var s := Play(v, START, es);
    var t, f, e := Encoded(v, s.texts), Feed(v, IDLE, s.open), Encode(v, u);
    Settled(v, s);
    RestIsText(v, u);
    Assoc(t, f, e);
    DecodeEncoded(v, st, s.texts);
    DecoderRuns.DecodeSplits(v, st, t, f + e);
    ResetText(v, s.open, u, st);
    Assoc(Flatten(s.texts), s.open, u);
    Prepend(Flatten(s.texts), D.Decode(v, st, f + e).out, s.open + u);
  }

  lemma Settled(v: Variant, s: Session)
    requires Sound(v, s) && s.pending == [] && !s.half
    ensures s.out == Encoded(v, s.texts) + Feed(v, IDLE, s.open) && s.st == Fed(v, IDLE, s.open)
  {
    hide Encoded, Feed, Fed, Digit;
    var o: seq<Byte> :| Written(v, s, o);
    Empty(Feed(v, IDLE, s.open));
  }

  /** After three units, with nothing carried, one more is read as it is in MUTF-7 and as another one in UTF-7. */
  lemma ResetAfterThree(v: Variant, st: D.DecState)
    requires D.Valid(st) && st.mode.Direct?
    ensures var c := Convert(v, IDLE, [0x80, 0x80, 0x80], 10);
            && c.status == Ok && c.st.step == 0
            && (D.Decode(v, st, c.out + Rest(v, IDLE, [0x80])).out == [0x80, 0x80, 0x80] + [0x80] <==> v == MUTF7)
  {
    hide Convert, Rest, Encode, Feed, Fed, D.Decode, Harmless, TrailingRun;
    Empty(Feed(v, IDLE, [0x80, 0x80, 0x80]));
    var u: seq<Unit> := [0x80, 0x80, 0x80];
    var x: seq<Unit> := [0x80];
    ThreeUnits(v);
    RestIsText(v, u);
    EnoughRoom(v, IDLE, u, 10);
    var c := Convert(v, IDLE, u, 10);
    var _ := CallUnderwayAfter(v, IDLE, u, 10);
    assert u[..c.used] == u;
    FedPhase(v, u);
    RestIsText(v, x);
    ResetText(v, u, x, st);
    OneMore(v, c.st);
  }

  lemma ThreeUnits(v: Variant)
    ensures |Encode(v, [0x80, 0x80, 0x80])| == 10 && TrailingRun(v, [0x80, 0x80, 0x80]) == 3
  {
    hide Section;
    var u: seq<Unit> := [0x80, 0x80, 0x80];
    assert !DirectEncodable(v, 0x80);
    assert RunLength(v, u) == 3;
    assert u[..3] == u && u[3..] == [];
    SectionLength(v, u);
    assert TrailingRun(v, u) == 3;
  }

  lemma OneMore(v: Variant, st: EncState)
    requires Valid(st) && st.mode.Base64? && st.step == 0
    ensures Harmless(v, st, [0x80]) <==> v == MUTF7
  {
    hide ToBits;
    var x: seq<Unit> := [0x80];
    assert x[1..] == [] && !DirectEncodable(v, 0x80);
    assert RunLength(v, x) == 1 && x[..1] == x;
    DecoderText.FlatOne(16, 0x80);
    FirstBits();
    Empty(Flat(16, x));
    var r, s := Flat(16, x), ToBits(6, 62) + Flat(16, x);
    assert r[0] != s[0];
    assert Carried(st) + r == r;
    if v == UTF7 {
      JoinedIsNotSeparate(x);
    }
    assert !IsDigit(MUTF7, EscChar(MUTF7)) && EscChar(MUTF7) != MINUS;
    assert v == UTF7 ==> Joined(v, x) && !(Carried(st) + r <= s);
  }

  lemma FirstBits()
    ensures !ToBits(16, 0x80)[0] && ToBits(6, 62)[0]
  {
    Powers();
    JoinBits(1, 15, 0, 0x80);
    JoinBits(1, 5, 1, 30);
    assert Pow2(15) == 32768 && Pow2(5) == 32;
    assert ToBits(1, 0) == [false] && ToBits(1, 1) == [true];
  }
}
