/** The 8-phase machine regroups bits: what the digits of a section stand for. */
module DecoderText {
  import opened Sequences
  import opened Bits
  import opened Utf7
  import opened DecoderSpec
  import opened DecoderRuns

  /** The bits a state carries, without the zeros that align them. */
  function Carried(st: DecState): (b: seq<bool>)
    requires Valid(st)
    ensures |b| < 16
  {
    match st.step
    case 0 => []
    case 1 => ToBits(6, st.bits / 1024)
    case 2 => ToBits(12, st.bits / 16)
    case 3 => ToBits(2, st.bits / 16384)
    case 4 => ToBits(8, st.bits / 256)
    case 5 => ToBits(14, st.bits / 4)
    case 6 => ToBits(4, st.bits / 4096)
    case _ => ToBits(10, st.bits / 64)
  }

  // ----- one digit

  lemma Grow(n: nat, q: nat, d: nat)
    requires d < 64
    ensures ToBits(n, q) + ToBits(6, d) == ToBits(n + 6, 64 * q + d)
  {
    hide ToBits;
    assert Pow2(6) == 64;
    JoinBits(n, 6, q, d);
  }

  /** The `k` high bits of a digit complete a unit, the others are carried over. */
  lemma Complete(n: nat, k: nat, q: nat, d: nat, h: nat, l: nat, pk: nat, pl: nat)
    requires n + k == 16 && k <= 6 && pk == Pow2(k) && pl == Pow2(6 - k)
    requires d == h * pl + l && h < pk && l < pl
    ensures ToBits(n, q) + ToBits(6, d) == ToBits(16, q * pk + h) + ToBits(6 - k, l)
  {
    hide *;
    SplitBits(k, 6 - k, d, pl, h, l);
    SplitBits(n, k, q * pk + h, pk, q, h);
    Assoc(ToBits(n, q), ToBits(k, h), ToBits(6 - k, l));
  }

  lemma FlatOne(w: nat, a: nat)
    ensures Flat(w, [a]) == ToBits(w, a)
  {
    FlatCons(w, a, []);
    Empty(ToBits(w, a));
    Empty([a]);
  }

  lemma GrowCarried(bits: nat, d: nat, n: nat, p: nat, m: nat)
    requires d < 64 && p == 64 * m && p in {1024, 16384, 256, 4096} && bits % p == 0 && bits < 0x10000
    ensures ToBits(n + 6, (bits + d * m) / m) == ToBits(n, bits / p) + ToBits(6, d)
  {
    hide ToBits;
    Below(bits, p, bits / p, m, d);
    Grow(n, bits / p, d);
  }

  lemma Lone1024(d: nat)
    ensures d * 1024 / 1024 == d
  {
  }

  lemma AlignedAt(st: DecState)
    requires Valid(st)
    ensures st.bits < 0x10000 && st.step < 8
    ensures st.step == 2 ==> st.bits == 16 * (st.bits / 16)
    ensures st.step == 5 ==> st.bits == 4 * (st.bits / 4)
    ensures st.step == 7 ==> st.bits == 64 * (st.bits / 64)
    ensures st.step == 1 ==> st.bits % 1024 == 0
    ensures st.step == 3 ==> st.bits % 16384 == 0
    ensures st.step == 4 ==> st.bits % 256 == 0
    ensures st.step == 6 ==> st.bits % 4096 == 0
  {
  }

  /** Digits that complete no unit are appended to the carried bits. */
  lemma GrowingDigit(st: DecState, d: nat)
    requires Valid(st) && d < 64 && !Completes(st.step)
    ensures Carried(DigitNext(st, d)) == Carried(st) + ToBits(6, d)
  {
    hide ToBits, Aligned, Valid;
    AlignedAt(st);
    match st.step
    case 0 => Empty(ToBits(6, d)); Lone1024(d);
    case 1 => GrowCarried(st.bits, d, 6, 1024, 16);
    case 3 => GrowCarried(st.bits, d, 2, 16384, 256);
    case 4 => GrowCarried(st.bits, d, 8, 256, 4);
    case 6 => GrowCarried(st.bits, d, 4, 4096, 64);
    case _ =>
  }

  /** The part of a digit that goes into the unit it completes. */
  function HighPart(step: nat, d: nat): nat {
    if step == 2 then d / 4 else if step == 5 then d / 16 else d
  }

  /** The unit a digit completes has 16 bits: the cast to `char16_t` changes nothing. */
  lemma UnitExact(st: DecState, d: nat)
    requires Valid(st) && d < 64 && Completes(st.step)
    ensures st.bits + HighPart(st.step, d) < 0x10000
    ensures DigitOut(st, d) == [st.bits + HighPart(st.step, d)]
  {
    if st.step == 2 {
      TopOff(st.bits / 16, 16, d / 4);
    } else if st.step == 5 {
      TopOff(st.bits / 4, 4, d / 16);
    } else {
      TopOff(st.bits / 64, 64, d);
    }
  }

  lemma TopOff(q: nat, m: nat, low: nat)
    requires m in {4, 16, 64} && m * q < 0x10000 && low < m
    ensures m * q + low < 0x10000
  {
  }

  lemma CompletingDigit(st: DecState, d: nat)
    requires Valid(st) && d < 64 && Completes(st.step)
    ensures Carried(st) + ToBits(6, d) == Flat(16, DigitOut(st, d)) + Carried(DigitNext(st, d))
  {
    hide ToBits, Aligned, Flat;
    Powers();
    AlignedAt(st);
    UnitExact(st, d);
    if st.step == 2 {
      Complete(12, 4, st.bits / 16, d, d / 4, d % 4, 16, 4);
      FlatOne(16, 16 * (st.bits / 16) + d / 4);
    } else if st.step == 5 {
      Complete(14, 2, st.bits / 4, d, d / 16, d % 16, 4, 16);
      FlatOne(16, 4 * (st.bits / 4) + d / 16);
    } else {
      assert Pow2(0) == 1;
      Complete(10, 6, st.bits / 64, d, d, 0, 64, 1);
      FlatOne(16, 64 * (st.bits / 64) + d);
      assert |ToBits(0, 0)| == 0;
    }
  }

  /** No bit of a digit is lost, repeated or moved: carried bits and digit become units and carried bits. */
  lemma DigitKeepsBits(st: DecState, d: nat)
    requires Valid(st) && d < 64
    ensures Carried(st) + ToBits(6, d) == Flat(16, DigitOut(st, d)) + Carried(DigitNext(st, d))
  {
    hide ToBits, Carried, DigitNext;
    if Completes(st.step) {
      CompletingDigit(st, d);
    } else {
      GrowingDigit(st, d);
      Empty(Carried(st) + ToBits(6, d));
    }
  }

  // ----- all the digits of a section

  function DigitsOut(st: DecState, ds: seq<nat>): (out: seq<nat>)
    requires Valid(st) && forall i :: 0 <= i < |ds| ==> ds[i] < 64
    ensures forall i :: 0 <= i < |out| ==> out[i] < 0x10000
    decreases |ds|
  {
    if ds == [] then [] else DigitOut(st, ds[0]) + DigitsOut(DigitNext(st, ds[0]), ds[1..])
  }

  function DigitsNext(st: DecState, ds: seq<nat>): (st': DecState)
    requires Valid(st) && forall i :: 0 <= i < |ds| ==> ds[i] < 64
    ensures Valid(st') && st'.mode == st.mode
    ensures ds != [] ==> !st'.escaped
    decreases |ds|
  {
    if ds == [] then st else DigitsNext(DigitNext(st, ds[0]), ds[1..])
  }

  lemma OutCons(st: DecState, d: nat, ds: seq<nat>)
    requires Valid(st) && d < 64 && forall i :: 0 <= i < |ds| ==> ds[i] < 64
    ensures DigitsOut(st, [d] + ds) == DigitOut(st, d) + DigitsOut(DigitNext(st, d), ds)
  {
    assert ([d] + ds)[1..] == ds;
  }

  lemma NoDigits(st: DecState)
    requires Valid(st)
    ensures DigitsOut(st, []) == []
  {
  }

  lemma {:induction false} DigitsKeepBits(st: DecState, ds: seq<nat>)
    requires Valid(st) && forall i :: 0 <= i < |ds| ==> ds[i] < 64
    ensures Carried(st) + Flat(6, ds) == Flat(16, DigitsOut(st, ds)) + Carried(DigitsNext(st, ds))
    decreases |ds|
  {
    hide Carried, ToBits, DigitOut, DigitNext;
    if ds == [] {
      Empty(Carried(st));
    } else {
      var d, ds', st' := ds[0], ds[1..], DigitNext(st, ds[0]);
      var o, os := DigitOut(st, d), DigitsOut(st', ds');
      DigitKeepsBits(st, d);
      DigitsKeepBits(st', ds');
      Assoc(Carried(st), ToBits(6, d), Flat(6, ds'));
      Assoc(Flat(16, o), Carried(st'), Flat(6, ds'));
      Assoc(Flat(16, o), Flat(16, os), Carried(DigitsNext(st', ds')));
      FlatConcat(16, o, os);
    }
  }

  lemma LeftAligned(st: DecState)
    requires Valid(st)
    ensures ToBits(16, st.bits) == Carried(st) + Zeros(16 - |Carried(st)|)
  {
    hide ToBits;
    Powers();
    match st.step
    case 0 => ZeroBits(16); Empty(Zeros(16));
    case 1 => SplitBits(6, 10, st.bits, 1024, st.bits / 1024, 0); ZeroBits(10);
    case 2 => SplitBits(12, 4, st.bits, 16, st.bits / 16, 0); ZeroBits(4);
    case 3 => SplitBits(2, 14, st.bits, 16384, st.bits / 16384, 0); ZeroBits(14);
    case 4 => SplitBits(8, 8, st.bits, 256, st.bits / 256, 0); ZeroBits(8);
    case 5 => SplitBits(14, 2, st.bits, 4, st.bits / 4, 0); ZeroBits(2);
    case 6 => SplitBits(4, 12, st.bits, 4096, st.bits / 4096, 0); ZeroBits(12);
    case _ => SplitBits(10, 6, st.bits, 64, st.bits / 64, 0); ZeroBits(6);
  }

  /** After k digits: the first 16 * (3k/8) of their bits as units, the other 6k mod 16 on the left of `mEncBits`. */
  lemma DigitsRefine(ds: seq<nat>)
    requires forall i :: 0 <= i < |ds| ==> ds[i] < 64
    ensures var out := DigitsOut(FRESH, ds);
            var n := 16 * |out|;
            && |out| == 3 * |ds| / 8 && |Flat(6, ds)| == 6 * |ds|
            && Flat(16, out) == Flat(6, ds)[..n]
            && ToBits(16, DigitsNext(FRESH, ds).bits) == Flat(6, ds)[n..] + Zeros(16 - 6 * |ds| % 16)
  {
    hide ToBits, Flat, DigitsOut, DigitsNext, Carried, Zeros;
    var out, st := DigitsOut(FRESH, ds), DigitsNext(FRESH, ds);
    DigitsKeepBits(FRESH, ds);
    Empty(Flat(6, ds));
    FlatLength(6, ds);
    FlatLength(16, out);
    LeftAligned(st);
    FreshCarriesNothing();
    Halves(Flat(6, ds), Flat(16, out), Carried(st));
    Remainder(|ds|, |out|, |Carried(st)|);
  }

  lemma FreshCarriesNothing()
    ensures Carried(FRESH) == []
  {
  }

  lemma Remainder(k: nat, n: nat, c: nat)
    requires 6 * k == 16 * n + c && c < 16
    ensures n == 3 * k / 8 && c == 6 * k % 16
  {
  }

  // ----- sections in a text

  lemma DigitByte(v: Variant, st: DecState, d: nat)
    requires Valid(st) && st.mode.Base64? && d < 64
    ensures ByteOut(v, st, Digit(v, d)) == DigitOut(st, d) && ByteNext(v, st, Digit(v, d)) == DigitNext(st, d)
  {
    hide Digit, Value, IsDigit;
    DigitValue(v, d);
  }

  lemma {:induction false} DecodeDigits(v: Variant, st: DecState, ds: seq<nat>, rest: seq<Byte>)
    requires Valid(st) && st.mode.Base64? && forall i :: 0 <= i < |ds| ==> ds[i] < 64
    ensures var t := Decode(v, DigitsNext(st, ds), rest);
            Decode(v, st, Chars(v, ds) + rest) == Text(DigitsOut(st, ds) + t.out, t.st)
    decreases |ds|
  {
    hide DigitOut, DigitNext, Digit, ByteOut, ByteNext;
    if ds == [] {
      Empty(rest);
      Empty(Decode(v, st, rest).out);
    } else {
      var s := Chars(v, ds);
      assert s[1..] == Chars(v, ds[1..]);
      DecodeCons(v, st, s, rest);
      DigitByte(v, st, ds[0]);
      DecodeDigits(v, DigitNext(st, ds[0]), ds[1..], rest);
      Assoc(DigitOut(st, ds[0]), DigitsOut(DigitNext(st, ds[0]), ds[1..]), Decode(v, DigitsNext(st, ds), rest).out);
    }
  }

  /** A section of at least one digit, met in direct mode, stands for its units. */
  lemma DecodeSection(v: Variant, st: DecState, ds: seq<nat>, rest: seq<Byte>)
    requires Valid(st) && st.mode.Direct? && ds != [] && forall i :: 0 <= i < |ds| ==> ds[i] < 64
    ensures Decode(v, st, [EscChar(v)] + (Chars(v, ds) + ([MINUS] + rest))).out
         == DigitsOut(FRESH, ds) + Decode(v, st, rest).out
    ensures Decode(v, st, [EscChar(v)] + (Chars(v, ds) + ([MINUS] + rest))).st.mode == Decode(v, st, rest).st.mode
  {
    hide DigitsOut, DigitsNext, Decode, IsDigit;
    var tail := [MINUS] + rest;
    var end := DigitsNext(FRESH, ds);
    var left := end.(mode := Direct);
    DecodeCons(v, st, [EscChar(v)], Chars(v, ds) + tail);
    Empty(Decode(v, FRESH, Chars(v, ds) + tail).out);
    assert [EscChar(v)][1..] == [];
    Empty(Chars(v, ds) + tail);
    DecodeDigits(v, FRESH, ds, tail);
    DecodeCons(v, end, [MINUS], rest);
    assert [MINUS][1..] == [];
    Empty(rest);
    ValueDigit(v, MINUS);
    assert ByteNext(v, end, MINUS) == left;
    Empty(Decode(v, left, rest).out);
    DirectForgets(v, left, st, rest);
  }
}
