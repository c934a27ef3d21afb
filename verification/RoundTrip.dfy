/** Decoding an encoded text gives the text back. */
module RoundTrip {
  import opened Sequences
  import opened Bits
  import opened Utf7
  import opened EncoderText
  import opened DecoderSpec
  import opened DecoderRuns
  import opened DecoderText

  /** Digits stand for the units whose bits they begin with; fewer than 16 further bits are ignored. */
  lemma DigitsOfBits(ds: seq<nat>, r: seq<Unit>, tail: seq<bool>)
    requires forall i :: 0 <= i < |ds| ==> ds[i] < 64
    requires Flat(6, ds) == Flat(16, r) + tail && |tail| < 16
    ensures DigitsOut(FRESH, ds) == r
  {
    hide Flat, ToBits, DigitsOut;
    var out := DigitsOut(FRESH, ds);
    DigitsRefine(ds);
    FlatLength(16, r);
    Remainder(|ds|, |r|, |tail|);
    Halves(Flat(6, ds), Flat(16, r), tail);
    Powers();
    FlatInjective(16, out, r);
  }

  /** The 8-phase machine undoes what the 3-phase machine and its flush did to a run. */
  lemma DigitsOfRun(r: seq<Unit>)
    ensures DigitsOut(FRESH, RunDigits(r)) == r
  {
    hide Flat, ToBits, DigitsOut, Sextets;
    SextetsFlat(Flat(16, r));
    DigitsOfBits(RunDigits(r), r, Zeros(Pad(|Flat(16, r)|)));
  }

  /** The digits of two runs, each with its own flush, in one section: `p` zero bits come between the runs. */
  lemma TwoRunsBits(ds: seq<nat>, a: seq<Unit>, r: seq<Unit>, p: nat, tail: seq<bool>)
    requires forall i :: 0 <= i < |ds| ==> ds[i] < 64
    requires Flat(6, ds) == (Flat(16, a) + Zeros(p)) + (Flat(16, r) + tail) && p + |tail| < 16
    ensures |DigitsOut(FRESH, ds)| == |a| + |r|
    ensures Flat(16, DigitsOut(FRESH, ds)) == Flat(16, a) + (Zeros(p) + Flat(16, r))[..|Flat(16, r)|]
  {
    hide Flat, ToBits, DigitsOut, DigitsNext, Zeros, Pow2;
    DigitsRefine(ds);
    FlatLength(16, a);
    FlatLength(16, r);
    Remainder(|ds|, |a| + |r|, p + |tail|);
    Front(Flat(16, a), Zeros(p), Flat(16, r), tail);
  }

  lemma TwoRuns(ds: seq<nat>, a: seq<Unit>, r: seq<Unit>, p: nat, tail: seq<bool>)
    requires forall i :: 0 <= i < |ds| ==> ds[i] < 64
    requires Flat(6, ds) == (Flat(16, a) + Zeros(p)) + (Flat(16, r) + tail) && p + |tail| < 16
    ensures DigitsOut(FRESH, ds) == a + r <==> p == 0 || forall i :: 0 <= i < |r| ==> r[i] == 0
  {
    hide Flat, ToBits, DigitsOut, DigitsNext, Zeros, Pow2;
    var out := DigitsOut(FRESH, ds);
    TwoRunsBits(ds, a, r, p, tail);
    FlatLength(16, r);
    FlatConcat(16, a, r);
    SameUnits(out, a + r);
    ShiftedBehind(Flat(16, a), Flat(16, r), p);
    ZeroUnits(r);
  }

  lemma SameUnits(a: seq<nat>, b: seq<Unit>)
    requires |a| == |b| && forall i :: 0 <= i < |a| ==> a[i] < 0x10000
    ensures Flat(16, a) == Flat(16, b) <==> a == b
  {
    hide Flat;
    Powers();
    if Flat(16, a) == Flat(16, b) {
      FlatInjective(16, a, b);
    }
  }

  lemma ZeroUnits(r: seq<Unit>)
    ensures Flat(16, r) == Zeros(16 * |r|) <==> forall i :: 0 <= i < |r| ==> r[i] == 0
  {
    hide Flat, Zeros;
    Powers();
    FlatZeros(16, r);
  }

  lemma ShiftedBehind(a: seq<bool>, r: seq<bool>, p: nat)
    ensures a + (Zeros(p) + r)[..|r|] == a + r <==> p == 0 || r == Zeros(|r|)
  {
    Prepend(a, (Zeros(p) + r)[..|r|], r);
    ShiftFixed(r, p);
  }

  lemma Front<T>(a: seq<T>, z: seq<T>, r: seq<T>, tail: seq<T>)
    ensures ((a + z) + (r + tail))[..|a| + |r|] == a + (z + r)[..|r|]
  {
  }

  lemma Prepend<T>(a: seq<T>, b: seq<T>, c: seq<T>)
    ensures a + b == a + c <==> b == c
  {
    if a + b == a + c {
      assert b == (a + b)[|a|..] && c == (a + c)[|a|..];
    }
  }

  /**
    * A run that was flushed, and the digits of further units behind it: all are read as they are if and only if the
    * flush was not within a digit or the further ones are all zero.
    */
  lemma DigitsAfterFlush(a: seq<Unit>, r: seq<Unit>)
    ensures DigitsOut(FRESH, RunDigits(a) + RunDigits(r)) == a + r
       <==> |a| % 3 == 0 || forall i :: 0 <= i < |r| ==> r[i] == 0
  {
    hide Flat, ToBits, DigitsOut, Sextets, Zeros;
    var fa, fr := Flat(16, a), Flat(16, r);
    SextetsFlat(fa);
    SextetsFlat(fr);
    FlatLength(16, a);
    FlatLength(16, r);
    FlatConcat(6, RunDigits(a), RunDigits(r));
    PadOfRun(|a|);
    PadOfRun(|r|);
    TwoRuns(RunDigits(a) + RunDigits(r), a, r, Pad(|fa|), Zeros(Pad(|fr|)));
  }

  lemma PadOfRun(n: nat)
    ensures Pad(16 * n) == 2 * (n % 3)
  {
  }

  /** A direct unit other than the escape character stands for itself; the pair for the escape character. */
  lemma DecodeDirectText(v: Variant, st: DecState, ch: Unit, rest: seq<Byte>)
    requires Valid(st) && st.mode.Direct?
    ensures Decode(v, st, DirectText(v, ch) + rest).out == [ch] + Decode(v, st, rest).out
    ensures Decode(v, st, DirectText(v, ch) + rest).st.mode == Decode(v, st, rest).st.mode
  {
    hide Decode;
    if ch == EscChar(v) {
      var pair := [ch, MINUS];
      DecodeCons(v, st, pair, rest);
      assert pair[1..] == [MINUS] && [MINUS][1..] == [];
      DecodeCons(v, FRESH, [MINUS], rest);
      Empty(rest);
      var left := FRESH.(mode := Direct);
      Empty(Decode(v, FRESH, [MINUS] + rest).out);
      DirectForgets(v, left, st, rest);
    } else {
      DecodeCons(v, st, [ch], rest);
      assert [ch][1..] == [];
      Empty(rest);
    }
  }

  /** Every text survives encoding and decoding, in both variants, from any state in direct mode. */
  lemma {:induction false} DecodeEncode(v: Variant, st: DecState, u: seq<Unit>)
    requires Valid(st) && st.mode.Direct?
    ensures Decode(v, st, Encode(v, u)).out == u
    ensures Decode(v, st, Encode(v, u)).st.mode.Direct?
    decreases |u|
  {
    hide Decode, DirectText, RunDigits, DirectEncodable, DigitsOut, Valid;
    if u == [] {
      DecodeEmpty(v, st);
    } else if DirectEncodable(v, u[0]) {
      DecodeEncode(v, st, u[1..]);
      DecodeDirectText(v, st, u[0], Encode(v, u[1..]));
      assert u == [u[0]] + u[1..];
    } else {
      var k := RunLength(v, u);
      var r, rest, ds := u[..k], Encode(v, u[k..]), RunDigits(u[..k]);
      DecodeEncode(v, st, u[k..]);
      DigitsOfRun(r);
      DecodeSection(v, st, ds, rest);
      Assoc4([EscChar(v)], Chars(v, ds), [MINUS], rest);
      assert u == r + u[k..];
    }
  }

  lemma DecodeEmpty(v: Variant, st: DecState)
    requires Valid(st)
    ensures Decode(v, st, []) == Text([], st)
  {
  }
}
