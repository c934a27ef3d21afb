/** What the encoded text looks like: its bytes, its length, and where it may be cut. */
module EncoderFacts {
  import opened Sequences
  import opened Utf7
  import opened EncoderSpec
  import opened EncoderRuns
  import opened EncoderText

  // ----- bytes

  /** Bytes that are themselves direct units of the variant, or its escape character. */
  predicate Writable(v: Variant, s: seq<Byte>) {
    forall i :: 0 <= i < |s| ==> 0 <= s[i] < 128 && (DirectEncodable(v, s[i]) || s[i] == EscChar(v))
  }

  lemma WritableMeans(v: Variant, s: seq<Byte>)
    requires Writable(v, s)
    ensures IsAscii(s)
    ensures v == MUTF7 ==> forall i :: 0 <= i < |s| ==> 0x20 <= s[i] <= 0x7e
  {
  }

  lemma CharsWritable(v: Variant, ds: seq<nat>)
    requires forall i :: 0 <= i < |ds| ==> ds[i] < 64
    ensures Writable(v, Chars(v, ds))
  {
    forall i | 0 <= i < |ds| ensures Writable(v, [Digit(v, ds[i])]) {
      DigitValue(v, ds[i]);
    }
    assert forall i :: 0 <= i < |ds| ==> Chars(v, ds)[i] == [Digit(v, ds[i])][0];
  }

  lemma UnitWritable(v: Variant, st: EncState, ch: Unit)
    requires Valid(st)
    ensures Writable(v, UnitOut(v, st, ch))
  {
    var st' := Shifted(st, ModeOf(v, ch));
    ShiftWritable(v, st, ModeOf(v, ch));
    if st'.mode.Base64? {
      CharsWritable(v, UnitDigits(st', ch));
    }
  }

  lemma ShiftWritable(v: Variant, st: EncState, m: Mode)
    requires Valid(st)
    ensures Writable(v, ShiftOut(v, st, m))
  {
    DigitValue(v, st.bits);
  }

  lemma {:induction false} RestWritable(v: Variant, st: EncState, u: seq<Unit>)
    requires Valid(st)
    ensures Writable(v, Rest(v, st, u))
    decreases |u|
  {
    hide UnitOut, UnitNext, ShiftOut, DirectEncodable;
    if u == [] {
      ShiftWritable(v, st, Direct);
    } else {
      UnitWritable(v, st, u[0]);
      RestWritable(v, UnitNext(v, st, u[0]), u[1..]);
    }
  }

  /** No call from any state writes anything else; `ValueToChar` never returns its error value. */
  lemma CallWritable(v: Variant, st: EncState, u: seq<Unit>, room: int)
    requires Valid(st)
    ensures Writable(v, Convert(v, st, u, room).out)
    ensures Writable(v, Shift(v, st, Direct, room).out)
  {
    hide DirectEncodable, Convert, Rest, Shift;
    var c := Convert(v, st, u, room);
    ConvertResumes(v, st, u, room, []);
    Empty(u);
    RestWritable(v, st, u);
    var due := Rest(v, st, u);
    assert forall i :: 0 <= i < |c.out| ==> c.out[i] == due[i];
    ShiftResumes(v, st, Direct, room);
    ShiftWritable(v, st, Direct);
    var s := Shift(v, st, Direct, room);
    assert forall i :: 0 <= i < |s.out| ==> s.out[i] == ShiftOut(v, st, Direct)[i];
  }

  // ----- length

  lemma SectionLength(v: Variant, r: seq<Unit>)
    ensures |Section(v, r)| == 2 + (8 * |r| + 2) / 3
  {
  }

  /** One byte for a direct unit, one more for an escape pair, two and a digit for every six bits for a run. */
  function TextCost(v: Variant, u: seq<Unit>): nat
    decreases |u|
  {
    var k := RunLength(v, u);
    if u == [] then 0
    else if k == 0 then (if IsPair(v, u[0]) then 2 else 1) + TextCost(v, u[1..])
    else 2 + (8 * k + 2) / 3 + TextCost(v, u[k..])
  }

  lemma {:induction false} TextLength(v: Variant, u: seq<Unit>)
    ensures |Encode(v, u)| == TextCost(v, u)
    decreases |u|
  {
    hide Section;
    var k := RunLength(v, u);
    if k > 0 {
      SectionLength(v, u[..k]);
      TextLength(v, u[k..]);
    } else if u != [] {
      TextLength(v, u[1..]);
    }
  }

  /** `n` units take at most 3n+2 bytes in UTF-7 and (7n+3)/2 in MUTF-7. */
  lemma {:induction false} TextAtMost(v: Variant, u: seq<Unit>)
    ensures v == UTF7 ==> |Encode(v, u)| <= 3 * |u| + 2
    ensures v == MUTF7 ==> 2 * |Encode(v, u)| <= 7 * |u| + 3
    ensures u == [] || DirectEncodable(v, u[0]) ==>
              |Encode(v, u)| <= 3 * |u| || (v == MUTF7 && 2 * |Encode(v, u)| <= 7 * |u|)
    decreases |u|
  {
    hide Section;
    if u == [] {
    } else if DirectEncodable(v, u[0]) {
      TextAtMost(v, u[1..]);
    } else {
      var k := RunLength(v, u);
      SectionLength(v, u[..k]);
      TextAtMost(v, u[k..]);
    }
  }

  /** Units that need base64, one by one with the dearest direct unit between them, and two at the end if need be. */
  function Dearest(v: Variant, n: nat): (u: seq<Unit>)
    ensures |u| == n
  {
    if n == 0 then []
    else if n == 1 then [0x80]
    else if n == 2 then [0x80, 0x80]
    else [0x80, if v == UTF7 then 65 else 38] + Dearest(v, n - 2)
  }

  /** What the parts of such a text cost. */
  lemma DearestParts(v: Variant, rest: seq<Unit>)
    ensures |Encode(v, [0x80])| == 5 && |Encode(v, [0x80, 0x80])| == 8
    ensures var dear: Unit := if v == UTF7 then 65 else 38;
            |Encode(v, [0x80, dear] + rest)| == (if v == UTF7 then 6 else 7) + |Encode(v, rest)|
  {
    hide Section;
    var dear: Unit := if v == UTF7 then 65 else 38;
    assert !DirectEncodable(v, 0x80) && DirectEncodable(v, dear);
    AllRun(v, [0x80]);
    AllRun(v, [0x80, 0x80]);
    var u := [0x80, dear] + rest;
    assert u[1..][0] == dear && u[1..][1..] == rest;
    assert RunLength(v, u) == 1 && u[..1] == [0x80];
    SectionLength(v, [0x80]);
  }

  lemma {:induction false} AllRun(v: Variant, u: seq<Unit>)
    requires u != [] && forall i :: 0 <= i < |u| ==> !DirectEncodable(v, u[i])
    ensures |Encode(v, u)| == 2 + (8 * |u| + 2) / 3
  {
    hide Section, DirectEncodable;
    assert u[..|u|] == u && u[|u|..] == [];
    SectionLength(v, u);
  }

  /** Both bounds are reached, at every length but zero. */
  lemma {:induction false} TextBoundTight(v: Variant, n: nat)
    requires n > 0
    ensures |Encode(v, Dearest(v, n))| == if v == UTF7 then 3 * n + 2 else (7 * n + 3) / 2
    decreases n
  {
    hide Encode;
    if n <= 2 {
      DearestParts(v, []);
    } else {
      DearestParts(v, Dearest(v, n - 2));
      TextBoundTight(v, n - 2);
    }
  }

  /** A buffer as long as the text is long enough for one call and one call to finish. */
  lemma OneCallAndFinish(v: Variant, u: seq<Unit>, room: int)
    requires room >= |Encode(v, u)|
    ensures var c := Convert(v, IDLE, u, room);
            var f := Shift(v, c.st, Direct, room - |c.out|);
            && c.status == Ok && c.used == |u|
            && f.status == Ok && f.st == IDLE && c.out + f.out == Encode(v, u)
  {
    hide Encode, Convert, UnitOut, UnitNext, Digit;
    RestIsText(v, u);
    EnoughRoom(v, IDLE, u, room);
    ConvertResumes(v, IDLE, u, room, []);
    Empty(u);
    var c := Convert(v, IDLE, u, room);
    assert u[c.used..] + [] == [];
    assert |ShiftOut(v, c.st, Direct)| <= room - |c.out|;
    ShiftResumes(v, c.st, Direct, room - |c.out|);
  }

  // ----- concatenation

  lemma {:induction false} RunLengthConcat(v: Variant, a: seq<Unit>, b: seq<Unit>)
    ensures RunLength(v, a + b) == if RunLength(v, a) < |a| then RunLength(v, a) else |a| + RunLength(v, b)
    decreases |a|
  {
    hide DirectEncodable;
    if a == [] {
      Empty(b);
    } else {
      assert (a + b)[0] == a[0] && (a + b)[1..] == a[1..] + b;
      RunLengthConcat(v, a[1..], b);
    }
  }

  predicate CleanCut(v: Variant, a: seq<Unit>, b: seq<Unit>) {
    a == [] || b == [] || DirectEncodable(v, a[|a| - 1]) || DirectEncodable(v, b[0])
  }

  /** A text may be encoded in pieces exactly where a cut does not divide a run. */
  lemma {:induction false} EncodeConcat(v: Variant, a: seq<Unit>, b: seq<Unit>)
    ensures CleanCut(v, a, b) ==> Encode(v, a + b) == Encode(v, a) + Encode(v, b)
    ensures !CleanCut(v, a, b) ==> |Encode(v, a + b)| < |Encode(v, a)| + |Encode(v, b)|
    decreases |a|
  {
    hide DirectEncodable, DirectText, Section;
    if a == [] {
      Empty(b);
      Empty(Encode(v, b));
    } else if DirectEncodable(v, a[0]) {
      assert (a + b)[0] == a[0] && (a + b)[1..] == a[1..] + b;
      EncodeConcat(v, a[1..], b);
      Assoc(DirectText(v, a[0]), Encode(v, a[1..]), Encode(v, b));
    } else {
      var k := RunLength(v, a);
      RunLengthConcat(v, a, b);
      if k < |a| {
        assert (a + b)[..k] == a[..k] && (a + b)[k..] == a[k..] + b;
        EncodeConcat(v, a[k..], b);
        Assoc(Section(v, a[..k]), Encode(v, a[k..]), Encode(v, b));
      } else {
        RunThenText(v, a, b);
      }
    }
  }

  lemma RunThenText(v: Variant, a: seq<Unit>, b: seq<Unit>)
    requires a != [] && RunLength(v, a) == |a| && RunLength(v, a + b) == |a| + RunLength(v, b)
    ensures CleanCut(v, a, b) ==> Encode(v, a + b) == Encode(v, a) + Encode(v, b)
    ensures !CleanCut(v, a, b) ==> |Encode(v, a + b)| < |Encode(v, a)| + |Encode(v, b)|
  {
    hide DirectEncodable, DirectText, Section, RunLength;
    var k := RunLength(v, b);
    assert a[..|a|] == a && a[|a|..] == [] && !DirectEncodable(v, a[|a| - 1]);
    Empty(Section(v, a));
    assert (a + b)[0] == a[0];
    if CleanCut(v, a, b) {
      assert k == 0;
      assert (a + b)[..|a|] == a && (a + b)[|a|..] == b;
    } else {
      assert (a + b)[|a| + k..] == b[k..];
      SectionLength(v, a);
      SectionLength(v, b[..k]);
      SectionLength(v, (a + b)[..|a| + k]);
    }
  }

  lemma EncodeConcatExactly(v: Variant, a: seq<Unit>, b: seq<Unit>)
    ensures Encode(v, a + b) == Encode(v, a) + Encode(v, b) <==> CleanCut(v, a, b)
  {
    hide Encode, CleanCut;
    EncodeConcat(v, a, b);
  }
}
