/** The encoding of a whole text, section by section, and the proof that the encoder writes it. */
module EncoderText {
  import opened Bits
  import opened Sequences
  import opened Utf7
  import opened EncoderSpec
  import opened EncoderRuns

  // ----- the text

  /** The length of the leading run of units that need base64. */
  function RunLength(v: Variant, u: seq<Unit>): (k: nat)
    ensures k <= |u|
    ensures forall i :: 0 <= i < k ==> !DirectEncodable(v, u[i])
    ensures k < |u| ==> DirectEncodable(v, u[k])
  {
    if u == [] || DirectEncodable(v, u[0]) then 0 else 1 + RunLength(v, u[1..])
  }

  /** The base64 digits of a run: its bit string, big-endian, cut into sixes and zero-padded. */
  function RunDigits(r: seq<Unit>): (ds: seq<nat>)
    ensures |ds| == (8 * |r| + 2) / 3
    ensures forall i :: 0 <= i < |ds| ==> ds[i] < 64
  {
    FlatLength(16, r);
    SextetsCount(Flat(16, r));
    Sextets(Flat(16, r))
  }

  function Section(v: Variant, r: seq<Unit>): seq<Byte> {
    [EscChar(v)] + Chars(v, RunDigits(r)) + [MINUS]
  }

  function DirectText(v: Variant, ch: Unit): seq<Byte> {
    if ch == EscChar(v) then [ch, MINUS] else [ch]
  }

  /** Direct units as themselves, each maximal run of other units as one section. */
  function Encode(v: Variant, u: seq<Unit>): seq<Byte>
    decreases |u|
  {
    if u == [] then []
    else if DirectEncodable(v, u[0]) then DirectText(v, u[0]) + Encode(v, u[1..])
    else
      var k := RunLength(v, u);
      Section(v, u[..k]) + Encode(v, u[k..])
  }

  // ----- the 3-phase machine regroups bits

  /** The bits a state carries: four after one unit of a triple, two after two. */
  function Carried(st: EncState): seq<bool> {
    if st.step == 1 then ToBits(4, st.bits / 4)
    else if st.step == 2 then ToBits(2, st.bits / 16)
    else []
  }

  lemma UnitBits0(ch: nat, a: nat, b: nat, c: nat)
    requires ch == 1024 * a + 16 * b + c && b < 64 && c < 16
    ensures ToBits(16, ch) == Flat(6, [a, b]) + ToBits(4, c)
  {
    hide *;
    Powers();
    FlatTwo(6, a, b);
    SplitBits(6, 10, ch, 1024, a, 16 * b + c);
    SplitBits(6, 4, 16 * b + c, 16, b, c);
    Assoc(ToBits(6, a), ToBits(6, b), ToBits(4, c));
  }

  lemma UnitBits1(p: nat, ch: nat, h: nat, a: nat, b: nat, c: nat)
    requires ch == 16384 * h + 256 * a + 4 * b + c && h < 4 && a < 64 && b < 64 && c < 4
    ensures ToBits(4, p) + ToBits(16, ch) == Flat(6, [4 * p + h, a, b]) + ToBits(2, c)
  {
    hide *;
    Powers();
    FlatThree(6, 4 * p + h, a, b);
    SplitBits(4, 2, 4 * p + h, 4, p, h);
    SplitBits(2, 14, ch, 16384, h, 256 * a + 4 * b + c);
    SplitBits(6, 8, 256 * a + 4 * b + c, 256, a, 4 * b + c);
    SplitBits(6, 2, 4 * b + c, 4, b, c);
    Assoc5(ToBits(4, p), ToBits(2, h), ToBits(6, a), ToBits(6, b), ToBits(2, c));
  }

  lemma UnitBits2(p: nat, ch: nat, h: nat, a: nat, b: nat)
    requires ch == 4096 * h + 64 * a + b && h < 16 && a < 64 && b < 64
    ensures ToBits(2, p) + ToBits(16, ch) == Flat(6, [16 * p + h, a, b])
  {
    hide *;
    Powers();
    FlatThree(6, 16 * p + h, a, b);
    SplitBits(2, 4, 16 * p + h, 16, p, h);
    SplitBits(4, 12, ch, 4096, h, 64 * a + b);
    SplitBits(6, 6, 64 * a + b, 64, a, b);
    Assoc4(ToBits(2, p), ToBits(4, h), ToBits(6, a), ToBits(6, b));
  }

  lemma Parts0(ch: nat)
    ensures ch == 1024 * (ch / 1024) + 16 * (ch / 16 % 64) + ch % 16
  {
  }

  lemma Parts1(ch: nat)
    ensures ch == 16384 * (ch / 16384) + 256 * (ch / 256 % 64) + 4 * (ch / 4 % 64) + ch % 4
  {
    var q := ch / 4;
    assert q == 64 * (q / 64) + q % 64 && q / 64 == ch / 256;
    assert ch / 256 == 64 * (ch / 16384) + ch / 256 % 64;
  }

  lemma Parts2(ch: nat)
    ensures ch == 4096 * (ch / 4096) + 64 * (ch / 64 % 64) + ch % 64
  {
  }

  lemma CarriedBits(st: EncState, c: nat)
    ensures st == EncState(Base64, 4 * c, 1) ==> Carried(st) == ToBits(4, c)
    ensures st == EncState(Base64, 16 * c, 2) ==> Carried(st) == ToBits(2, c)
  {
  }

  lemma UnitBitsFirst(st: EncState, ch: Unit)
    requires Valid(st) && st.mode.Base64? && st.step == 0
    ensures Carried(st) + ToBits(16, ch) == Flat(6, UnitDigits(st, ch)) + Carried(Emitted(st, ch))
  {
    hide ToBits, Flat;
    var c := ch % 16;
    Parts0(ch);
    UnitBits0(ch, ch / 1024, ch / 16 % 64, c);
    Empty(ToBits(16, ch));
    CarriedBits(Emitted(st, ch), c);
  }

  lemma UnitBitsSecond(st: EncState, ch: Unit)
    requires Valid(st) && st.mode.Base64? && st.step == 1
    ensures Carried(st) + ToBits(16, ch) == Flat(6, UnitDigits(st, ch)) + Carried(Emitted(st, ch))
  {
    hide ToBits, Flat;
    var p, c := st.bits / 4, ch % 4;
    Parts1(ch);
    UnitBits1(p, ch, ch / 16384, ch / 256 % 64, ch / 4 % 64, c);
    CarriedBits(Emitted(st, ch), c);
  }

  lemma UnitBitsThird(st: EncState, ch: Unit)
    requires Valid(st) && st.mode.Base64? && st.step == 2
    ensures Carried(st) + ToBits(16, ch) == Flat(6, UnitDigits(st, ch)) + Carried(Emitted(st, ch))
  {
    hide ToBits, Flat;
    var p := st.bits / 16;
    Parts2(ch);
    UnitBits2(p, ch, ch / 4096, ch / 64 % 64, ch % 64);
    Empty(Flat(6, UnitDigits(st, ch)));
  }

  /** No bit of a unit is lost, repeated or moved: carried bits and unit become digits and carried bits. */
  lemma UnitBits(st: EncState, ch: Unit)
    requires Valid(st) && st.mode.Base64?
    ensures Carried(st) + ToBits(16, ch) == Flat(6, UnitDigits(st, ch)) + Carried(Emitted(st, ch))
  {
    if st.step == 0 {
      UnitBitsFirst(st, ch);
    } else if st.step == 1 {
      UnitBitsSecond(st, ch);
    } else {
      UnitBitsThird(st, ch);
    }
  }

  // ----- a run in the machine is a section in the text

  /** The digits still to come, carried bits included, when `r` is the rest of the run. */
  function DueDigits(st: EncState, r: seq<Unit>): (ds: seq<nat>)
    ensures forall i :: 0 <= i < |ds| ==> ds[i] < 64
  {
    SextetsCount(Carried(st) + Flat(16, r));
    Sextets(Carried(st) + Flat(16, r))
  }

  lemma FlushBits(c: nat, k: nat, p: nat)
    requires k == 2 || k == 4
    requires p == Pow2(k) && p * c < 64
    ensures Sextets(ToBits(6 - k, c)) == [p * c]
  {
    assert Pow2(6) == 64;
    SplitBits(6 - k, k, p * c, p, c, 0);
    ZeroBits(k);
    NumToBits(6, p * c);
  }

  /** Leaving base64 writes the carried bits, zero-padded to a digit, and `-`. */
  lemma FlushOut(v: Variant, st: EncState)
    requires Valid(st) && st.mode.Base64?
    ensures ShiftOut(v, st, Direct) == Chars(v, DueDigits(st, [])) + [MINUS]
  {
    Powers();
    Empty(Carried(st));
    if st.step == 1 {
      FlushBits(st.bits / 4, 2, 4);
    } else if st.step == 2 {
      FlushBits(st.bits / 16, 4, 16);
    }
  }

  lemma DueDigitsUnfold(st: EncState, ch: Unit, r: seq<Unit>)
    requires Valid(st) && st.mode.Base64?
    ensures DueDigits(st, [ch] + r) == UnitDigits(st, ch) + DueDigits(Emitted(st, ch), r)
  {
    FlatCons(16, ch, r);
    UnitBits(st, ch);
    Assoc(Carried(st), ToBits(16, ch), Flat(16, r));
    Assoc(Flat(6, UnitDigits(st, ch)), Carried(Emitted(st, ch)), Flat(16, r));
    SextetsPrefix(UnitDigits(st, ch), Carried(Emitted(st, ch)) + Flat(16, r));
  }

  /** From base64 mode, the rest of a run becomes its remaining digits, `-`, and what follows from scratch. */
  lemma {:induction false} RunRest(v: Variant, st: EncState, r: seq<Unit>, tail: seq<Unit>)
    requires Valid(st) && st.mode.Base64?
    requires forall i :: 0 <= i < |r| ==> !DirectEncodable(v, r[i])
    requires tail != [] ==> DirectEncodable(v, tail[0])
    ensures Rest(v, st, r + tail) == Chars(v, DueDigits(st, r)) + ([MINUS] + Rest(v, IDLE, tail))
    decreases |r|
  {
    hide UnitDigits, Emitted, DueDigits, Chars, Rest, Carried;
    if r == [] {
      FlushOut(v, st);
      assert r + tail == tail;
      LeaveRun(v, st, tail);
      Assoc(Chars(v, DueDigits(st, [])), [MINUS], Rest(v, IDLE, tail));
    } else {
      var ch, r', st' := r[0], r[1..], Emitted(st, r[0]);
      RestUnfold(v, st, r, tail);
      RunRest(v, st', r', tail);
      assert r == [ch] + r';
      DueDigitsUnfold(st, ch, r');
      CharsConcat(v, UnitDigits(st, ch), DueDigits(st', r'));
      Empty(Chars(v, UnitDigits(st, ch)));
      Assoc(Chars(v, UnitDigits(st, ch)), Chars(v, DueDigits(st', r')), [MINUS] + Rest(v, IDLE, tail));
    }
  }

  lemma LeaveRun(v: Variant, st: EncState, tail: seq<Unit>)
    requires Valid(st)
    requires tail != [] ==> DirectEncodable(v, tail[0])
    ensures Rest(v, st, tail) == ShiftOut(v, st, Direct) + Rest(v, IDLE, tail)
  {
    var o := ShiftOut(v, st, Direct);
    if tail == [] {
      Empty(o);
    } else {
      var e := Emit(v, IDLE, tail[0]);
      Empty(e);
      Assoc(o, e, Rest(v, IDLE, tail[1..]));
      assert UnitOut(v, IDLE, tail[0]) == e;
    }
  }

  /** From scratch, with unlimited room, the encoder writes the text. */
  lemma {:induction false} RestIsText(v: Variant, u: seq<Unit>)
    ensures Rest(v, IDLE, u) == Encode(v, u)
    decreases |u|
  {
    if u == [] {
    } else if DirectEncodable(v, u[0]) {
      RestIsText(v, u[1..]);
      Empty(DirectText(v, u[0]));
    } else {
      var k := RunLength(v, u);
      var r, tail := u[..k], u[k..];
      RestIsText(v, tail);
      assert u == r + tail;
      EnterRun(v, u);
      var base := EncState(Base64, 0, 0);
      RunRest(v, base, r, tail);
      Empty(Flat(16, r));
      assert DueDigits(base, r) == RunDigits(r);
      Assoc4([EscChar(v)], Chars(v, RunDigits(r)), [MINUS], Encode(v, tail));
    }
  }

  lemma EnterUnit(v: Variant, ch: Unit)
    requires !DirectEncodable(v, ch)
    ensures UnitOut(v, IDLE, ch) == [EscChar(v)] + UnitOut(v, EncState(Base64, 0, 0), ch)
    ensures UnitNext(v, IDLE, ch) == UnitNext(v, EncState(Base64, 0, 0), ch)
  {
    Empty(Emit(v, EncState(Base64, 0, 0), ch));
  }

  lemma EnterRun(v: Variant, u: seq<Unit>)
    requires u != [] && !DirectEncodable(v, u[0])
    ensures Rest(v, IDLE, u) == [EscChar(v)] + Rest(v, EncState(Base64, 0, 0), u)
  {
    var base := EncState(Base64, 0, 0);
    EnterUnit(v, u[0]);
    Assoc([EscChar(v)], UnitOut(v, base, u[0]), Rest(v, UnitNext(v, base, u[0]), u[1..]));
  }
}
