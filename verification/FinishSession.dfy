/** Sessions in which the encoder is asked to finish at any time, and goes on afterwards. */
module FinishSession {
  import opened Bits
  import opened Sequences
  import opened Utf7
  import opened EncoderSpec
  import opened EncoderRuns
  import opened EncoderText
  import opened EncoderFacts
  import opened DecoderText
  import opened RoundTrip
  import D = DecoderSpec
  import DecoderRuns

  datatype Event = Offer(chunk: seq<Unit>) | Draw(take: nat, room: nat) | Finish(room: nat)

  /**
    * `texts` are the units of the texts finished so far, `open` those consumed since; `half` says that a call to finish
    * has stopped between the flushed digit and `-`.
    */
  datatype Session = Session(
    st: EncState, pending: seq<Unit>, out: seq<Byte>, half: bool, texts: seq<seq<Unit>>, open: seq<Unit>)

  const START := Session(IDLE, [], [], false, [], [])

  const BASE := EncState(Base64, 0, 0)

  function Shown(s: Session, take: nat): (n: nat)
    ensures n <= |s.pending|
  {
    if take < |s.pending| then take else |s.pending|
  }

  function Step(v: Variant, s: Session, e: Event): (s': Session)
    requires Valid(s.st)
    ensures Valid(s'.st)
  {
    match e
    case Offer(chunk) => s.(pending := s.pending + chunk)
    case Draw(take, room) =>
      var c := Convert(v, s.st, s.pending[..Shown(s, take)], room);
      s.(st := c.st, pending := s.pending[c.used..], out := s.out + c.out,
         half := s.half && c.used == 0 && c.st.mode.Base64?, open := s.open + s.pending[..c.used])
    case Finish(room) =>
      var c := Shift(v, s.st, Direct, room);
      var s' := s.(st := c.st, out := s.out + c.out);
      if c.status != Ok then s'.(half := s.half || c.out != [])
      else if s.st.mode.Direct? then s'
      else s'.(half := false, texts := s.texts + [s.open], open := [])
  }

  /** The encoder has entered base64 mode for the next unit only: its escape character has no digit behind it. */
  predicate Bare(v: Variant, st: EncState, open: seq<Unit>) {
    st.mode.Base64? && (open == [] || DirectEncodable(v, open[|open| - 1]))
  }

  /**
    * A call to finish comes at any time but behind a bare escape character; and while one is half done, no unit that
    * needs base64 is offered to a call.
    */
  predicate Legal(v: Variant, s: Session, e: Event) {
    match e
    case Offer(_) => true
    case Draw(take, _) => s.half && Shown(s, take) > 0 ==> DirectEncodable(v, s.pending[0])
    case Finish(_) => !Bare(v, s.st, s.open)
  }

  predicate AllLegal(v: Variant, s: Session, es: seq<Event>)
    requires Valid(s.st)
    decreases |es|
  {
    es == [] || (Legal(v, s, es[0]) && AllLegal(v, Step(v, s, es[0]), es[1..]))
  }

  function Play(v: Variant, s: Session, es: seq<Event>): (s': Session)
    requires Valid(s.st)
    ensures Valid(s'.st)
    decreases |es|
  {
    if es == [] then s else Play(v, Step(v, s, es[0]), es[1..])
  }

  function Chunk(e: Event): seq<Unit> {
    if e.Offer? then e.chunk else []
  }

  function Offered(es: seq<Event>): seq<Unit> {
    if es == [] then [] else Chunk(es[0]) + Offered(es[1..])
  }

  function Encoded(v: Variant, texts: seq<seq<Unit>>): seq<Byte> {
    if texts == [] then [] else Encoded(v, texts[..|texts| - 1]) + Encode(v, texts[|texts| - 1])
  }

  function Flatten(texts: seq<seq<Unit>>): seq<Unit> {
    if texts == [] then [] else Flatten(texts[..|texts| - 1]) + texts[|texts| - 1]
  }

  // ----- a mode change on its way

  /** `st` and `o` are the state and the bytes of a change from `from` into mode `m`, wherever it has stopped. */
  predicate Underway(v: Variant, from: EncState, m: Mode, st: EncState, o: seq<Byte>)
    requires Valid(from)
  {
    || (o == [] && st == from)
    || (m != from.mode && from.step != 0 && o == [Digit(v, from.bits)] && st == EncState(from.mode, 0, 0))
    || (o == ShiftOut(v, from, m) && st == Shifted(from, m))
  }

  lemma ShiftUnderway(v: Variant, from: EncState, m: Mode, st: EncState, o: seq<Byte>, room: int)
    requires Valid(from) && Underway(v, from, m, st, o)
    ensures Valid(st) && ShiftOut(v, from, m) == o + ShiftOut(v, st, m) && Shifted(st, m) == Shifted(from, m)
    ensures var c := Shift(v, st, m, room);
            && Underway(v, from, m, c.st, o + c.out)
            && (c.status == Ok <==> c.st.mode == m) && (c.status != Ok && c.out == [] ==> c.st == st)
            && (c.status == Ok ==> o + c.out == ShiftOut(v, from, m))
  {
    hide Digit;
  }

  /** A unit consumed after any number of calls that stopped in front of it has written the same in the end. */
  lemma UnitUnderway(v: Variant, from: EncState, st: EncState, o: seq<Byte>, ch: Unit)
    requires Valid(from) && Valid(st) && Underway(v, from, ModeOf(v, ch), st, o)
    ensures UnitOut(v, from, ch) == o + UnitOut(v, st, ch) && UnitNext(v, st, ch) == UnitNext(v, from, ch)
  {
    hide Emit, Emitted, ShiftOut, Shifted, DirectEncodable, Underway;
    var m := ModeOf(v, ch);
    ShiftUnderway(v, from, m, st, o, 0);
    Assoc(o, ShiftOut(v, st, m), Emit(v, Shifted(st, m), ch));
  }

  /** So has a call: beyond what its units write, `o'` belongs to the mode change in front of the next one. */
  lemma {:induction false} CallUnderway(v: Variant, from: EncState, st: EncState, o: seq<Byte>, u: seq<Unit>, room: int)
    returns (o': seq<Byte>)
    requires Valid(from) && Valid(st) && u != [] && Underway(v, from, ModeOf(v, u[0]), st, o)
    ensures var c := Convert(v, st, u, room);
            var from' := Fed(v, from, u[..c.used]);
            && o + c.out == Feed(v, from, u[..c.used]) + o'
            && (c.used == |u| ==> o' == [] && c.st == from')
            && (c.used < |u| ==> Underway(v, from', ModeOf(v, u[c.used]), c.st, o'))
    decreases |u|, 0
  {
    hide UnitOut, UnitNext, Fits, Shift, Underway, Convert, DirectEncodable;
    var c := Convert(v, st, u, room);
    ConvertUnit(v, st, u, room);
    if Fits(v, st, u[0], room) {
      UnitUnderway(v, from, st, o, u[0]);
      var x, st', rest := UnitOut(v, st, u[0]), UnitNext(v, st, u[0]), u[1..];
      var c' := Convert(v, st', rest, room - |x|);
      o' := CallUnderwayAfter(v, st', rest, room - |x|);
      assert u[..c.used][1..] == rest[..c'.used];
      Assoc(o, x, c'.out);
      Assoc(o + x, Feed(v, st', rest[..c'.used]), o');
    } else {
      ShiftUnderway(v, from, ModeOf(v, u[0]), st, o, room);
      o' := o + c.out;
      Empty(o');
    }
  }

  /** The same for a call that starts between two units. */
  lemma {:induction false} CallUnderwayAfter(v: Variant, st: EncState, u: seq<Unit>, room: int) returns (o': seq<Byte>)
    requires Valid(st)
    ensures var c := Convert(v, st, u, room);
            var st' := Fed(v, st, u[..c.used]);
            && c.out == Feed(v, st, u[..c.used]) + o'
            && (c.used == |u| ==> o' == [] && c.st == st')
            && (c.used < |u| ==> Underway(v, st', ModeOf(v, u[c.used]), c.st, o'))
    decreases |u|, 1
  {
    hide UnitOut, UnitNext, Fits, Convert, DirectEncodable;
    if u == [] {
      ConvertNothing(v, st, room);
      o' := [];
    } else {
      o' := CallUnderway(v, st, st, [], u, room);
      Empty(Convert(v, st, u, room).out);
    }
  }

  // ----- the invariant

  /** Where the mode change begun in a session leads, if one has begun. */
  function Target(v: Variant, s: Session): Mode {
    if s.half || s.pending == [] then Direct else ModeOf(v, s.pending[0])
  }

  /**
    * The finished texts are out, then what the units consumed since have written, and then a part `o` of the mode
    * change in front of the next unit, or of the one that a call to finish has begun.
    */
  predicate Written(v: Variant, s: Session, o: seq<Byte>)
  {
    && Valid(s.st)
    && s.out == Encoded(v, s.texts) + (Feed(v, IDLE, s.open) + o)
    && Underway(v, Fed(v, IDLE, s.open), Target(v, s), s.st, o)
    && (s.half ==> o != [] && s.st.mode.Base64?)
    && (!s.half && s.pending == [] ==> o == [])
  }

  ghost predicate Sound(v: Variant, s: Session) {
    exists o: seq<Byte> :: Written(v, s, o)
  }

  lemma SoundIsValid(v: Variant, s: Session)
    requires Sound(v, s)
    ensures Valid(s.st)
  {
  }

  lemma EncodedNext(v: Variant, texts: seq<seq<Unit>>, text: seq<Unit>)
    ensures Encoded(v, texts + [text]) == Encoded(v, texts) + Encode(v, text)
    ensures Flatten(texts + [text]) == Flatten(texts) + text
  {
    hide Encode;
    assert (texts + [text])[..|texts|] == texts;
  }

  lemma OfferKeepsSound(v: Variant, s: Session, chunk: seq<Unit>)
    requires Sound(v, s)
    ensures Sound(v, Step(v, s, Offer(chunk)))
  {
    hide Encoded, Feed, Fed, DirectEncodable, Digit;
    var o: seq<Byte> :| Written(v, s, o);
    assert Written(v, Step(v, s, Offer(chunk)), o);
  }

  lemma DrawKeepsSound(v: Variant, s: Session, take: nat, room: nat)
    requires Sound(v, s) && Legal(v, s, Draw(take, room))
    ensures Sound(v, Step(v, s, Draw(take, room)))
  {
    hide Encoded, Feed, Fed, Convert, DirectEncodable, Underway;
    var o: seq<Byte> :| Written(v, s, o);
    var n, from := Shown(s, take), Fed(v, IDLE, s.open);
    var u, s' := s.pending[..n], Step(v, s, Draw(take, room));
    var c := Convert(v, s.st, u, room);
    if n == 0 {
      ConvertNothing(v, s.st, room);
      Empty(s.out);
      Empty(s.open);
    } else {
      var o' := CallUnderway(v, from, s.st, o, u, room);
      var k := c.used;
      assert u[..k] == s.pending[..k];
      FeedConcat(v, IDLE, s.open, u[..k]);
      Regroup(Encoded(v, s.texts), Feed(v, IDLE, s.open), o, c.out, Feed(v, from, u[..k]), o');
      if k == 0 {
        FedNothing(v, from);
        Empty(o');
      }
      if k == n {
        SettledUnderway(v, c.st, Target(v, s'));
      }
      assert Written(v, s', o');
    }
  }

  lemma FedNothing(v: Variant, st: EncState)
    requires Valid(st)
    ensures Feed(v, st, []) == [] && Fed(v, st, []) == st
  {
  }

  lemma SettledUnderway(v: Variant, st: EncState, m: Mode)
    requires Valid(st)
    ensures Underway(v, st, m, st, [])
  {
  }

  lemma Regroup<T>(t: seq<T>, f: seq<T>, o: seq<T>, x: seq<T>, g: seq<T>, o': seq<T>)
    requires o + x == g + o'
    ensures (t + (f + o)) + x == t + ((f + g) + o')
  {
    Assoc(t, f + o, x);
    Assoc(f, o, x);
    Assoc(f, g, o');
  }

  /** Units that need base64 at the end of a text: they decide about the mode and the phase. */
  function TrailingRun(v: Variant, u: seq<Unit>): (k: nat)
    ensures k <= |u|
    ensures forall i :: |u| - k <= i < |u| ==> !DirectEncodable(v, u[i])
    ensures k < |u| ==> DirectEncodable(v, u[|u| - k - 1])
  {
    if u == [] || DirectEncodable(v, u[|u| - 1]) then 0 else 1 + TrailingRun(v, u[..|u| - 1])
  }

  lemma {:induction false} FedPhase(v: Variant, u: seq<Unit>)
    ensures var st := Fed(v, IDLE, u);
            (st.mode.Base64? <==> TrailingRun(v, u) > 0) && st.step == TrailingRun(v, u) % 3
    decreases |u|
  {
    hide DirectEncodable, Feed, Fed, UnitNext, TrailingRun;
    if u == [] {
      FedNothing(v, IDLE);
      TrailingNone(v);
    } else {
      var n := |u| - 1;
      var st := Fed(v, IDLE, u[..n]);
      FedPhase(v, u[..n]);
      FedOne(v, st, u[n]);
      NextPhase(v, st, u[n]);
      TrailingOne(v, u[..n], u[n]);
      FeedConcat(v, IDLE, u[..n], [u[n]]);
      SplitLast(u);
    }
  }

  lemma SplitLast<T>(u: seq<T>)
    requires u != []
    ensures u == u[..|u| - 1] + [u[|u| - 1]]
  {
  }

  lemma TrailingNone(v: Variant)
    ensures TrailingRun(v, []) == 0
  {
  }

  lemma TrailingOne(v: Variant, u: seq<Unit>, ch: Unit)
    ensures TrailingRun(v, u + [ch]) == if DirectEncodable(v, ch) then 0 else TrailingRun(v, u) + 1
  {
    hide DirectEncodable;
    assert (u + [ch])[..|u|] == u;
  }

  lemma FedOne(v: Variant, st: EncState, ch: Unit)
    requires Valid(st)
    ensures Fed(v, st, [ch]) == UnitNext(v, st, ch)
  {
    hide UnitNext;
    assert [ch][1..] == [];
  }

  lemma NextPhase(v: Variant, st: EncState, ch: Unit)
    requires Valid(st)
    ensures UnitNext(v, st, ch).mode == ModeOf(v, ch)
    ensures UnitNext(v, st, ch).step == if DirectEncodable(v, ch) then 0 else (st.step + 1) % 3
  {
    hide DirectEncodable;
  }

  lemma BareExactly(v: Variant, s: Session)
    requires Valid(s.st)
    ensures Bare(v, s.st, s.open) <==> s.st.mode.Base64? && Fed(v, IDLE, s.open).mode.Direct?
  {
    FedPhase(v, s.open);
  }

  /** Unless an escape character is bare, what a call to finish would complete can be completed from anywhere. */
  lemma TowardsDirect(v: Variant, s: Session, o: seq<Byte>)
    requires Written(v, s, o) && !Bare(v, s.st, s.open)
    ensures Underway(v, Fed(v, IDLE, s.open), Direct, s.st, o)
  {
    hide Feed, Fed, Encoded, DirectEncodable, Bare, Digit;
    BareExactly(v, s);
  }

  lemma FeedIsText(v: Variant, u: seq<Unit>)
    ensures Feed(v, IDLE, u) + ShiftOut(v, Fed(v, IDLE, u), Direct) == Encode(v, u)
  {
    hide Feed, Fed, ShiftOut, Encode, Rest;
    RestIsFeed(v, IDLE, u);
    RestIsText(v, u);
  }

  lemma FinishKeepsSound(v: Variant, s: Session, room: nat)
    requires Sound(v, s) && Legal(v, s, Finish(room))
    ensures Sound(v, Step(v, s, Finish(room)))
  {
    hide Feed, Fed, Encoded, Encode, DirectEncodable, Bare, Digit, Underway, Shift, ShiftOut;
    var o: seq<Byte> :| Written(v, s, o);
    var from, c, s' := Fed(v, IDLE, s.open), Shift(v, s.st, Direct, room), Step(v, s, Finish(room));
    TowardsDirect(v, s, o);
    ShiftUnderway(v, from, Direct, s.st, o, room);
    Assoc(Encoded(v, s.texts), Feed(v, IDLE, s.open) + o, c.out);
    Assoc(Feed(v, IDLE, s.open), o, c.out);
    if s.st.mode.Direct? {
      NoShift(v, s.st, room);
      Empty(s.out);
    } else if c.status == Ok {
      FeedIsText(v, s.open);
      EncodedNext(v, s.texts, s.open);
      FedNothing(v, IDLE);
      SettledUnderway(v, IDLE, Target(v, s'));
      Empty(s'.out);
      Empty<Byte>([]);
      assert Written(v, s', []);
    } else if c.out == [] {
      Empty(s.out);
    } else {
      assert Written(v, s', o + c.out);
    }
  }

  lemma NoShift(v: Variant, st: EncState, room: int)
    requires Valid(st) && st.mode.Direct?
    ensures Shift(v, st, Direct, room) == Call(Ok, 0, [], st)
  {
  }

  lemma StepKeepsSound(v: Variant, s: Session, e: Event)
    requires Sound(v, s) && Legal(v, s, e)
    ensures Sound(v, Step(v, s, e))
  {
    hide Sound, Legal, Step;
    match e
    case Offer(chunk) => OfferKeepsSound(v, s, chunk);
    case Draw(take, room) => DrawKeepsSound(v, s, take, room);
    case Finish(room) => FinishKeepsSound(v, s, room);
  }

  // ----- the units

  function Units(s: Session): seq<Unit> {
    Flatten(s.texts) + (s.open + s.pending)
  }

  lemma StepKeepsUnits(v: Variant, s: Session, e: Event)
    requires Valid(s.st)
    ensures Units(Step(v, s, e)) == Units(s) + Chunk(e)
  {
    hide Convert, Shift, Flatten;
    Empty(Units(s));
    match e
    case Offer(chunk) =>
      Assoc(s.open, s.pending, chunk);
      Assoc(Flatten(s.texts), s.open + s.pending, chunk);
    case Draw(take, room) =>
      var c := Convert(v, s.st, s.pending[..Shown(s, take)], room);
      assert s.pending == s.pending[..c.used] + s.pending[c.used..];
      Assoc(s.open, s.pending[..c.used], s.pending[c.used..]);
    case Finish(room) =>
      EncodedNext(v, s.texts, s.open);
      Empty(s.pending);
      Assoc(Flatten(s.texts), s.open, s.pending);
  }

  lemma {:induction false} PlayKeeps(v: Variant, s: Session, es: seq<Event>)
    requires Sound(v, s) && AllLegal(v, s, es)
    ensures Sound(v, Play(v, s, es)) && Units(Play(v, s, es)) == Units(s) + Offered(es)
    decreases |es|
  {
    hide Sound, Legal, Step, Units;
    if es == [] {
      Empty(Units(s));
    } else {
      SoundIsValid(v, s);
      StepKeepsSound(v, s, es[0]);
      StepKeepsUnits(v, s, es[0]);
      PlayKeeps(v, Step(v, s, es[0]), es[1..]);
      Assoc(Units(s), Chunk(es[0]), Offered(es[1..]));
    }
  }

  // ----- what the text survives

  lemma {:induction false} DecodeEncoded(v: Variant, st: D.DecState, texts: seq<seq<Unit>>)
    requires D.Valid(st) && st.mode.Direct?
    ensures D.Decode(v, st, Encoded(v, texts)).out == Flatten(texts)
    ensures D.Decode(v, st, Encoded(v, texts)).st.mode.Direct?
    decreases |texts|
  {
    hide Encode, D.Decode;
    if texts == [] {
      DecodeEmpty(v, st);
    } else {
      var n := |texts| - 1;
      DecodeEncoded(v, st, texts[..n]);
      DecodeEncode(v, st, texts[n]);
      DecoderRuns.DecodeSplits(v, st, Encoded(v, texts[..n]), Encode(v, texts[n]));
    }
  }

  // ----- finishing

  /** What a finish leaves behind: the texts, unless it comes behind a bare escape character. */
  lemma Finished(v: Variant, s: Session)
    requires Sound(v, s)
    ensures var all := s.out + ShiftOut(v, s.st, Direct);
            && (!Bare(v, s.st, s.open) ==> all == Encoded(v, s.texts + [s.open]))
            && (Bare(v, s.st, s.open) ==>
                  all == Encoded(v, s.texts + [s.open]) + DirectText(v, EscChar(v)) && s.pending != [])
    ensures s.pending == [] || s.half ==> !Bare(v, s.st, s.open)
  {
    hide Feed, Fed, Encoded, Encode, DirectEncodable, Bare, Digit, Underway, ShiftOut;
    var o: seq<Byte> :| Written(v, s, o);
    var t, f, from := Encoded(v, s.texts), Feed(v, IDLE, s.open), Fed(v, IDLE, s.open);
    EncodedNext(v, s.texts, s.open);
    FeedIsText(v, s.open);
    if Bare(v, s.st, s.open) {
      BareState(v, s, o);
      assert s.out + [MINUS] == (t + f) + DirectText(v, EscChar(v));
      Empty(f);
    } else {
      TowardsDirect(v, s, o);
      ShiftUnderway(v, from, Direct, s.st, o, 0);
      Assoc(t, f + o, ShiftOut(v, s.st, Direct));
      Assoc(f, o, ShiftOut(v, s.st, Direct));
    }
  }

  lemma BareState(v: Variant, s: Session, o: seq<Byte>)
    requires Written(v, s, o) && Bare(v, s.st, s.open)
    ensures o == [EscChar(v)] && s.st == BASE && s.pending != [] && !s.half
    ensures ShiftOut(v, s.st, Direct) == [MINUS] && ShiftOut(v, Fed(v, IDLE, s.open), Direct) == []
  {
    hide Feed, Fed, Encoded, DirectEncodable, Bare, Digit;
    BareExactly(v, s);
  }

  /** At any point of a session, finishing keeps the text as it is if and only if no escape character is bare. */
  lemma FinishExactly(v: Variant, es: seq<Event>, st: D.DecState)
    requires AllLegal(v, START, es) && D.Valid(st) && st.mode.Direct?
    ensures var s := Play(v, START, es);
            var all := s.out + ShiftOut(v, s.st, Direct);
            D.Decode(v, st, all).out == Flatten(s.texts) + s.open <==> !Bare(v, s.st, s.open)
  {
    hide Encoded, Flatten, D.Decode, Play, AllLegal, Bare, ShiftOut, DirectText, Sound, Units;
    StartSound(v);
    PlayKeeps(v, START, es);
    var s := Play(v, START, es);
    var texts := s.texts + [s.open];
    Finished(v, s);
    EncodedNext(v, s.texts, s.open);
    DecodeEncoded(v, st, texts);
    if Bare(v, s.st, s.open) {
      DecodeDirectText(v, st, EscChar(v), []);
      Empty(DirectText(v, EscChar(v)));
      DecodeEmpty(v, st);
      DecoderRuns.DecodeSplits(v, st, Encoded(v, texts), DirectText(v, EscChar(v)));
    }
  }

  /** Without calls to finish every session is legal, so that the condition decides about the first of them. */
  lemma {:induction false} DrawsAreLegal(v: Variant, s: Session, es: seq<Event>)
    requires Valid(s.st) && !s.half && forall i :: 0 <= i < |es| ==> !es[i].Finish?
    ensures AllLegal(v, s, es) && !Play(v, s, es).half
    decreases |es|
  {
    hide Convert, Shift;
    if es != [] {
      DrawsAreLegal(v, Step(v, s, es[0]), es[1..]);
    }
  }

  /** However often it is finished on the way, a session that keeps to the rules is decoded to all its input. */
  lemma FinishedOnTheWay(v: Variant, es: seq<Event>, st: D.DecState)
    requires AllLegal(v, START, es) && D.Valid(st) && st.mode.Direct?
    ensures var s := Play(v, START, es);
            var all := s.out + ShiftOut(v, s.st, Direct);
            && (s.pending == [] ==> all == Encoded(v, s.texts + [s.open]) && Flatten(s.texts + [s.open]) == Offered(es))
            && (s.pending == [] ==> D.Decode(v, st, all).out == Offered(es))
  {
    hide Encoded, Flatten, D.Decode, Play, AllLegal, Bare, ShiftOut, Sound, Offered;
    StartSound(v);
    PlayKeeps(v, START, es);
    var s := Play(v, START, es);
    if s.pending == [] {
      Finished(v, s);
      EncodedNext(v, s.texts, s.open);
      Empty(s.open);
      Empty(Offered(es));
      DecodeEncoded(v, st, s.texts + [s.open]);
    }
  }

  lemma StartSound(v: Variant)
    ensures Sound(v, START) && Units(START) == []
  {
    assert Written(v, START, []);
  }

  // ----- going on after half a finish

  lemma RunIsSection(v: Variant, pre: seq<Unit>, a: seq<Unit>)
    requires a != [] && forall i :: 0 <= i < |a| ==> !DirectEncodable(v, a[i])
    requires pre != [] ==> DirectEncodable(v, pre[|pre| - 1])
    ensures Encode(v, pre + a) == Encode(v, pre) + Section(v, a)
  {
    hide Section, DirectEncodable;
    EncodeConcatExactly(v, pre, a);
    assert a[..|a|] == a && a[|a|..] == [];
    Empty(Section(v, a));
  }

  lemma HalfState(v: Variant, s: Session)
    requires Sound(v, s) && s.half
    ensures s.st == BASE && TrailingRun(v, s.open) % 3 != 0
    ensures s.out + [MINUS] == Encoded(v, s.texts) + Encode(v, s.open)
  {
    hide Feed, Encoded, Encode, Fed, DirectEncodable, Digit, TrailingRun, Bare;
    FedPhase(v, s.open);
    Finished(v, s);
    EncodedNext(v, s.texts, s.open);
  }

  /** All digits of the last run are out, and its last bits were flushed within a digit. */
  lemma HalfText(v: Variant, s: Session) returns (pre: seq<Unit>, a: seq<Unit>)
    requires Sound(v, s) && s.half
    ensures s.open == pre + a && |a| % 3 != 0
    ensures s.out == Encoded(v, s.texts + [pre]) + ([EscChar(v)] + Chars(v, RunDigits(a)))
  {
    hide Encoded, Encode, RunDigits, DirectEncodable, Sound, Chars;
    HalfState(v, s);
    var n := |s.open| - TrailingRun(v, s.open);
    pre, a := s.open[..n], s.open[n..];
    assert s.open == pre + a;
    EncodedNext(v, s.texts, pre);
    RunIsSection(v, pre, a);
    HalfCut(s.out, Encoded(v, s.texts), Encode(v, pre), [EscChar(v)] + Chars(v, RunDigits(a)), MINUS);
  }

  lemma HalfCut<T>(out: seq<T>, t: seq<T>, e: seq<T>, d: seq<T>, x: T)
    requires out + [x] == t + (e + (d + [x]))
    ensures out == (t + e) + d
  {
    Assoc(t, e, d + [x]);
    Assoc(t + e, d, [x]);
    SameEnd(out, (t + e) + d, x);
  }

  lemma SameEnd<T>(a: seq<T>, b: seq<T>, x: T)
    requires a + [x] == b + [x]
    ensures a == b
  {
    assert (a + [x])[..|a|] == a && (b + [x])[..|b|] == b;
  }

  /** The rest of the input after half a finish: the digits of its first run go into the section that is open. */
  lemma HalfRest(v: Variant, w: seq<Unit>)
    ensures var k := RunLength(v, w);
            Rest(v, BASE, w) == Chars(v, RunDigits(w[..k])) + ([MINUS] + Encode(v, w[k..]))
  {
    hide Rest, Encode;
    var k := RunLength(v, w);
    assert w == w[..k] + w[k..];
    RunRest(v, BASE, w[..k], w[k..]);
    RestIsText(v, w[k..]);
    Empty(Flat(16, w[..k]));
    assert DueDigits(BASE, w[..k]) == RunDigits(w[..k]);
  }

  /** Both in one section. */
  lemma HalfDecoded(v: Variant, texts: seq<seq<Unit>>, ds: seq<nat>, tail: seq<Unit>, st: D.DecState)
    requires ds != [] && (forall i :: 0 <= i < |ds| ==> ds[i] < 64) && D.Valid(st) && st.mode.Direct?
    ensures D.Decode(v, st, Encoded(v, texts) + ([EscChar(v)] + (Chars(v, ds) + ([MINUS] + Encode(v, tail))))).out
         == Flatten(texts) + (DigitsOut(D.FRESH, ds) + tail)
  {
    hide Encoded, Encode, Flatten, D.Decode, DigitsOut, Chars;
    DecodeEncoded(v, st, texts);
    DecoderRuns.DecodeSplits(v, st, Encoded(v, texts), [EscChar(v)] + (Chars(v, ds) + ([MINUS] + Encode(v, tail))));
    DecodeSection(v, st, ds, Encode(v, tail));
    DecodeEncode(v, st, tail);
  }

  lemma HalfGoesOn(v: Variant, s: Session, w: seq<Unit>, st: D.DecState)
    requires Sound(v, s) && s.half && D.Valid(st) && st.mode.Direct?
    ensures D.Decode(v, st, s.out + Rest(v, BASE, w)).out == (Flatten(s.texts) + s.open) + w
       <==> forall i :: 0 <= i < RunLength(v, w) ==> w[i] == 0
  {
    hide Encoded, Encode, Rest, Flatten, D.Decode, Sound, RunDigits, DigitsOut, Chars, DirectEncodable;
    var pre, a := HalfText(v, s);
    var k := RunLength(v, w);
    var r, tail := w[..k], w[k..];
    var da, dr := RunDigits(a), RunDigits(r);
    HalfRest(v, w);
    CharsConcat(v, da, dr);
    HalfBytes(Encoded(v, s.texts + [pre]), [EscChar(v)], Chars(v, da), Chars(v, dr), [MINUS] + Encode(v, tail));
    HalfDecoded(v, s.texts + [pre], da + dr, tail, st);
    EncodedNext(v, s.texts, pre);
    DigitsAfterFlush(a, r);
    assert w == r + tail;
    HalfUnits(Flatten(s.texts), pre, a, r, tail, DigitsOut(D.FRESH, da + dr));
  }

  /** What follows half a finish is kept as it is if and only if its first run, if there is one, is all zeros. */
  lemma HalfExactly(v: Variant, es: seq<Event>, w: seq<Unit>, st: D.DecState)
    requires AllLegal(v, START, es) && Play(v, START, es).half && D.Valid(st) && st.mode.Direct?
    ensures var s := Play(v, START, es);
            var out := D.Decode(v, st, s.out + Rest(v, s.st, w)).out;
            out == (Flatten(s.texts) + s.open) + w <==> forall i :: 0 <= i < RunLength(v, w) ==> w[i] == 0
  {
    hide Encoded, Encode, Rest, Flatten, D.Decode, Play, AllLegal, Sound, Units, RunLength;
    StartSound(v);
    PlayKeeps(v, START, es);
    var s := Play(v, START, es);
    HalfState(v, s);
    HalfGoesOn(v, s, w, st);
  }

  lemma HalfBytes<T>(x: seq<T>, esc: seq<T>, a: seq<T>, r: seq<T>, e: seq<T>)
    ensures (x + (esc + a)) + (r + e) == x + (esc + ((a + r) + e))
  {
  }

  lemma HalfUnits<T>(f: seq<T>, pre: seq<T>, a: seq<T>, r: seq<T>, tail: seq<T>, d: seq<T>)
    ensures (f + pre) + (d + tail) == (f + (pre + a)) + (r + tail) <==> d == a + r
  {
    assert (f + (pre + a)) + (r + tail) == (f + pre) + ((a + r) + tail);
    Prepend(f + pre, d + tail, (a + r) + tail);
    Append(d, a + r, tail);
  }

  lemma Append<T>(a: seq<T>, b: seq<T>, c: seq<T>)
    ensures a + c == b + c <==> a == b
  {
    if a + c == b + c {
      assert |a| == |b| && a == (a + c)[..|a|] && b == (b + c)[..|b|];
    }
  }

  // ----- what it does not survive

  /** Finishing before the first digit of a section is out turns the escape character into an escape pair. */
  lemma FinishedTooEarly(v: Variant)
    ensures var c := Convert(v, IDLE, [0x80], 1);
            var f := Shift(v, c.st, Direct, 1);
            && c.used == 0 && f.status == Ok
            && D.Decode(v, D.DecState(Direct, 0, 0, false), c.out + f.out).out == [EscChar(v)]
  {
    var u: seq<Unit> := [0x80];
    assert !DirectEncodable(v, 0x80);
    var c := Convert(v, IDLE, u, 1);
    assert c.out == [EscChar(v)] && c.st == BASE;
    assert Shift(v, BASE, Direct, 1).out == [MINUS];
    var st := D.DecState(Direct, 0, 0, false);
    DecodeEmpty(v, st);
    DecodeDirectText(v, st, EscChar(v), []);
    assert [EscChar(v)] + [MINUS] == DirectText(v, EscChar(v)) + [];
  }

  /** One unit U+0080, from the initial and the half-finished state. */
  lemma OneUnit(v: Variant)
    ensures Convert(v, IDLE, [0x80], 3) == Call(Ok, 1, [EscChar(v)] + Chars(v, [0, 8]), EncState(Base64, 0, 1))
    ensures Convert(v, BASE, [0x80], 2) == Call(Ok, 1, Chars(v, [0, 8]), EncState(Base64, 0, 1))
  {
    hide UnitOut, UnitNext, Fits, Blocked, Chars;
    var u: seq<Unit> := [0x80];
    assert u[1..] == [];
    OneUnitOut(v);
    Empty([EscChar(v)] + Chars(v, [0, 8]));
    Empty(Chars(v, [0, 8]));
    ConvertUnit(v, IDLE, u, 3);
    ConvertUnit(v, BASE, u, 2);
  }

  lemma OneUnitOut(v: Variant)
    ensures Fits(v, IDLE, 0x80, 3) && Fits(v, BASE, 0x80, 2)
    ensures UnitOut(v, BASE, 0x80) == Chars(v, [0, 8]) && UnitOut(v, IDLE, 0x80) == [EscChar(v)] + Chars(v, [0, 8])
    ensures UnitNext(v, BASE, 0x80) == UnitNext(v, IDLE, 0x80) == EncState(Base64, 0, 1)
  {
    hide Fits, UnitOut, UnitNext;
    BaseUnit(v);
    EnterUnit(v, 0x80);
    FitsExactly(v, IDLE, 0x80, 3);
    FitsExactly(v, BASE, 0x80, 2);
  }

  lemma BaseUnit(v: Variant)
    ensures !DirectEncodable(v, 0x80)
    ensures UnitOut(v, BASE, 0x80) == Chars(v, [0, 8]) && UnitNext(v, BASE, 0x80) == EncState(Base64, 0, 1)
  {
    hide Chars;
    assert !DirectEncodable(v, 0x80);
    assert UnitDigits(BASE, 0x80) == [0, 8];
    Empty(Chars(v, [0, 8]));
  }

  /** The two ways of finishing after it. */
  lemma OneUnitFinished(v: Variant)
    ensures Shift(v, EncState(Base64, 0, 1), Direct, 1) == Call(MoreOutput, 0, Chars(v, [0]), BASE)
    ensures Shift(v, EncState(Base64, 0, 1), Direct, 2) == Call(Ok, 0, Chars(v, [0]) + [MINUS], IDLE)
  {
  }

  /** Two units U+0080, with a finish between them that stops before its `-`, are decoded as U+0080 and U+0020. */
  lemma HalfFinishedTooEarly(v: Variant)
    ensures var c := Convert(v, IDLE, [0x80], 3);
            var f := Shift(v, c.st, Direct, 1);
            var c' := Convert(v, f.st, [0x80], 2);
            var f' := Shift(v, c'.st, Direct, 2);
            && c.used == c'.used == 1 && f'.status == Ok
            && D.Decode(v, D.DecState(Direct, 0, 0, false), c.out + f.out + c'.out + f'.out).out == [0x80, 0x20]
  {
    hide *;
    var ds := [0, 8, 0, 0, 8, 0];
    var st := D.DecState(Direct, 0, 0, false);
    OneUnit(v);
    OneUnitFinished(v);
    CharsConcat(v, [0, 8], [0]);
    CharsConcat(v, [0, 8, 0], [0, 8]);
    CharsConcat(v, [0, 8, 0, 0, 8], [0]);
    assert [0, 8] + [0] == [0, 8, 0] && [0, 8, 0] + [0, 8] == [0, 8, 0, 0, 8] && [0, 8, 0, 0, 8] + [0] == ds;
    Join6([EscChar(v)], Chars(v, [0, 8]), Chars(v, [0]), Chars(v, [0, 8]), Chars(v, [0]), [MINUS]);
    DirectStart(v);
    DecodeSection(v, st, ds, []);
    SixDigits();
    Empty([MINUS]);
  }

  lemma Join6<T>(a: seq<T>, b: seq<T>, c: seq<T>, d: seq<T>, e: seq<T>, f: seq<T>)
    ensures (a + b) + c + d + (e + f) == a + ((((b + c) + d) + e) + f)
  {
  }

  lemma DirectStart(v: Variant)
    ensures D.Valid(D.DecState(Direct, 0, 0, false))
    ensures D.Decode(v, D.DecState(Direct, 0, 0, false), []).out == []
  {
  }

  lemma SixStates()
    ensures D.Valid(D.DecState(Base64, 0, 1, false)) && D.Valid(D.DecState(Base64, 128, 2, false))
    ensures D.Valid(D.DecState(Base64, 0, 3, false)) && D.Valid(D.DecState(Base64, 0, 4, false))
    ensures D.Valid(D.DecState(Base64, 32, 5, false))
    ensures D.DigitNext(D.FRESH, 0) == D.DecState(Base64, 0, 1, false)
    ensures D.DigitNext(D.DecState(Base64, 0, 1, false), 8) == D.DecState(Base64, 128, 2, false)
    ensures D.DigitNext(D.DecState(Base64, 128, 2, false), 0) == D.DecState(Base64, 0, 3, false)
    ensures D.DigitNext(D.DecState(Base64, 0, 3, false), 0) == D.DecState(Base64, 0, 4, false)
    ensures D.DigitNext(D.DecState(Base64, 0, 4, false), 8) == D.DecState(Base64, 32, 5, false)
  {
  }

  lemma SixDigits()
    ensures DigitsOut(D.FRESH, [0, 8, 0, 0, 8, 0]) == [0x80, 0x20] == DigitsOut(D.FRESH, [0, 8, 0, 0, 8, 0]) + []
  {
    hide D.DigitNext, D.DigitBits, D.Aligned, DigitsOut;
    SixStates();
    OutCons(D.FRESH, 0, [8, 0, 0, 8, 0]);
    OutCons(D.DecState(Base64, 0, 1, false), 8, [0, 0, 8, 0]);
    OutCons(D.DecState(Base64, 128, 2, false), 0, [0, 8, 0]);
    OutCons(D.DecState(Base64, 0, 3, false), 0, [8, 0]);
    OutCons(D.DecState(Base64, 0, 4, false), 8, [0]);
    OutCons(D.DecState(Base64, 32, 5, false), 0, []);
    NoDigits(D.DigitNext(D.DecState(Base64, 32, 5, false), 0));
    assert [0] + [8, 0, 0, 8, 0] == [0, 8, 0, 0, 8, 0] && [8] + [0, 0, 8, 0] == [8, 0, 0, 8, 0];
    assert [0] + [0, 8, 0] == [0, 0, 8, 0] && [0] + [8, 0] == [0, 8, 0] && [8] + [0] == [8, 0] && [0] + [] == [0];
  }
}
