/** A whole use of the decoder, and an encoder session read back by a decoder session. */
module DecoderSession {
  import opened Sequences
  import opened Utf7
  import opened DecoderSpec
  import opened DecoderRuns
  import opened RoundTrip
  import E = EncoderSession

  /** The caller gets more input, or offers up to `take` of its unconsumed bytes to a call. */
  datatype Event = Offer(chunk: seq<Byte>) | Draw(take: nat, room: nat)

  datatype Session = Session(st: DecState, pending: seq<Byte>, out: seq<int>)

  const START := Session(DecState(Direct, 0, 0, false), [], [])

  function Step(v: Variant, s: Session, e: Event): (s': Session)
    requires Valid(s.st)
    ensures Valid(s'.st)
  {
    match e
    case Offer(chunk) => s.(pending := s.pending + chunk)
    case Draw(take, room) =>
      var n := if take < |s.pending| then take else |s.pending|;
      var c := Convert(v, s.st, s.pending[..n], room);
      Session(c.st, s.pending[c.used..], s.out + c.out)
  }

  function Play(v: Variant, s: Session, es: seq<Event>): (s': Session)
    requires Valid(s.st)
    ensures Valid(s'.st)
    decreases |es|
  {
    if es == [] then s else Play(v, Step(v, s, es[0]), es[1..])
  }

  function Offered(es: seq<Event>): seq<Byte> {
    if es == [] then []
    else (if es[0].Offer? then es[0].chunk else []) + Offered(es[1..])
  }

  /** What a session will have written, and its final state, if `later` is all that is still to come. */
  function Due(v: Variant, s: Session, later: seq<Byte>): Text
    requires Valid(s.st)
  {
    var t := Decode(v, s.st, s.pending + later);
    Text(s.out + t.out, t.st)
  }

  lemma StepKeepsDue(v: Variant, s: Session, e: Event, later: seq<Byte>)
    requires Valid(s.st)
    ensures Due(v, Step(v, s, e), later) == Due(v, s, (if e.Offer? then e.chunk else []) + later)
  {
    hide Convert, Decode;
    if e.Offer? {
      Assoc(s.pending, e.chunk, later);
    } else {
      Empty(later);
      var n := if e.take < |s.pending| then e.take else |s.pending|;
      var shown, kept := s.pending[..n], s.pending[n..];
      var c := Convert(v, s.st, shown, e.room);
      ConvertResumes(v, s.st, shown, e.room, kept + later);
      Cut(s.pending, n, c.used, later);
      Assoc(s.out, c.out, Decode(v, c.st, s.pending[c.used..] + later).out);
    }
  }

  lemma {:induction false} PlayKeepsDue(v: Variant, s: Session, es: seq<Event>, later: seq<Byte>)
    requires Valid(s.st)
    ensures Due(v, Play(v, s, es), later) == Due(v, s, Offered(es) + later)
    decreases |es|
  {
    hide Due, Step;
    if es == [] {
      Empty(later);
    } else {
      StepKeepsDue(v, s, es[0], Offered(es[1..]) + later);
      PlayKeepsDue(v, Step(v, s, es[0]), es[1..], later);
      Assoc(if es[0].Offer? then es[0].chunk else [], Offered(es[1..]), later);
    }
  }

  /** However the input is cut and whatever the capacities, units and final state are those of one call. */
  lemma ChunksDoNotMatter(v: Variant, es: seq<Event>)
    ensures var s := Play(v, START, es);
            s.pending == [] ==> Text(s.out, s.st) == Decode(v, START.st, Offered(es))
  {
    hide Play, Decode;
    var s := Play(v, START, es);
    if s.pending == [] {
      PlayKeepsDue(v, START, es, []);
      Empty(Offered(es));
      DecodeEmpty(v, s.st);
      Empty(s.out);
      Empty(Decode(v, START.st, Offered(es)).out);
      Empty<Byte>([]);
    }
  }

  /** Any complete encoder session, read by any complete decoder session, gives back the units offered. */
  lemma StreamRoundTrip(v: Variant, writing: seq<E.Event>, rooms: seq<nat>, reading: seq<Event>)
    requires var w := E.Finish(v, E.Play(v, E.START, writing), rooms);
             w.pending == [] && w.st.mode.Direct? && Offered(reading) == w.out
    requires Play(v, START, reading).pending == []
    ensures Play(v, START, reading).out == E.Offered(writing)
    ensures Play(v, START, reading).st.mode.Direct?
  {
    hide Play, E.Play, E.Finish, Decode;
    E.StreamedText(v, writing, rooms);
    ChunksDoNotMatter(v, reading);
    DecodeEncode(v, START.st, E.Offered(writing));
  }
}
