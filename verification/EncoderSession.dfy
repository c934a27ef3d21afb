/** A whole use of the encoder: chunks offered, calls with any capacities, then calls to finish. */
module EncoderSession {
  import opened Sequences
  import opened Utf7
  import opened EncoderSpec
  import opened EncoderRuns
  import opened EncoderText

  /** The caller gets more input, or offers up to `take` of its unconsumed units to a call. */
  datatype Event = Offer(chunk: seq<Unit>) | Draw(take: nat, room: nat)

  datatype Session = Session(st: EncState, pending: seq<Unit>, out: seq<Byte>)

  const START := Session(IDLE, [], [])

  function Step(v: Variant, s: Session, e: Event): (s': Session)
    requires Valid(s.st)
    ensures Valid(s'.st)
  {
    match e
    case Offer(chunk) => s.(pending := s.pending + chunk)
    case Draw(take, room) =>
      var n := if take < |s.pending| then take else |s.pending|;
      var c := Convert(v, s.st, s.pending[..n], room);
      Session(c.st, s.pending[c.used..], s.out + c.out)
  }

  function Play(v: Variant, s: Session, es: seq<Event>): (s': Session)
    requires Valid(s.st)
    ensures Valid(s'.st)
    decreases |es|
  {
    if es == [] then s else Play(v, Step(v, s, es[0]), es[1..])
  }

  /** All units offered, in order. */
  function Offered(es: seq<Event>): seq<Unit> {
    if es == [] then []
    else (if es[0].Offer? then es[0].chunk else []) + Offered(es[1..])
  }

  /** `FinishNoBuff` called again and again, with the given capacities. */
  function Finish(v: Variant, s: Session, rooms: seq<nat>): (s': Session)
    requires Valid(s.st)
    ensures Valid(s'.st) && s'.pending == s.pending
    decreases |rooms|
  {
    if rooms == [] then s
    else
      var c := Shift(v, s.st, Direct, rooms[0]);
      Finish(v, s.(st := c.st, out := s.out + c.out), rooms[1..])
  }

  lemma StepKeepsDue(v: Variant, s: Session, e: Event, later: seq<Unit>)
    requires Valid(s.st)
    ensures var s' := Step(v, s, e);
            s.out + Rest(v, s.st, s.pending + ((if e.Offer? then e.chunk else []) + later))
            == s'.out + Rest(v, s'.st, s'.pending + later)
  {
    hide Convert, Rest;
    if e.Offer? {
      Assoc(s.pending, e.chunk, later);
    } else {
      Empty(later);
      var n := if e.take < |s.pending| then e.take else |s.pending|;
      var shown, kept := s.pending[..n], s.pending[n..];
      var c := Convert(v, s.st, shown, e.room);
      ConvertResumes(v, s.st, shown, e.room, kept + later);
      Cut(s.pending, n, c.used, later);
      Assoc(s.out, c.out, Rest(v, c.st, s.pending[c.used..] + later));
    }
  }

  /** At every moment, what is written and what is still due make up the text of all the input. */
  lemma {:induction false} PlayKeepsDue(v: Variant, s: Session, es: seq<Event>, later: seq<Unit>)
    requires Valid(s.st)
    ensures var s' := Play(v, s, es);
            s'.out + Rest(v, s'.st, s'.pending + later) == s.out + Rest(v, s.st, s.pending + (Offered(es) + later))
    decreases |es|
  {
    hide Rest, Step;
    if es == [] {
      Empty(later);
    } else {
      StepKeepsDue(v, s, es[0], Offered(es[1..]) + later);
      PlayKeepsDue(v, Step(v, s, es[0]), es[1..], later);
      Assoc(if es[0].Offer? then es[0].chunk else [], Offered(es[1..]), later);
    }
  }

  lemma {:induction false} FinishKeepsDue(v: Variant, s: Session, rooms: seq<nat>)
    requires Valid(s.st)
    ensures var s' := Finish(v, s, rooms);
            s'.out + ShiftOut(v, s'.st, Direct) == s.out + ShiftOut(v, s.st, Direct)
    decreases |rooms|
  {
    hide ShiftOut, Shift;
    if rooms != [] {
      var c := Shift(v, s.st, Direct, rooms[0]);
      ShiftResumes(v, s.st, Direct, rooms[0]);
      Assoc(s.out, c.out, ShiftOut(v, c.st, Direct));
      FinishKeepsDue(v, s.(st := c.st, out := s.out + c.out), rooms[1..]);
    }
  }

  /** However the input was cut and whatever the capacities were, a finished session has written the text. */
  lemma StreamedText(v: Variant, es: seq<Event>, rooms: seq<nat>)
    ensures var s := Finish(v, Play(v, START, es), rooms);
            s.pending == [] && s.st.mode.Direct? ==> s.out == Encode(v, Offered(es)) && s.st == IDLE
  {
    hide Play, Finish, Encode, Shift;
    var p := Play(v, START, es);
    var s := Finish(v, p, rooms);
    if s.pending == [] && s.st.mode.Direct? {
      PlayKeepsDue(v, START, es, []);
      Empty(Offered(es));
      FinishKeepsDue(v, p, rooms);
      RestIsText(v, Offered(es));
      Empty(s.out);
      Empty(Encode(v, Offered(es)));
      assert p.pending + [] == [];
    }
  }

  // ----- the caller's loops end

  /** Calls that are each offered everything, with three slots or more, consume it all. */
  lemma {:induction false} ThreeSlotsDrain(v: Variant, s: Session, es: seq<Event>)
    requires Valid(s.st)
    requires forall i :: 0 <= i < |es| ==> es[i].Draw? && es[i].room >= 3 && es[i].take >= |s.pending|
    ensures |Play(v, s, es).pending| <= (if |es| < |s.pending| then |s.pending| - |es| else 0)
    decreases |es|
  {
    hide Convert;
    if es != [] {
      if s.pending != [] {
        ThreeSlotsProgress(v, s.st, s.pending, es[0].room);
        assert s.pending[..|s.pending|] == s.pending;
      }
      ThreeSlotsDrain(v, Step(v, s, es[0]), es[1..]);
    }
  }

  /** Two calls to finish, with a slot each, are enough. */
  lemma TwoFinishes(v: Variant, s: Session, a: nat, b: nat)
    requires Valid(s.st) && a >= 1 && b >= 1
    ensures Finish(v, s, [a, b]).st == IDLE
  {
    var c := Shift(v, s.st, Direct, a);
    var s' := s.(st := c.st, out := s.out + c.out);
    var first: seq<nat>, second: seq<nat> := [a, b], [b];
    assert first[1..] == second && second[1..] == [];
    assert Finish(v, s, first) == Finish(v, s', second);
    assert Finish(v, s', second).st == Shift(v, c.st, Direct, b).st;
  }
}
