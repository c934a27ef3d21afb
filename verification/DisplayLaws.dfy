/** When entries are displayed and when not, told by the events alone. */
module DisplayLaws {
  import opened Sequences
  import opened DisplayQueue
  import opened DisplayRuns

  // ----- one display

  /** Time runs out before everything that waits is displayed: some reading but the last ones needed is 2 or less. */
  predicate TooMany(q: Queue, readings: seq<int>)
    requires Counters(q)
  {
    exists k :: 0 <= k < |Waiting(q)| - 1 && OutOfTime(readings, k)
  }

  /** After `k + 1` entries no time is left; a reading that is missing counts as none. */
  predicate OutOfTime(readings: seq<int>, k: nat) {
    k >= |readings| || readings[k] <= 2
  }

  /**
    * Between `q` and `q'` the waiting entries are displayed from the front: the first one in any case, and each further
    * one as long as all readings so far are above 2. What is left waits for a callback.
    */
  predicate Displays(q: Queue, readings: seq<int>, q': Queue)
    requires Counters(q) && Counters(q')
  {
    var n := |q'.log| - |q.log|;
    && q.log <= q'.log
    && 1 <= n <= |Waiting(q)|
    && (forall i :: 0 <= i < n ==> q'.log[|q.log| + i].entry == Waiting(q)[i])
    && (forall i :: 0 <= i < n - 1 ==> !OutOfTime(readings, i))
    && (n < |Waiting(q)| ==> OutOfTime(readings, n - 1))
    && Waiting(q') == Waiting(q)[n..]
    && q'.pending == (if n < |Waiting(q)| then q.pending else [])
    && (q'.displayPending <==> n < |Waiting(q)|)
  }

  lemma TimeRunsOut(q: Queue, readings: seq<int>)
    requires Counters(q) && q.pending != []
    ensures TooMany(q, readings) <==> 1 + TimeFor(readings) < |Waiting(q)|
    ensures forall i :: 0 <= i < TimeFor(readings) ==> !OutOfTime(readings, i)
    ensures OutOfTime(readings, TimeFor(readings))
  {
    hide TimeFor;
    var t := TimeFor(readings);
    assert OutOfTime(readings, t);
    assert forall i :: 0 <= i < t ==> !OutOfTime(readings, i);
  }

  lemma TurnDisplays(q: Queue, readings: seq<int>)
    requires Counters(q) && q.displayPending && q.pending != []
    ensures var q' := Turn(q, readings);
            && Counters(q') && Displays(q, readings, q')
            && q'.callbacks == q.callbacks + (if q'.displayPending then 1 else 0)
            && (q'.displayPending <==> TooMany(q, readings))
            && q'.active == q.active && q'.loadListeners == q.loadListeners && q'.destroyed == q.destroyed
  {
    hide Turn, TimeFor, TooMany, OutOfTime, Shows;
    var n := First(|Waiting(q)|, 1 + TimeFor(readings));
    TimeRunsOut(q, readings);
    TurnShows(q, readings, n);
    ShownFront(q, n);
    var q' := Turn(q, readings);
    if n < |Waiting(q)| {
      assert q'.pending[q.next + n..] == Waiting(q)[n..];
    }
  }

  lemma ShownFront(q: Queue, n: nat)
    requires Counters(q) && n <= |Waiting(q)|
    ensures var log := q.log + Shows(q, n);
            && q.log <= log && |log| == |q.log| + n
            && forall i :: 0 <= i < n ==> log[|q.log| + i].entry == Waiting(q)[i]
  {
    assert forall i :: 0 <= i < n ==> (q.log + Shows(q, n))[|q.log| + i] == Shows(q, n)[i];
  }

  /** Activation displays at once, if no display is under way and something is waiting. */
  lemma ActivateDisplays(q: Queue, readings: seq<int>)
    requires Inv(q)
    ensures var q' := Step(q, Activate(readings));
            && Inv(q') && q'.active
            && (!q.displayPending && q.pending != [] ==>
                  && Displays(q, readings, q')
                  && q'.callbacks == q.callbacks + (if q'.displayPending then 1 else 0))
            && (q.displayPending || q.pending == [] ==> q' == q.(active := true))
  {
    hide Turn, Displays, TooMany;
    StepKeepsInv(q, Activate(readings));
    if !q.displayPending && q.pending != [] {
      var q1 := q.(active := true, displayPending := true);
      TurnDisplays(q1, readings);
      DisplaysFrame(q, q1, readings, Step(q, Activate(readings)));
    }
  }

  /** So does a callback that a display under way has requested; any other does nothing. */
  lemma IdleDisplays(q: Queue, readings: seq<int>)
    requires Inv(q)
    ensures var q' := Step(q, Idle(readings));
            && Inv(q')
            && (q.displayPending ==>
                  && Displays(q, readings, q')
                  && q'.callbacks == q.callbacks - (if q'.displayPending then 0 else 1))
            && (!q.displayPending ==> q' == q.(callbacks := if q.callbacks == 0 then 0 else q.callbacks - 1))
  {
    hide Turn, Displays, TooMany;
    StepKeepsInv(q, Idle(readings));
    if q.displayPending {
      var q1 := q.(callbacks := q.callbacks - 1);
      TurnDisplays(q1, readings);
      DisplaysFrame(q, q1, readings, Step(q, Idle(readings)));
    } else if q.callbacks > 0 {
      TurnNothing(q.(callbacks := q.callbacks - 1), readings);
    }
  }

  lemma TurnNothing(q: Queue, readings: seq<int>)
    requires Counters(q) && !q.displayPending
    ensures Turn(q, readings) == q
  {
  }

  lemma DisplaysFrame(q: Queue, q1: Queue, readings: seq<int>, q': Queue)
    requires Counters(q) && q1.pending == q.pending && q1.next == q.next && q1.displayed == q.displayed && q1.log == q.log
    requires Counters(q')
    ensures Displays(q, readings, q') == Displays(q1, readings, q') && TooMany(q, readings) == TooMany(q1, readings)
  {
    assert Waiting(q) == Waiting(q1);
  }

  // ----- when a display begins and ends

  /** The events that begin a display, or let one go on, and leave something to a callback. */
  predicate Requests(q: Queue, e: Event)
    requires Counters(q)
  {
    match e
    case Append(_) => q.active && !q.displayPending
    case Activate(readings) => !q.displayPending && TooMany(q, readings)
    case Idle(readings) => q.displayPending && TooMany(q, readings)
    case _ => false
  }

  /** The events that end one. */
  predicate Ends(q: Queue, e: Event)
    requires Counters(q)
  {
    match e
    case Init => true
    case Load => q.loadListeners > 0
    case Destroy => !q.destroyed
    case Idle(readings) => !TooMany(q, readings)
    case _ => false
  }

  /**
    * A display is under way exactly from an append while active, or an activation without time for everything, until it
    * is through or stopped; callbacks are requested for it one at a time, and each runs once.
    */
  lemma StepExactly(q: Queue, e: Event)
    requires Inv(q)
    ensures var q' := Step(q, e);
            && (q'.displayPending <==> if q.displayPending then !Ends(q, e) else Requests(q, e))
            && q'.callbacks == q.callbacks + (if Requests(q, e) then 1 else 0)
                               - (if e.Idle? && q.callbacks > 0 then 1 else 0)
            && (!q.displayPending && q'.displayPending ==> q'.active)
            && (q'.log != q.log ==> e.Load? || (e.Activate? && !q.displayPending) || (e.Idle? && q.displayPending))
  {
    hide Turn, Displays, TooMany;
    match e
    case Activate(readings) =>
      if !q.displayPending && q.pending != [] {
        var q1 := q.(active := true, displayPending := true);
        TurnDisplays(q1, readings);
        DisplaysFrame(q, q1, readings, q);
      } else if q.pending == [] {
        FewWait(q, readings);
      }
    case Idle(readings) =>
      if q.displayPending {
        var q1 := q.(callbacks := q.callbacks - 1);
        TurnDisplays(q1, readings);
        DisplaysFrame(q, q1, readings, q);
      } else if q.callbacks > 0 {
        TurnNothing(q.(callbacks := q.callbacks - 1), readings);
      }
    case _ =>
  }

  lemma FewWait(q: Queue, readings: seq<int>)
    requires Counters(q) && q.pending == []
    ensures !TooMany(q, readings)
  {
  }

  // ----- what only events decide

  /** The load listeners that are left of `n`. */
  function ListenersAfter(n: nat, es: seq<Event>): nat
    decreases |es|
  {
    if es == [] then n
    else ListenersAfter(if es[0].Init? then n + 1 else if es[0].Load? && n > 0 then n - 1 else n, es[1..])
  }

  lemma StepFlags(q: Queue, e: Event)
    requires Counters(q)
    ensures var q' := Step(q, e);
            && (q'.active <==> e.Activate? || (q.active && e != Deactivate(true)))
            && (q'.destroyed <==> q.destroyed || e == Destroy)
            && q'.loadListeners == ListenersAfter(q.loadListeners, [e])
  {
    hide Shows, TimeFor;
    assert [e][1..] == [];
  }

  lemma {:induction false} FlagsFrom(q: Queue, es: seq<Event>)
    requires Inv(q)
    ensures var q' := Play(q, es);
            && (q'.active <==>
                  || (q.active && Deactivate(true) !in es)
                  || exists i :: 0 <= i < |es| && es[i].Activate? && Deactivate(true) !in es[i..])
            && (q'.destroyed <==> q.destroyed || Destroy in es)
            && q'.loadListeners == ListenersAfter(q.loadListeners, es)
    decreases |es|
  {
    hide Step;
    if es != [] {
      var q1 := Step(q, es[0]);
      StepKeepsInv(q, es[0]);
      StepFlags(q, es[0]);
      FlagsFrom(q1, es[1..]);
      assert es == [es[0]] + es[1..] && [es[0]][1..] == [];
      LaterActivation(es);
    }
  }

  lemma LaterActivation(es: seq<Event>)
    requires es != []
    ensures (exists i :: 0 <= i < |es| && es[i].Activate? && Deactivate(true) !in es[i..])
       <==> || (es[0].Activate? && Deactivate(true) !in es[1..])
            || (exists i :: 0 <= i < |es| - 1 && es[1..][i].Activate? && Deactivate(true) !in es[1..][i..])
  {
    assert forall i :: 0 <= i < |es| - 1 ==> es[1..][i..] == es[i + 1..];
    assert es[0..] == es && es == [es[0]] + es[1..];
    if i :| 0 <= i < |es| && es[i].Activate? && Deactivate(true) !in es[i..] {
      if i > 0 {
        assert es[1..][i - 1] == es[i] && es[1..][i - 1..] == es[i..];
      }
    }
    if i :| 0 <= i < |es| - 1 && es[1..][i].Activate? && Deactivate(true) !in es[1..][i..] {
      assert es[i + 1] == es[1..][i];
    }
  }

  /** Over all runs: a browser is active from an activation to the next deactivation that finds a context. */
  lemma FlagsExactly(es: seq<Event>)
    ensures var q := Play(EMPTY, es);
            && (q.active <==> exists i :: 0 <= i < |es| && es[i].Activate? && Deactivate(true) !in es[i..])
            && (q.destroyed <==> Destroy in es)
            && q.loadListeners == ListenersAfter(0, es)
  {
    hide Play;
    FlagsFrom(EMPTY, es);
  }

  // ----- nothing is displayed while nothing asks for it

  /** No activation, and no append while the browser is active. */
  predicate Sleeps(active: bool, es: seq<Event>)
    decreases |es|
  {
    es == [] || (!es[0].Activate? && (es[0].Append? ==> !active)
                 && Sleeps(active && es[0] != Deactivate(true), es[1..]))
  }

  lemma {:induction false} StaysAsleep(q: Queue, es: seq<Event>)
    requires Inv(q) && !q.displayPending && Sleeps(q.active, es)
    ensures var q' := Play(q, es);
            && !q'.displayPending && q'.callbacks <= q.callbacks
            && (q'.log == q.log || (q'.log == [] && Load in es))
    decreases |es|
  {
    hide Step, Requests, Ends;
    if es != [] {
      var q1 := Step(q, es[0]);
      StepKeepsInv(q, es[0]);
      StepFlags(q, es[0]);
      StepExactly(q, es[0]);
      NoRequest(q, es[0]);
      StaysAsleep(q1, es[1..]);
      assert es == [es[0]] + es[1..];
      LoadEmpties(q);
    }
  }

  lemma NoRequest(q: Queue, e: Event)
    requires Counters(q) && !q.displayPending && !e.Activate? && (e.Append? ==> !q.active)
    ensures !Requests(q, e)
  {
  }

  lemma LoadEmpties(q: Queue)
    requires Counters(q)
    ensures Step(q, Load) == q || (Step(q, Load).log == [] && Step(q, Load).pending == [])
  {
  }

  lemma {:induction false} SleepsUnlessActivated(es: seq<Event>)
    ensures Sleeps(false, es) <==> forall i :: 0 <= i < |es| ==> !es[i].Activate?
  {
    if es != [] {
      SleepsUnlessActivated(es[1..]);
      assert forall i :: 1 <= i < |es| ==> es[i] == es[1..][i - 1];
    }
  }

  /** A browser that was never activated has displayed nothing and requested nothing. */
  lemma NeverActivated(es: seq<Event>)
    requires forall i :: 0 <= i < |es| ==> !es[i].Activate?
    ensures var q := Play(EMPTY, es);
            q.log == [] && q.callbacks == 0 && !q.displayPending && !q.active
  {
    hide Play;
    SleepsUnlessActivated(es);
    StaysAsleep(EMPTY, es);
    FlagsExactly(es);
  }

  /** Once it is hidden with no display under way, it displays and requests nothing until it is activated again. */
  lemma HiddenSleeps(q: Queue, es: seq<Event>)
    requires Inv(q) && !q.displayPending && forall i :: 0 <= i < |es| ==> !es[i].Activate?
    ensures var q1 := Step(q, Deactivate(true));
            && Inv(q1) && !q1.active && q1 == q.(active := false)
            && Play(q1, es).callbacks <= q.callbacks && !Play(q1, es).displayPending
            && (Play(q1, es).log == q.log || (Play(q1, es).log == [] && Load in es))
    ensures Step(q, Deactivate(false)) == q
  {
    hide Play;
    StepKeepsInv(q, Deactivate(true));
    SleepsUnlessActivated(es);
    StaysAsleep(Step(q, Deactivate(true)), es);
  }

  /** The two events that stop a display, and leave what is waiting. */
  predicate Stops(q: Queue, e: Event) {
    e.Init? || (e.Destroy? && !q.destroyed)
  }

  /** After them nothing is displayed until an activation, or an append while active, asks for it. */
  lemma StoppedSleeps(q: Queue, e: Event, es: seq<Event>)
    requires Inv(q) && Stops(q, e) && Sleeps(q.active, es)
    ensures var q1 := Step(q, e);
            && Inv(q1) && q1.log == q.log && Waiting(q1) == Waiting(q)
            && Play(q1, es).callbacks <= q.callbacks && !Play(q1, es).displayPending
            && (Play(q1, es).log == q.log || (Play(q1, es).log == [] && Load in es))
  {
    hide Play;
    StepKeepsInv(q, e);
    StaysAsleep(Step(q, e), es);
  }

  /** Callbacks left over from a display that was stopped change nothing. */
  lemma {:induction false} StaleCallbacks(q: Queue, e: Event, turns: seq<seq<int>>)
    requires Inv(q) && Stops(q, e)
    ensures Inv(Step(q, e))
    ensures var q' := Play(Step(q, e), Idles(turns));
            q'.log == q.log && q'.pending == q.pending && q'.next == q.next && !q'.displayPending
  {
    hide Play;
    StepKeepsInv(q, e);
    IdleInVain(Step(q, e), turns);
  }

  lemma {:induction false} IdleInVain(q: Queue, turns: seq<seq<int>>)
    requires Inv(q) && !q.displayPending
    ensures var q' := Play(q, Idles(turns));
            q'.log == q.log && q'.pending == q.pending && q'.next == q.next && !q'.displayPending
    decreases |turns|
  {
    hide Step;
    if turns != [] {
      StepKeepsInv(q, Idle(turns[0]));
      IdleNothing(q, turns[0]);
      IdleInVain(Step(q, Idle(turns[0])), turns[1..]);
      assert Idles(turns)[1..] == Idles(turns[1..]);
    }
  }
}
