/** Every interleaving of appends, replacements, activations, loads and idle callbacks, stale ones included. */
module DisplayRuns {
  import opened Sequences
  import opened DisplayQueue

  // ----- what every step keeps

  /** A display that is under way has something to display and a callback that will do so. */
  predicate Armed(q: Queue) {
    q.displayPending ==> q.pending != [] && q.callbacks > 0
  }

  /** Nothing is left waiting in a browser that is active, loaded and not destroyed. */
  predicate Awake(q: Queue) {
    q.active && q.loadListeners == 0 && !q.destroyed && q.pending != [] ==> q.displayPending
  }

  predicate Inv(q: Queue) {
    Counters(q) && Armed(q) && Awake(q)
  }

  lemma TurnKeepsInv(q: Queue, readings: seq<int>)
    requires Counters(q) && (q.displayPending ==> q.pending != []) && Awake(q)
    ensures Inv(Turn(q, readings)) || (!q.displayPending && Turn(q, readings) == q)
  {
    hide Shows, TimeFor;
  }

  lemma StepKeepsInv(q: Queue, e: Event)
    requires Inv(q)
    ensures Inv(Step(q, e))
  {
    hide Turn, FirstIndex;
    match e
    case Idle(readings) => TurnKeepsInv(q.(callbacks := if q.callbacks == 0 then 0 else q.callbacks - 1), readings);
    case Activate(readings) =>
      if q.pending != [] && !q.displayPending {
        TurnKeepsInv(q.(active := true, displayPending := true), readings);
      }
    case _ =>
  }

  function Play(q: Queue, es: seq<Event>): (q': Queue)
    requires Inv(q)
    ensures Inv(q')
    decreases |es|
  {
    if es == [] then q else
      StepKeepsInv(q, es[0]);
      Play(Step(q, es[0]), es[1..])
  }

  /** Over all runs: index and counter agree, and no wake-up is lost. */
  lemma NoLostWakeup(es: seq<Event>)
    ensures var q := Play(EMPTY, es);
            && q.displayed == q.next
            && (q.next < |q.pending| || (q.next == 0 && q.pending == []))
            && (q.active && q.loadListeners == 0 && !q.destroyed && q.pending != [] ==> q.displayPending && q.callbacks > 0)
  {
    hide Play;
    var q := Play(EMPTY, es);
  }

  // ----- first in, first out

  function Entries(log: seq<Shown>): (es: seq<Entry>)
    ensures |es| == |log| && forall i :: 0 <= i < |log| ==> es[i] == log[i].entry
  {
    seq(|log|, i requires 0 <= i < |log| => log[i].entry)
  }

  /** What was displayed since the last load and what is waiting, in order. */
  function History(q: Queue): seq<Entry>
    requires Counters(q)
  {
    Entries(q.log) + Waiting(q)
  }

  /** A run with what was appended since the last load, and the replacements that reached each entry, in order. */
  datatype Run = Run(q: Queue, appended: seq<Entry>, hits: seq<seq<Message>>)

  /**
    * A replacement reaches the first waiting entry with its remote ID, provided no entry that was displayed since the
    * queue was last empty has the ID too. It reaches no displayed entry.
    */
  predicate Reaches(q: Queue, msg: Message, i: nat)
    requires Counters(q)
  {
    && msg.remoteId != "" && |q.log| <= i < |History(q)| && History(q)[i].msg.remoteId == msg.remoteId
    && (forall j :: |q.log| <= j < i ==> History(q)[j].msg.remoteId != msg.remoteId)
    && (forall j :: 0 <= j < q.next ==> q.pending[j].msg.remoteId != msg.remoteId)
  }

  function Hits(q: Queue, hits: seq<seq<Message>>, msg: Message): (hits': seq<seq<Message>>)
    requires Counters(q)
    ensures |hits'| == |hits|
    ensures forall i :: 0 <= i < |hits| ==> hits'[i] == if Reaches(q, msg, i) then hits[i] + [msg] else hits[i]
  {
    seq(|hits|, i requires 0 <= i < |hits| => if Reaches(q, msg, i) then hits[i] + [msg] else hits[i])
  }

  function Record(r: Run, e: Event): Run
    requires Counters(r.q)
  {
    var q := Step(r.q, e);
    match e
    case Append(entry) => Run(q, r.appended + [entry], r.hits + [[]])
    case Replace(msg) => Run(q, r.appended, Hits(r.q, r.hits, msg))
    case Load => if r.q.loadListeners == 0 then Run(q, r.appended, r.hits) else Run(q, [], [])
    case _ => Run(q, r.appended, r.hits)
  }

  /** An entry with the message of the last replacement that reached it, if any did. */
  function Current(entry: Entry, hits: seq<Message>): Entry {
    if hits == [] then entry else entry.(msg := hits[|hits| - 1])
  }

  /** Everything appended is in the history exactly once, at its place, with its current message. */
  predicate Fifo(r: Run) {
    && Inv(r.q)
    && |History(r.q)| == |r.appended| == |r.hits|
    && forall i :: 0 <= i < |r.appended| ==> History(r.q)[i] == Current(r.appended[i], r.hits[i])
  }

  /** Displaying moves entries from the waiting ones to the displayed ones. */
  lemma TurnKeepsHistory(q: Queue, readings: seq<int>)
    requires Counters(q) && (q.displayPending ==> q.pending != [])
    ensures Counters(Turn(q, readings)) && History(Turn(q, readings)) == History(q)
  {
    hide TimeFor;
    if q.displayPending {
      var left := |q.pending| - q.next;
      var k := First(left, 1 + TimeFor(readings));
      var shown := Entries(Shows(q, k));
      assert Entries(q.log + Shows(q, k)) == Entries(q.log) + shown;
      assert Waiting(q) == shown + q.pending[q.next + k..];
      Assoc(Entries(q.log), shown, q.pending[q.next + k..]);
    }
  }

  lemma HistoryFrame(q: Queue, q': Queue)
    requires Counters(q) && q'.pending == q.pending && q'.next == q.next && q'.displayed == q.displayed && q'.log == q.log
    ensures History(q') == History(q)
  {
  }

  lemma AppendGrowsHistory(q: Queue, entry: Entry)
    requires Inv(q)
    ensures Inv(Step(q, Append(entry))) && History(Step(q, Append(entry))) == History(q) + [entry]
  {
    StepKeepsInv(q, Append(entry));
    var q' := q.(pending := q.pending + [entry]);
    assert Waiting(q') == Waiting(q) + [entry];
    Assoc(Entries(q.log), Waiting(q), [entry]);
    HistoryFrame(q', Step(q, Append(entry)));
  }

  /** A replacement changes the message of the entry it reaches, and nothing else. */
  lemma ReplaceInHistory(q: Queue, msg: Message)
    requires Inv(q)
    ensures var q' := Replaced(q, msg);
            && Counters(q') && q'.log == q.log && |History(q')| == |History(q)|
            && forall i :: 0 <= i < |History(q)| ==>
                 History(q')[i] == if Reaches(q, msg, i) then History(q)[i].(msg := msg) else History(q)[i]
  {
    hide Entries;
    var k := FirstIndex(q.pending, msg.remoteId);
    var n := |q.log|;
    assert forall i :: n <= i < |History(q)| ==> History(q)[i] == q.pending[i - n + q.next];
    forall i | 0 <= i < |History(q)|
      ensures Reaches(q, msg, i) <==> msg.remoteId != "" && k < |q.pending| && k >= q.next && i == n + k - q.next
    {
      ReachesFirst(q, msg, i, k);
    }
  }

  lemma ReachesFirst(q: Queue, msg: Message, i: nat, k: nat)
    requires Inv(q) && k == FirstIndex(q.pending, msg.remoteId) && i < |History(q)|
    ensures Reaches(q, msg, i)
       <==> msg.remoteId != "" && k < |q.pending| && k >= q.next && i == |q.log| + k - q.next
  {
    hide Entries, FirstIndex;
    var n := |q.log|;
    assert forall j :: n <= j < |History(q)| ==> History(q)[j] == q.pending[j - n + q.next];
    if Reaches(q, msg, i) {
      var m := i - n + q.next;
      assert q.pending[m].msg.remoteId == msg.remoteId;
      forall j | 0 <= j < m ensures q.pending[j].msg.remoteId != msg.remoteId {
        if j >= q.next {
          assert History(q)[n + j - q.next] == q.pending[j];
        }
      }
    }
  }

  lemma RecordReplace(r: Run, msg: Message)
    requires Fifo(r)
    ensures Fifo(Record(r, Replace(msg)))
  {
    hide Reaches, History, Replaced;
    StepKeepsInv(r.q, Replace(msg));
    ReplaceInHistory(r.q, msg);
  }

  lemma RecordKeepsFifo(r: Run, e: Event)
    requires Fifo(r)
    ensures Fifo(Record(r, e))
  {
    hide Turn, History, Replaced;
    var q := r.q;
    StepKeepsInv(q, e);
    match e
    case Append(entry) => AppendGrowsHistory(q, entry);
    case Replace(msg) => RecordReplace(r, msg);
    case Idle(readings) =>
      if q.callbacks > 0 {
        TurnKeepsHistory(q.(callbacks := q.callbacks - 1), readings);
        HistoryFrame(q, q.(callbacks := q.callbacks - 1));
      }
    case Activate(readings) =>
      HistoryFrame(q, q.(active := true));
      HistoryFrame(q, q.(active := true, displayPending := true));
      if q.pending != [] && !q.displayPending {
        TurnKeepsHistory(q.(active := true, displayPending := true), readings);
      }
    case Load =>
      if q.loadListeners > 0 {
        assert History(Step(q, Load)) == [] by { EmptyHistory(Step(q, Load)); }
      }
    case Deactivate(_) => HistoryFrame(q, Step(q, e));
    case Init => HistoryFrame(q, Step(q, e));
    case Destroy => HistoryFrame(q, Step(q, e));
  }

  lemma EmptyHistory(q: Queue)
    requires q.pending == [] && q.log == [] && Counters(q)
    ensures History(q) == []
  {
  }

  function PlayRecord(r: Run, es: seq<Event>): (r': Run)
    requires Fifo(r)
    ensures Fifo(r')
    decreases |es|
  {
    if es == [] then r else
      RecordKeepsFifo(r, es[0]);
      PlayRecord(Record(r, es[0]), es[1..])
  }

  lemma {:induction false} RecordIsRun(r: Run, es: seq<Event>)
    requires Fifo(r)
    ensures PlayRecord(r, es).q == Play(r.q, es)
    decreases |es|
  {
    hide Reaches, History, Step;
    if es != [] {
      RecordKeepsFifo(r, es[0]);
      StepKeepsInv(r.q, es[0]);
      assert Record(r, es[0]).q == Step(r.q, es[0]);
      RecordIsRun(Record(r, es[0]), es[1..]);
    }
  }

  /**
    * Over all runs, what was appended since the last load is displayed once and in order, with the message of the last
    * replacement that reached it while it was waiting, or else unchanged.
    */
  lemma DisplayIsFifo(es: seq<Event>)
    ensures var r := PlayRecord(Run(EMPTY, [], []), es);
            var q := Play(EMPTY, es);
            && |q.log| + |Waiting(q)| == |r.appended| == |r.hits|
            && (forall i :: 0 <= i < |q.log| ==> q.log[i].entry == Current(r.appended[i], r.hits[i]))
            && (q.pending == [] ==> |q.log| == |r.appended|)
  {
    hide Play, PlayRecord, Current;
    EmptyHistory(EMPTY);
    var r := PlayRecord(Run(EMPTY, [], []), es);
    RecordIsRun(Run(EMPTY, [], []), es);
    forall i | 0 <= i < |r.q.log| ensures r.q.log[i].entry == Current(r.appended[i], r.hits[i]) {
      assert History(r.q)[i] == r.q.log[i].entry;
    }
  }

  // ----- single steps

  /** Except by a load, the log only grows; scrolling is left on exactly for an entry that empties the queue. */
  lemma StepGrowsLog(q: Queue, e: Event)
    requires Inv(q) && !(e.Load? && q.loadListeners > 0)
    ensures var q' := Step(q, e);
            && q.log <= q'.log
            && forall i :: |q.log| <= i < |q'.log| ==>
                 (!q'.log[i].noAutoScroll <==> i == |q'.log| - 1 && q'.pending == [])
  {
    hide TimeFor, FirstIndex;
  }

  /** An entry that is waiting is reached by the replacement of its remote ID, unless one displayed shares the ID. */
  lemma ReplaceExactly(q: Queue, msg: Message, i: nat)
    requires Inv(q) && msg.remoteId != "" && q.next <= i < |q.pending| && q.pending[i].msg.remoteId == msg.remoteId
    requires forall j :: q.next <= j < i ==> q.pending[j].msg.remoteId != msg.remoteId
    ensures (forall j :: 0 <= j < q.next ==> q.pending[j].msg.remoteId != msg.remoteId)
       ==> Replaced(q, msg) == q.(pending := q.pending[i := q.pending[i].(msg := msg)])
    ensures (exists j :: 0 <= j < q.next && q.pending[j].msg.remoteId == msg.remoteId)
       ==> Replaced(q, msg) == q
  {
    var k := FirstIndex(q.pending, msg.remoteId);
  }

  const REPLACEMENT := Message("id", "new")

  function Twice(): seq<Entry> {
    [Entry(Message("id", "first"), false, false), Entry(Message("id", "second"), false, false)]
  }

  /** A run in which a waiting entry is not replaced, because one just displayed has the same remote ID. */
  lemma ReplaceMisses()
    ensures var q := Play(EMPTY, [Activate([]), Append(Twice()[0]), Append(Twice()[1]), Idle([])]);
            && Waiting(q) == [Twice()[1]] && Waiting(q)[0].msg.remoteId == REPLACEMENT.remoteId
            && Step(q, Replace(REPLACEMENT)) == q
  {
    var a, b := Twice()[0], Twice()[1];
    var e0, e1: seq<Event>, e2: seq<Event>, e3: seq<Event> :=
      [Activate([]), Append(a), Append(b), Idle([])], [Append(a), Append(b), Idle([])], [Append(b), Idle([])], [Idle([])];
    var q1 := Step(EMPTY, Activate([]));
    var q2 := Step(q1, Append(a));
    var q3 := Step(q2, Append(b));
    var q4 := Step(q3, Idle([]));
    StepKeepsInv(EMPTY, Activate([]));
    StepKeepsInv(q1, Append(a));
    StepKeepsInv(q2, Append(b));
    StepKeepsInv(q3, Idle([]));
    assert e0[1..] == e1 && e1[1..] == e2 && e2[1..] == e3 && e3[1..] == [];
    assert Play(EMPTY, e0) == Play(q1, e1) == Play(q2, e2) == Play(q3, e3) == Play(q4, []) == q4;
    assert q3.pending == Twice() && q4.pending == Twice() && q4.next == 1;
  }

  // ----- the queue drains

  function Idles(turns: seq<seq<int>>): (es: seq<Event>)
    ensures |es| == |turns| && forall i :: 0 <= i < |turns| ==> es[i] == Idle(turns[i])
  {
    seq(|turns|, i requires 0 <= i < |turns| => Idle(turns[i]))
  }

  lemma IdleShows(q: Queue, readings: seq<int>)
    requires Inv(q) && q.displayPending
    ensures var q' := Step(q, Idle(readings));
            && Inv(q') && History(q') == History(q)
            && |Waiting(q')| < |Waiting(q)| && (q'.displayPending <==> q'.pending != [])
  {
    hide TimeFor, Shows, History;
    StepKeepsInv(q, Idle(readings));
    var q0 := q.(callbacks := q.callbacks - 1);
    TurnKeepsHistory(q0, readings);
    HistoryFrame(q, q0);
  }

  /** Once a display is under way, as many callbacks as there are entries display them all, however slow they are. */
  lemma {:induction false} CallbacksDrain(q: Queue, turns: seq<seq<int>>)
    requires Inv(q) && (q.displayPending || q.pending == []) && |turns| >= |Waiting(q)|
    ensures var q' := Play(q, Idles(turns));
            q'.pending == [] && Entries(q'.log) == Entries(q.log) + Waiting(q)
    decreases |turns|
  {
    hide Turn, Entries;
    if turns == [] {
      Empty(Entries(q.log));
    } else {
      assert Idles(turns)[1..] == Idles(turns[1..]);
      var q1 := Step(q, Idle(turns[0]));
      StepKeepsInv(q, Idle(turns[0]));
      if q.displayPending {
        IdleShows(q, turns[0]);
      } else {
        IdleNothing(q, turns[0]);
      }
      CallbacksDrain(q1, turns[1..]);
    }
  }

  lemma IdleNothing(q: Queue, readings: seq<int>)
    requires Counters(q) && !q.displayPending
    ensures var q' := Step(q, Idle(readings));
            q'.pending == q.pending && q'.next == q.next && q'.log == q.log && !q'.displayPending
  {
  }

  /** Events that neither reload nor end a browser. */
  predicate Ordinary(e: Event) {
    !e.Init? && !e.Load? && !e.Destroy?
  }

  function Callbacks(es: seq<Event>): nat {
    if es == [] then 0 else (if es[0].Idle? then 1 else 0) + Callbacks(es[1..])
  }

  /** The first `goal` entries are displayed, or a display is under way that will get to them. */
  predicate Heading(q: Queue, goal: nat)
    requires Counters(q)
  {
    goal <= |History(q)| && (q.displayPending || |q.log| >= goal)
  }

  lemma StepKeepsHeading(q: Queue, e: Event, goal: nat)
    requires Inv(q) && Ordinary(e) && Heading(q, goal)
    ensures var q' := Step(q, e);
            && Inv(q') && Heading(q', goal) && q.log <= q'.log
            && (e.Idle? && |q.log| < goal ==> |q.log| < |q'.log|)
  {
    hide Turn, FirstIndex, Replaced, Entries;
    StepKeepsInv(q, e);
    StepGrowsLog(q, e);
    if q.displayPending {
      match e
      case Append(entry) => AppendGrowsHistory(q, entry);
      case Replace(msg) => ReplaceInHistory(q, msg); ReplacedPends(q, msg);
      case Idle(readings) => IdleShows(q, readings);
      case Activate(_) => HistoryFrame(q, Step(q, e));
      case Deactivate(_) => HistoryFrame(q, Step(q, e));
    }
  }

  lemma ReplacedPends(q: Queue, msg: Message)
    ensures Replaced(q, msg).displayPending == q.displayPending
  {
  }

  lemma {:induction false} CallbacksReach(q: Queue, es: seq<Event>, goal: nat)
    requires Inv(q) && Heading(q, goal) && forall i :: 0 <= i < |es| ==> Ordinary(es[i])
    ensures q.log <= Play(q, es).log && |Play(q, es).log| >= First(goal, |q.log| + Callbacks(es))
    decreases |es|
  {
    hide Step, Heading, Ordinary;
    if es != [] {
      StepKeepsHeading(q, es[0], goal);
      CallbacksReach(Step(q, es[0]), es[1..], goal);
    } else {
      assert Callbacks(es) == 0;
    }
  }

  /**
    * Whatever is appended, replaced, shown or hidden in between, a display under way gets through everything that was
    * waiting within as many callbacks as there were entries.
    */
  lemma InterleavedDrain(q: Queue, es: seq<Event>)
    requires Inv(q) && q.displayPending && Callbacks(es) >= |Waiting(q)|
    requires forall i :: 0 <= i < |es| ==> Ordinary(es[i])
    ensures q.log <= Play(q, es).log && |Play(q, es).log| >= |q.log| + |Waiting(q)|
  {
    hide Play, Ordinary;
    CallbacksReach(q, es, |History(q)|);
  }
}
