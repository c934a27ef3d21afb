/** The queue of messages a conversation browser has still to display, as a transition system. */
module DisplayQueue {
  import opened Sequences

  /** A message; the empty remote ID stands for none. */
  datatype Message = Message(remoteId: string, text: string)

  datatype Entry = Entry(msg: Message, context: bool, firstUnread: bool)

  /** One call of `displayMessage`. */
  datatype Shown = Shown(entry: Entry, noAutoScroll: bool)

  /**
    * The fields that steer the display, the load listeners registered and the idle callbacks requested that have not
    * run yet, and what was displayed since a load listener last ran.
    */
  datatype Queue = Queue(
    pending: seq<Entry>, next: nat, displayed: nat, displayPending: bool,
    active: bool, loadListeners: nat, destroyed: bool, callbacks: nat, log: seq<Shown>)

  const EMPTY := Queue([], 0, 0, false, false, 0, false, 0, [])

  /** What holds of the array, its index and the separate counter whenever no callback is running. */
  predicate Counters(q: Queue) {
    && q.displayed == q.next
    && (q.next < |q.pending| || (q.next == 0 && q.pending == []))
  }

  /** The entries still to be displayed. */
  function Waiting(q: Queue): seq<Entry>
    requires Counters(q)
  {
    q.pending[q.next..]
  }

  function First(m: nat, n: nat): nat {
    if m < n then m else n
  }

  // ----- displaying

  /** How many readings of `timeRemaining` leave time for one more message. */
  function TimeFor(readings: seq<int>): (n: nat)
    ensures n <= |readings|
    ensures forall i :: 0 <= i < n ==> readings[i] > 2
    ensures n < |readings| ==> readings[n] <= 2
  {
    if readings == [] || readings[0] <= 2 then 0 else 1 + TimeFor(readings[1..])
  }

  /** The next `k` entries, as displayed: scrolling is left on only for the one that empties the queue. */
  function Shows(q: Queue, k: nat): (shown: seq<Shown>)
    requires q.next + k <= |q.pending|
    ensures |shown| == k
  {
    seq(k, i requires 0 <= i < k => Shown(q.pending[q.next + i], q.next + i + 1 < |q.pending|))
  }

  lemma ShowsNext(q: Queue, k: nat)
    ensures q.next <= |q.pending| ==> Shows(q, 0) == []
    ensures q.next + k < |q.pending| ==>
              q.log + Shows(q, k + 1)
              == q.log + Shows(q, k) + [Shown(q.pending[q.next + k], q.next + k + 1 < |q.pending|)]
  {
    if q.next + k < |q.pending| {
      Assoc(q.log, Shows(q, k), [Shown(q.pending[q.next + k], q.next + k + 1 < |q.pending|)]);
      assert Shows(q, k + 1) == Shows(q, k) + [Shown(q.pending[q.next + k], q.next + k + 1 < |q.pending|)];
    }
  }

  /** `displayPendingMessages`: at least one entry, then as many as there is time for. */
  function Turn(q: Queue, readings: seq<int>): Queue
    requires Counters(q)
  {
    if !q.displayPending then q
    else
      var left := |q.pending| - q.next;
      var k := First(left, 1 + TimeFor(readings));
      var log := q.log + Shows(q, k);
      if k == left then q.(pending := [], next := 0, displayed := 0, displayPending := false, log := log)
      else q.(next := q.next + k, displayed := q.next + k, callbacks := q.callbacks + 1, log := log)
  }

  lemma TurnShows(q: Queue, readings: seq<int>, k: nat)
    requires Counters(q) && q.displayPending && k == First(|q.pending| - q.next, 1 + TimeFor(readings))
    ensures var log := q.log + Shows(q, k);
            Turn(q, readings)
            == if k == |q.pending| - q.next
               then q.(pending := [], next := 0, displayed := 0, displayPending := false, log := log)
               else q.(next := q.next + k, displayed := q.next + k, callbacks := q.callbacks + 1, log := log)
  {
  }

  /** `startDisplayingPendingMessages`. */
  function Start(q: Queue, delayed: bool, readings: seq<int>): Queue
    requires Counters(q)
  {
    if q.displayPending then q
    else if delayed then q.(displayPending := true, callbacks := q.callbacks + 1)
    else Turn(q.(displayPending := true), readings)
  }

  // ----- everything that can happen between callbacks

  datatype Event =
    | Append(entry: Entry)
    | Replace(msg: Message)
    | Activate(readings: seq<int>)
    | Deactivate(hasContext: bool)
    | Idle(readings: seq<int>)
    | Init
    | Load
    | Destroy

  /** The index of the first entry with a remote ID, or the length. */
  function FirstIndex(pending: seq<Entry>, id: string): (i: nat)
    ensures i <= |pending|
    ensures forall j :: 0 <= j < i ==> pending[j].msg.remoteId != id
    ensures i < |pending| ==> pending[i].msg.remoteId == id
  {
    if pending == [] || pending[0].msg.remoteId == id then 0 else 1 + FirstIndex(pending[1..], id)
  }

  function Replaced(q: Queue, msg: Message): Queue {
    var i := FirstIndex(q.pending, msg.remoteId);
    if msg.remoteId == "" || !(q.displayPending || q.pending != []) then q
    else if i < |q.pending| && i >= q.next then q.(pending := q.pending[i := q.pending[i].(msg := msg)])
    else q
  }

  function Step(q: Queue, e: Event): Queue
    requires Counters(q)
  {
    match e
    case Append(entry) =>
      var q' := q.(pending := q.pending + [entry]);
      if q.active then Start(q', true, []) else q'
    case Replace(msg) => Replaced(q, msg)
    case Activate(readings) =>
      var q' := q.(active := true);
      if q.pending != [] then Start(q', false, readings) else q'
    case Deactivate(hasContext) => if hasContext then q.(active := false) else q
    case Idle(readings) => if q.callbacks == 0 then q else Turn(q.(callbacks := q.callbacks - 1), readings)
    case Init => q.(displayPending := false, loadListeners := q.loadListeners + 1)
    case Load =>
      if q.loadListeners == 0 then q
      else
        q.(pending := [], next := 0, displayed := 0, displayPending := false,
           loadListeners := q.loadListeners - 1, log := [])
    case Destroy => if q.destroyed then q else q.(destroyed := true, displayPending := false)
  }
}
