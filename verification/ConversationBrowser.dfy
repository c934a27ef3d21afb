/** The part of `MozConversationBrowser` that queues messages and displays them in chunks. */
module ConversationBrowser {
  import opened DisplayQueue
  import opened Options

  class MozConversationBrowser {
    var pendingMessages: seq<Entry>
    var nextPendingMessageIndex: nat
    var pendingMessagesDisplayed: nat
    var messageDisplayPending: bool
    var destroyed: bool
    /** `browsingContext.isActive`. */
    var contextActive: bool
    /** The load listeners that `init` has registered and that have not run yet. */
    var loadListeners: nat
    /** Idle callbacks requested and not run yet. */
    var idleCallbacks: nat
    ghost var log: seq<Shown>

    ghost function State(): Queue
      reads this
    {
      Queue(pendingMessages, nextPendingMessageIndex, pendingMessagesDisplayed, messageDisplayPending,
            contextActive, loadListeners, destroyed, idleCallbacks, log)
    }

    /** `connectedCallback`. */
    constructor ()
      ensures State() == EMPTY
    {
      pendingMessages, nextPendingMessageIndex, pendingMessagesDisplayed := [], 0, 0;
      messageDisplayPending, destroyed, contextActive := false, false, false;
      loadListeners, idleCallbacks, log := 0, 0, [];
    }

    method Init()
      requires Counters(State())
      modifies this
      ensures State() == Step(old(State()), DisplayQueue.Init)
    {
      messageDisplayPending := false;
      loadListeners := loadListeners + 1;
    }

    /** A load listener runs; a load event runs all that are registered, one after the other, and each only once. */
    method OnLoad()
      requires Counters(State())
      modifies this
      ensures State() == Step(old(State()), Load)
    {
      if loadListeners == 0 {
        return;
      }
      loadListeners := loadListeners - 1;
      messageDisplayPending := false;
      pendingMessages := [];
      nextPendingMessageIndex := 0;
      pendingMessagesDisplayed := 0;
      log := [];
    }

    method Destroy()
      requires Counters(State())
      modifies this
      ensures State() == Step(old(State()), DisplayQueue.Destroy)
    {
      if destroyed {
        return;
      }
      destroyed := true;
      messageDisplayPending := false;
    }

    /** The setter of `isActive`; `readings` are those of `timeRemaining`, should it display anything. */
    method SetIsActive(value: bool, hasContext: bool, readings: seq<int>)
      requires value ==> hasContext
      requires Counters(State())
      modifies this
      ensures State() == Step(old(State()), if value then Activate(readings) else Deactivate(hasContext))
    {
      if !value && !hasContext {
        return;
      }
      contextActive := value;
      if value && |pendingMessages| != 0 {
        StartDisplayingPendingMessages(false, readings);
      }
    }

    method AppendMessage(msg: Message, context: bool, firstUnread: bool)
      requires Counters(State())
      modifies this
      ensures State() == Step(old(State()), Append(Entry(msg, context, firstUnread)))
    {
      pendingMessages := pendingMessages + [Entry(msg, context, firstUnread)];
      if contextActive {
        StartDisplayingPendingMessages(true, []);
      }
    }

    method ReplaceMessage(msg: Message)
      requires Counters(State())
      modifies this
      ensures State() == Step(old(State()), Replace(msg))
    {
      if msg.remoteId == "" {
        return;
      }
      if messageDisplayPending || |pendingMessages| != 0 {
        var pendingIndex := FirstIndex(pendingMessages, msg.remoteId);
        if pendingIndex < |pendingMessages| && pendingIndex >= nextPendingMessageIndex {
          pendingMessages := pendingMessages[pendingIndex := pendingMessages[pendingIndex].(msg := msg)];
        }
      }
    }

    method StartDisplayingPendingMessages(delayed: bool, readings: seq<int>)
      requires Counters(State())
      modifies this
      ensures State() == Start(old(State()), delayed, readings)
    {
      if messageDisplayPending {
        return;
      }
      messageDisplayPending := true;
      if delayed {
        idleCallbacks := idleCallbacks + 1;
      } else {
        DisplayPendingMessages(readings);
      }
    }

    method GetNextPendingMessage() returns (result: Option<Entry>)
      requires nextPendingMessageIndex <= |pendingMessages|
      modifies `pendingMessages, `nextPendingMessageIndex
      ensures old(nextPendingMessageIndex == |pendingMessages|) ==>
                result == None && pendingMessages == old(pendingMessages)
                && nextPendingMessageIndex == old(nextPendingMessageIndex)
      ensures old(nextPendingMessageIndex < |pendingMessages|) ==>
                result == Some(old(pendingMessages[nextPendingMessageIndex]))
      ensures old(nextPendingMessageIndex + 1 < |pendingMessages|) ==>
                pendingMessages == old(pendingMessages) && nextPendingMessageIndex == old(nextPendingMessageIndex) + 1
      ensures old(nextPendingMessageIndex + 1 == |pendingMessages|) ==>
                pendingMessages == [] && nextPendingMessageIndex == 0
    {
      var length := |pendingMessages|;
      if nextPendingMessageIndex == length {
        return None;
      }
      result := Some(pendingMessages[nextPendingMessageIndex]);
      nextPendingMessageIndex := nextPendingMessageIndex + 1;
      if nextPendingMessageIndex == length {
        pendingMessages := [];
        nextPendingMessageIndex := 0;
      }
    }

    method GetPendingMessagesCount() returns (n: nat)
      ensures n == |pendingMessages|
    {
      n := |pendingMessages|;
    }

    /** An idle callback runs. */
    method OnIdle(readings: seq<int>)
      requires Counters(State())
      modifies this
      ensures State() == Step(old(State()), Idle(readings))
    {
      if idleCallbacks != 0 {
        idleCallbacks := idleCallbacks - 1;
        DisplayPendingMessages(readings);
      }
    }

    /** `readings` are the values of `timeRemaining` in turn; a missing one counts as no time. */
    method DisplayPendingMessages(readings: seq<int>)
      requires Counters(State())
      modifies this
      ensures State() == Turn(old(State()), readings)
    {
      if !messageDisplayPending {
        return;
      }
      hide Shows, Turn, TimeFor;
      var max := GetPendingMessagesCount();
      ghost var q := State();
      ghost var left := |q.pending| - q.next;
      var r := 0;
      while true
        invariant r <= left && r <= TimeFor(readings)
        invariant pendingMessagesDisplayed == q.next + r && log == q.log + Shows(q, r)
        invariant r < left ==> pendingMessages == q.pending && nextPendingMessageIndex == q.next + r
        invariant r == left ==> pendingMessages == [] && nextPendingMessageIndex == 0
        decreases left - r
        modifies `pendingMessages, `nextPendingMessageIndex, `pendingMessagesDisplayed, `log
      {
        var msg := GetNextPendingMessage();
        if msg.None? {
          break;
        }
        ShowsNext(q, r);
        pendingMessagesDisplayed := pendingMessagesDisplayed + 1;
        DisplayMessage(msg.value, pendingMessagesDisplayed < max);
        var timeRemaining := if r < |readings| then readings[r] else 0;
        r := r + 1;
        if timeRemaining <= 2 {
          break;
        }
      }
      TurnShows(q, readings, r);

      if pendingMessagesDisplayed < max {
        idleCallbacks := idleCallbacks + 1;
        return;
      }
      messageDisplayPending := false;
      pendingMessagesDisplayed := 0;
    }

    /** `displayMessage`: rendering is not part of this model. */
    method DisplayMessage(entry: Entry, noAutoScroll: bool)
      modifies `log
      ensures log == old(log) + [Shown(entry, noAutoScroll)]
    {
      log := log + [Shown(entry, noAutoScroll)];
    }
  }
}
