/** Calls that stop early lose and repeat nothing; the encoding as a text over maximal runs. */
module EncoderRuns {
  import opened Sequences
  import opened Utf7
  import opened EncoderSpec

  // ----- resumption

  /** A mode change that stops early is completed by asking for it again. */
  lemma ShiftResumes(v: Variant, st: EncState, m: Mode, room: int)
    requires Valid(st)
    ensures var c := Shift(v, st, m, room);
            && ShiftOut(v, st, m) == c.out + ShiftOut(v, c.st, m)
            && Shifted(st, m) == Shifted(c.st, m)
            && (c.status == Ok <==> c.st.mode == m)
  {
  }

  lemma RestUnfold(v: Variant, st: EncState, u: seq<Unit>, later: seq<Unit>)
    requires Valid(st) && u != []
    ensures Rest(v, st, u + later) == UnitOut(v, st, u[0]) + Rest(v, UnitNext(v, st, u[0]), u[1..] + later)
  {
    assert (u + later)[1..] == u[1..] + later;
  }

  /** A mode change on the way to the next unit may already have begun, without changing what is due. */
  lemma BlockedResumes(v: Variant, st: EncState, u: seq<Unit>, room: int)
    requires Valid(st) && u != []
    ensures var c := Blocked(v, st, u[0], room); Rest(v, st, u) == c.out + Rest(v, c.st, u)
  {
    hide Emit, DirectEncodable;
    var m := ModeOf(v, u[0]);
    var c := Blocked(v, st, u[0], room);
    ShiftResumes(v, st, m, room);
    Assoc(c.out, ShiftOut(v, c.st, m), Emit(v, Shifted(st, m), u[0]));
    Assoc(c.out, UnitOut(v, c.st, u[0]), Rest(v, UnitNext(v, st, u[0]), u[1..]));
  }

  lemma ConvertUnit(v: Variant, st: EncState, u: seq<Unit>, room: int)
    requires Valid(st) && u != []
    ensures var o := UnitOut(v, st, u[0]);
            Convert(v, st, u, room)
            == if Fits(v, st, u[0], room) then After(1, o, Convert(v, UnitNext(v, st, u[0]), u[1..], room - |o|))
               else Blocked(v, st, u[0], room)
  {
    hide UnitOut, UnitNext, Fits, Blocked;
  }

  lemma ConvertNothing(v: Variant, st: EncState, room: int)
    requires Valid(st)
    ensures Convert(v, st, [], room) == Call(Ok, 0, [], st)
  {
  }

  /** Whatever comes later, a call writes a prefix of what was due and leaves exactly what remains due. */
  lemma {:induction false} ConvertResumes(v: Variant, st: EncState, u: seq<Unit>, room: int, later: seq<Unit>)
    requires Valid(st)
    ensures var c := Convert(v, st, u, room);
            Rest(v, st, u + later) == c.out + Rest(v, c.st, u[c.used..] + later)
    decreases |u|
  {
    hide UnitOut, UnitNext, Fits, Blocked, Convert, Rest;
    var c := Convert(v, st, u, room);
    if u == [] {
      ConvertNothing(v, st, room);
      Empty(Rest(v, st, u + later));
    } else if Fits(v, st, u[0], room) {
      ConvertUnit(v, st, u, room);
      var o, st' := UnitOut(v, st, u[0]), UnitNext(v, st, u[0]);
      var c' := Convert(v, st', u[1..], room - |o|);
      ConvertResumes(v, st', u[1..], room - |o|, later);
      RestUnfold(v, st, u, later);
      assert u[1..][c'.used..] == u[c.used..];
      Assoc(o, c'.out, Rest(v, c.st, u[c.used..] + later));
    } else {
      ConvertUnit(v, st, u, room);
      BlockedResumes(v, st, u + later, room);
      assert u[c.used..] == u;
    }
  }

  // ----- what the units consumed have written

  lemma {:induction false} FeedConcat(v: Variant, st: EncState, a: seq<Unit>, b: seq<Unit>)
    requires Valid(st)
    ensures Feed(v, st, a + b) == Feed(v, st, a) + Feed(v, Fed(v, st, a), b)
    ensures Fed(v, st, a + b) == Fed(v, Fed(v, st, a), b)
    decreases |a|
  {
    hide UnitOut, UnitNext;
    if a == [] {
      Empty(b);
      Empty(Feed(v, st, b));
    } else {
      var st' := UnitNext(v, st, a[0]);
      assert (a + b)[1..] == a[1..] + b;
      FeedConcat(v, st', a[1..], b);
      Assoc(UnitOut(v, st, a[0]), Feed(v, st', a[1..]), Feed(v, Fed(v, st', a[1..]), b));
    }
  }

  lemma {:induction false} RestIsFeed(v: Variant, st: EncState, u: seq<Unit>)
    requires Valid(st)
    ensures Rest(v, st, u) == Feed(v, st, u) + ShiftOut(v, Fed(v, st, u), Direct)
    decreases |u|
  {
    hide UnitOut, UnitNext, ShiftOut;
    if u == [] {
      Empty(ShiftOut(v, st, Direct));
    } else {
      var st' := UnitNext(v, st, u[0]);
      RestIsFeed(v, st', u[1..]);
      Assoc(UnitOut(v, st, u[0]), Feed(v, st', u[1..]), ShiftOut(v, Fed(v, st', u[1..]), Direct));
    }
  }

  function Clip(room: int, n: nat): (m: nat)
    ensures m <= n
  {
    if room < 0 then 0 else if room < n then room else n
  }

  /** A mode change writes as much of what is due as there are slots, and succeeds when that is all of it. */
  lemma ShiftExactly(v: Variant, st: EncState, m: Mode, room: int)
    requires Valid(st)
    ensures var due := ShiftOut(v, st, m);
            var c := Shift(v, st, m, room);
            c.out == due[..Clip(room, |due|)] && (c.status == Ok <==> c.out == due)
  {
    hide Digit;
  }

  // ----- what may be written

  predicate IsPair(v: Variant, ch: Unit) {
    DirectEncodable(v, ch) && ch == EscChar(v)
  }

  /** A unit fits if there is room for all it writes; an escape pair needs one slot less. */
  lemma FitsExactly(v: Variant, st: EncState, ch: Unit, room: int)
    requires Valid(st)
    ensures Fits(v, st, ch, room) <==> |UnitOut(v, st, ch)| <= room + (if IsPair(v, ch) then 1 else 0)
    ensures room <= 0 ==> !Fits(v, st, ch, room)
    ensures IsPair(v, ch) ==> v == MUTF7 && |UnitOut(v, st, ch)| >= 2
  {
  }

  lemma BlockedAtMost(v: Variant, st: EncState, ch: Unit, room: int)
    requires Valid(st)
    ensures |Blocked(v, st, ch, room).out| <= (if room < 0 then 0 else room)
  {
  }

  /** The slots that are left when only `k` units have been written; an escape pair counts as if it had one more. */
  function Margin(v: Variant, st: EncState, u: seq<Unit>, room: int, k: nat): int
    requires Valid(st) && k < |u|
  {
    room + (if IsPair(v, u[k]) then 1 else 0) - |Feed(v, st, u[..k + 1])|
  }

  lemma MarginNext(v: Variant, st: EncState, u: seq<Unit>, room: int, k: nat)
    requires Valid(st) && 0 < k < |u|
    ensures Margin(v, st, u, room, k)
         == Margin(v, UnitNext(v, st, u[0]), u[1..], room - |UnitOut(v, st, u[0])|, k - 1)
  {
    hide UnitOut, UnitNext, IsPair;
    assert u[..k + 1][1..] == u[1..][..k];
  }

  lemma MarginFirst(v: Variant, st: EncState, u: seq<Unit>, room: int)
    requires Valid(st) && u != []
    ensures Margin(v, st, u, room, 0) >= 0 <==> Fits(v, st, u[0], room)
  {
    hide UnitOut, UnitNext, IsPair, Fits;
    FitsExactly(v, st, u[0], room);
    assert u[..1][1..] == [];
    Empty(UnitOut(v, st, u[0]));
    assert Feed(v, st, u[..1]) == UnitOut(v, st, u[0]);
  }

  /** A call consumes units as long as there is room for all they write, and not the first one for which there is none. */
  lemma {:induction false} StopsExactly(v: Variant, st: EncState, u: seq<Unit>, room: int, k: nat)
    requires Valid(st) && k < |u|
    ensures k < Convert(v, st, u, room).used ==> Margin(v, st, u, room, k) >= 0
    ensures k == Convert(v, st, u, room).used ==> Margin(v, st, u, room, k) < 0
    decreases |u|
  {
    hide UnitOut, UnitNext, Fits, Blocked, Convert, Margin;
    ConvertUnit(v, st, u, room);
    MarginFirst(v, st, u, room);
    if k > 0 && Fits(v, st, u[0], room) {
      MarginNext(v, st, u, room, k);
      StopsExactly(v, UnitNext(v, st, u[0]), u[1..], room - |UnitOut(v, st, u[0])|, k - 1);
    }
  }

  /** It writes what these units write, and as much as there is room for of the mode change in front of the next one. */
  lemma {:induction false} WritesExactly(v: Variant, st: EncState, u: seq<Unit>, room: int)
    requires Valid(st)
    ensures var c := Convert(v, st, u, room);
            var written := Feed(v, st, u[..c.used]);
            && (c.status == Ok <==> c.used == |u|)
            && (c.used == |u| ==> c.out == written)
            && (c.used < |u| ==>
                  var due := ShiftOut(v, Fed(v, st, u[..c.used]), ModeOf(v, u[c.used]));
                  c.out == written + due[..Clip(room - |written|, |due|)])
    decreases |u|
  {
    hide UnitOut, UnitNext, Fits, Shift, ShiftOut, Convert, DirectEncodable, Clip;
    if u == [] {
      ConvertNothing(v, st, room);
    } else {
      ConvertUnit(v, st, u, room);
      if Fits(v, st, u[0], room) {
        WritesNext(v, st, u, room);
      } else {
        ShiftExactly(v, st, ModeOf(v, u[0]), room);
        Empty(Convert(v, st, u, room).out);
      }
    }
  }

  lemma {:induction false} WritesNext(v: Variant, st: EncState, u: seq<Unit>, room: int)
    requires Valid(st) && u != [] && Fits(v, st, u[0], room)
    ensures var c := Convert(v, st, u, room);
            var written := Feed(v, st, u[..c.used]);
            && (c.status == Ok <==> c.used == |u|)
            && (c.used == |u| ==> c.out == written)
            && (c.used < |u| ==>
                  var due := ShiftOut(v, Fed(v, st, u[..c.used]), ModeOf(v, u[c.used]));
                  c.out == written + due[..Clip(room - |written|, |due|)])
    decreases |u|, 0
  {
    hide UnitOut, UnitNext, Fits, Shift, ShiftOut, Convert, DirectEncodable, Clip;
    var o, st' := UnitOut(v, st, u[0]), UnitNext(v, st, u[0]);
    var c' := Convert(v, st', u[1..], room - |o|);
    var written' := Feed(v, st', u[1..][..c'.used]);
    ConvertUnit(v, st, u, room);
    WritesExactly(v, st', u[1..], room - |o|);
    assert u[..c'.used + 1][1..] == u[1..][..c'.used];
    if c'.used < |u| - 1 {
      var due := ShiftOut(v, Fed(v, st', u[1..][..c'.used]), ModeOf(v, u[1..][c'.used]));
      Assoc(o, written', due[..Clip(room - |o| - |written'|, |due|)]);
    }
  }

  /** No call reports more than its capacity in UTF-7, nor more than one byte above it in MUTF-7. */
  lemma {:induction false} WrittenAtMost(v: Variant, st: EncState, u: seq<Unit>, room: int)
    requires Valid(st)
    ensures room <= 0 ==> Convert(v, st, u, room).out == []
    ensures room >= 0 ==> |Convert(v, st, u, room).out| <= room + (if v == UTF7 then 0 else 1)
    decreases |u|
  {
    hide UnitOut, UnitNext, Fits, Blocked, IsPair;
    if u != [] {
      FitsExactly(v, st, u[0], room);
      BlockedAtMost(v, st, u[0], room);
      if Fits(v, st, u[0], room) {
        WrittenAtMost(v, UnitNext(v, st, u[0]), u[1..], room - |UnitOut(v, st, u[0])|);
      }
    }
  }

  /** A call goes above its capacity if an escape pair has exactly the last free slot to begin in ... */
  lemma {:induction false} PairInLastSlot(v: Variant, st: EncState, u: seq<Unit>, room: int, i: nat)
    requires Valid(st) && i < |u| && IsPair(v, u[i]) && |Feed(v, st, u[..i + 1])| == room + 1
    ensures |Convert(v, st, u, room).out| == room + 1 && Convert(v, st, u, room).used == i + 1
    decreases |u|
  {
    hide UnitOut, UnitNext, Fits, Blocked, IsPair;
    var o, st' := UnitOut(v, st, u[0]), UnitNext(v, st, u[0]);
    FitsExactly(v, st, u[0], room);
    assert u[..i + 1][1..] == u[1..][..i];
    if i == 0 {
      WrittenAtMost(v, st', u[1..], -1);
      if |u| > 1 {
        FitsExactly(v, st', u[1], -1);
      }
    } else {
      FeedNonempty(v, st', u[1..][..i]);
      PairInLastSlot(v, st', u[1..], room - |o|, i - 1);
    }
  }

  lemma {:induction false} FeedNonempty(v: Variant, st: EncState, u: seq<Unit>)
    requires Valid(st) && u != []
    ensures |Feed(v, st, u)| >= if IsPair(v, u[|u| - 1]) then 2 else 1
    decreases |u|
  {
    hide UnitOut, UnitNext, IsPair;
    FitsExactly(v, st, u[0], 0);
    if |u| > 1 {
      FeedNonempty(v, UnitNext(v, st, u[0]), u[1..]);
    }
  }

  /** ... and only then. */
  lemma {:induction false} AboveCapacity(v: Variant, st: EncState, u: seq<Unit>, room: int) returns (i: nat)
    requires Valid(st) && room >= 0 && |Convert(v, st, u, room).out| > room
    ensures i < |u| && IsPair(v, u[i]) && |Feed(v, st, u[..i + 1])| == room + 1
    decreases |u|
  {
    hide UnitOut, UnitNext, Fits, Blocked, IsPair;
    FitsExactly(v, st, u[0], room);
    BlockedAtMost(v, st, u[0], room);
    var o, st' := UnitOut(v, st, u[0]), UnitNext(v, st, u[0]);
    if |o| == room + 1 {
      i := 0;
      assert u[..1][1..] == [];
    } else {
      i := AboveCapacity(v, st', u[1..], room - |o|);
      i := i + 1;
      assert u[..i + 1][1..] == u[1..][..i];
    }
  }

  /** The reported length exceeds the capacity exactly when some `&` is next with one free slot left. */
  lemma AboveCapacityExactly(v: Variant, st: EncState, u: seq<Unit>, room: nat)
    requires Valid(st)
    ensures |Convert(v, st, u, room).out| > room
       <==> exists i :: 0 <= i < |u| && IsPair(v, u[i]) && |Feed(v, st, u[..i + 1])| == room + 1
  {
    if |Convert(v, st, u, room).out| > room {
      var i := AboveCapacity(v, st, u, room);
    }
    if i :| 0 <= i < |u| && IsPair(v, u[i]) && |Feed(v, st, u[..i + 1])| == room + 1 {
      PairInLastSlot(v, st, u, room, i);
    }
  }

  function Filler(n: nat): (u: seq<Unit>)
    ensures |u| == n
  {
    if n == 0 then [] else [97] + Filler(n - 1)
  }

  lemma {:induction false} FeedFiller(n: nat)
    ensures |Feed(MUTF7, IDLE, Filler(n) + [38])| == n + 2
  {
    var u := Filler(n) + [38];
    if n == 0 {
      assert u[0] == 38 && u[1..] == [];
    } else {
      assert u[0] == 97 && u[1..] == Filler(n - 1) + [38];
      FeedFiller(n - 1);
    }
  }

  /** It happens at every capacity: `n` letters and an `&` are reported as `n + 2` bytes for `n + 1` slots. */
  lemma AboveAnyCapacity(n: nat)
    ensures |Convert(MUTF7, IDLE, Filler(n) + [38], n + 1).out| == n + 2
  {
    hide Convert, Feed;
    var u := Filler(n) + [38];
    FeedFiller(n);
    assert u[..n + 1] == u;
    PairInLastSlot(MUTF7, IDLE, u, n + 1, n);
  }

  /** With the 100 slots that mailbox names are encoded with, 99 letters and an `&` are reported as 101 bytes. */
  lemma AboveHundred()
    ensures |Convert(MUTF7, IDLE, Filler(99) + [38], 100).out| == 101
  {
    hide Convert, Filler;
    AboveAnyCapacity(99);
  }

  /** Room for everything that is due is enough for the call to consume its whole source. */
  lemma {:induction false} EnoughRoom(v: Variant, st: EncState, u: seq<Unit>, room: int)
    requires Valid(st) && room >= |Rest(v, st, u)|
    ensures Convert(v, st, u, room).status == Ok
    decreases |u|
  {
    hide UnitOut, UnitNext, Fits, Blocked, IsPair;
    if u != [] {
      FitsExactly(v, st, u[0], room);
      EnoughRoom(v, UnitNext(v, st, u[0]), u[1..], room - |UnitOut(v, st, u[0])|);
    }
  }

  // ----- progress

  /** With three free slots every call on a non-empty source consumes a unit ... */
  lemma ThreeSlotsProgress(v: Variant, st: EncState, u: seq<Unit>, room: int)
    requires Valid(st) && u != [] && room >= 3
    ensures Convert(v, st, u, room).used >= 1
  {
  }

  ghost predicate AlwaysProgresses(v: Variant, room: int) {
    forall st: EncState, u: seq<Unit> :: Valid(st) && u != [] ==> Convert(v, st, u, room).used >= 1
  }

  /** ... and three is the least number of slots that makes it so. */
  lemma ProgressExactly(v: Variant, room: int)
    ensures AlwaysProgresses(v, room) <==> room >= 3
  {
    var st, u: seq<Unit> := EncState(Base64, 0, 1), [0x80];
    assert room < 3 ==> Convert(v, st, u, room).used == 0;
    forall st, u: seq<Unit> | Valid(st) && u != [] && room >= 3 ensures Convert(v, st, u, room).used >= 1 {
      ThreeSlotsProgress(v, st, u, room);
    }
  }

  /** One unit leads to a state in which a call with two slots consumes nothing, writes nothing and changes nothing. */
  lemma StuckWithTwoSlots(v: Variant, room: int)
    requires room < 3
    ensures var st := Convert(v, IDLE, [0x80], 3).st;
            Convert(v, st, [0x80], room) == Call(MoreOutput, 0, [], st)
  {
    var u: seq<Unit> := [0x80];
    assert u[1..] == [] && !DirectEncodable(v, 0x80);
    assert Convert(v, IDLE, u, 3).st == EncState(Base64, 0, 1);
  }
}
