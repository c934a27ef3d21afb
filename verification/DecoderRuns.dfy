/** Calls of the decoder that stop early lose and repeat nothing, however the input is cut. */
module DecoderRuns {
  import opened Sequences
  import opened Utf7
  import opened DecoderSpec

  // ----- a call goes byte by byte

  /** `-` right after the escape character: the one byte whose unit is written without asking for room. */
  predicate IsPair(st: DecState, b: Byte) {
    st.mode.Base64? && st.escaped && b == MINUS
  }

  predicate Fits(v: Variant, st: DecState, b: Byte, room: int)
    requires Valid(st)
  {
    room > 0 || ByteOut(v, st, b) == [] || IsPair(st, b)
  }

  /** The state a call stops in at a byte that does not fit; a section it ends is already left. */
  function Waiting(v: Variant, st: DecState, b: Byte): (st': DecState)
    requires Valid(st)
    ensures Valid(st')
  {
    if st.mode.Direct? then st
    else if IsDigit(v, b) then st.(escaped := false)
    else st.(mode := Direct, escaped := false)
  }

  lemma ConvertByte(v: Variant, st: DecState, s: seq<Byte>, room: int)
    requires Valid(st) && s != []
    ensures var o := ByteOut(v, st, s[0]);
            Convert(v, st, s, room)
            == if Fits(v, st, s[0], room) then After(1, o, Convert(v, ByteNext(v, st, s[0]), s[1..], room - |o|))
               else Call(MoreOutput, 0, [], Waiting(v, st, s[0]))
  {
    hide DigitNext, Value;
    ValueDigit(v, s[0]);
    if st.mode.Base64? && !IsPair(st, s[0]) && !IsDigit(v, s[0]) && s[0] != MINUS {
      assert Convert(v, st, s, room) == Convert(v, st.(mode := Direct, escaped := false), s, room);
    }
  }

  /** Waiting at a byte does not change what the byte will mean. */
  lemma WaitingResumes(v: Variant, st: DecState, b: Byte, room: int)
    requires Valid(st) && !Fits(v, st, b, room)
    ensures ByteOut(v, Waiting(v, st, b), b) == ByteOut(v, st, b)
    ensures ByteNext(v, Waiting(v, st, b), b) == ByteNext(v, st, b)
  {
    hide Value;
    ValueDigit(v, b);
  }

  lemma DecodeCons(v: Variant, st: DecState, s: seq<Byte>, later: seq<Byte>)
    requires Valid(st) && s != []
    ensures var t := Decode(v, ByteNext(v, st, s[0]), s[1..] + later);
            Decode(v, st, s + later) == Text(ByteOut(v, st, s[0]) + t.out, t.st)
  {
    hide ByteOut, ByteNext;
    assert (s + later)[1..] == s[1..] + later;
  }

  /** Whatever comes later, a call writes a prefix of what the input means and leaves the rest to mean. */
  lemma {:induction false} ConvertResumes(v: Variant, st: DecState, s: seq<Byte>, room: int, later: seq<Byte>)
    requires Valid(st)
    ensures var c := Convert(v, st, s, room);
            var t := Decode(v, c.st, s[c.used..] + later);
            Decode(v, st, s + later) == Text(c.out + t.out, t.st)
    decreases |s|
  {
    hide ByteOut, ByteNext, Fits, Waiting, Convert, Decode;
    var c := Convert(v, st, s, room);
    if s == [] {
      ConvertNothing(v, st, room);
      Empty(Decode(v, st, s + later).out);
    } else {
      ConvertByte(v, st, s, room);
      DecodeCons(v, st, s, later);
      if Fits(v, st, s[0], room) {
        var o, st' := ByteOut(v, st, s[0]), ByteNext(v, st, s[0]);
        ConvertResumes(v, st', s[1..], room - |o|, later);
        var c' := Convert(v, st', s[1..], room - |o|);
        assert s[1..][c'.used..] == s[c.used..];
        Assoc(o, c'.out, Decode(v, c.st, s[c.used..] + later).out);
      } else {
        WaitingResumes(v, st, s[0], room);
        DecodeCons(v, c.st, s, later);
        Empty(Decode(v, c.st, s + later).out);
        assert s[0..] == s;
      }
    }
  }

  lemma ConvertNothing(v: Variant, st: DecState, room: int)
    requires Valid(st)
    ensures Convert(v, st, [], room) == Call(Ok, 0, [], st)
  {
  }

  // ----- totality and size

  /** No input is illegal, and no byte makes more than one unit. */
  lemma {:induction false} ConvertTotal(v: Variant, st: DecState, s: seq<Byte>, room: int)
    requires Valid(st)
    ensures var c := Convert(v, st, s, room);
            && c.status != IllegalInput && (c.status == Ok <==> c.used == |s|)
            && |c.out| <= c.used
            && (room >= |s| ==> c.status == Ok)
    decreases |s|
  {
    hide ByteOut, ByteNext, Waiting, Convert;
    if s == [] {
      ConvertNothing(v, st, room);
    } else {
      ConvertByte(v, st, s, room);
      if Fits(v, st, s[0], room) {
        ConvertTotal(v, ByteNext(v, st, s[0]), s[1..], room - |ByteOut(v, st, s[0])|);
      }
    }
  }

  /** With as much room as there are bytes, one call decodes everything. */
  lemma OneCall(v: Variant, st: DecState, s: seq<Byte>, room: int)
    requires Valid(st) && room >= |s|
    ensures var t := Decode(v, st, s); Convert(v, st, s, room) == Call(Ok, |s|, t.out, t.st)
  {
    hide Convert;
    var c := Convert(v, st, s, room);
    ConvertTotal(v, st, s, room);
    ConvertResumes(v, st, s, room, []);
    Empty(s);
    Empty(c.out);
    assert s[|s|..] + [] == [];
  }

  /** When the bytes before it are decoded, byte `k` needs no slot or there is one left. */
  predicate Served(v: Variant, st: DecState, s: seq<Byte>, room: int, k: nat)
    requires Valid(st) && k < |s|
  {
    var t := Decode(v, st, s[..k]);
    Fits(v, t.st, s[k], room - |t.out|)
  }

  lemma ServedNext(v: Variant, st: DecState, s: seq<Byte>, room: int, k: nat)
    requires Valid(st) && 0 < k < |s|
    ensures Served(v, st, s, room, k)
         == Served(v, ByteNext(v, st, s[0]), s[1..], room - |ByteOut(v, st, s[0])|, k - 1)
  {
    hide ByteOut, ByteNext, Fits;
    assert s[..k][1..] == s[1..][..k - 1];
  }

  lemma ServedFirst(v: Variant, st: DecState, s: seq<Byte>, room: int)
    requires Valid(st) && s != []
    ensures Served(v, st, s, room, 0) == Fits(v, st, s[0], room)
  {
    hide Fits;
  }

  /** A call consumes bytes up to the first one that needs a slot when none is left, and not that one. */
  lemma {:induction false} StopsExactly(v: Variant, st: DecState, s: seq<Byte>, room: int, k: nat)
    requires Valid(st) && k < |s|
    ensures k < Convert(v, st, s, room).used ==> Served(v, st, s, room, k)
    ensures k == Convert(v, st, s, room).used ==> !Served(v, st, s, room, k)
    decreases |s|
  {
    hide ByteOut, ByteNext, Fits, Waiting, Convert, Served;
    ConvertByte(v, st, s, room);
    ServedFirst(v, st, s, room);
    if k > 0 && Fits(v, st, s[0], room) {
      ServedNext(v, st, s, room, k);
      StopsExactly(v, ByteNext(v, st, s[0]), s[1..], room - |ByteOut(v, st, s[0])|, k - 1);
    }
  }

  // ----- reported length

  /** Overshooting needs an escape pair met when the free slots are used up exactly ... */
  lemma {:induction false} AboveCapacity(v: Variant, st: DecState, s: seq<Byte>, room: nat) returns (i: nat)
    requires Valid(st) && |Convert(v, st, s, room).out| > room
    ensures i < |s| && |Decode(v, st, s[..i]).out| == room && IsPair(Decode(v, st, s[..i]).st, s[i])
    decreases |s|
  {
    hide ByteOut, ByteNext, Waiting, Convert;
    if s == [] {
      ConvertNothing(v, st, room);
    }
    ConvertByte(v, st, s, room);
    var o, st' := ByteOut(v, st, s[0]), ByteNext(v, st, s[0]);
    if room < |o| {
      i := 0;
    } else {
      i := AboveCapacity(v, st', s[1..], room - |o|);
      i := i + 1;
      assert s[..i][1..] == s[1..][..i - 1];
    }
  }

  /** ... and such a pair is always written. */
  lemma {:induction false} PairWithoutRoom(v: Variant, st: DecState, s: seq<Byte>, room: nat, i: nat)
    requires Valid(st) && i < |s| && |Decode(v, st, s[..i]).out| == room && IsPair(Decode(v, st, s[..i]).st, s[i])
    ensures |Convert(v, st, s, room).out| > room
    decreases |s|
  {
    hide ByteNext, Waiting, Convert, DigitOut;
    ConvertByte(v, st, s, room);
    var o, st' := ByteOut(v, st, s[0]), ByteNext(v, st, s[0]);
    if i > 0 {
      assert s[..i][1..] == s[1..][..i - 1];
      PairWithoutRoom(v, st', s[1..], room - |o|, i - 1);
    }
  }

  /** The reported length exceeds the capacity exactly when an escape pair comes just after the last slot. */
  lemma AboveCapacityExactly(v: Variant, st: DecState, s: seq<Byte>, room: nat)
    requires Valid(st)
    ensures |Convert(v, st, s, room).out| > room
       <==> exists i :: 0 <= i < |s| && |Decode(v, st, s[..i]).out| == room && IsPair(Decode(v, st, s[..i]).st, s[i])
  {
    hide Convert, Decode, IsPair;
    if |Convert(v, st, s, room).out| > room {
      var i := AboveCapacity(v, st, s, room);
    }
    if i :| 0 <= i < |s| && |Decode(v, st, s[..i]).out| == room && IsPair(Decode(v, st, s[..i]).st, s[i]) {
      PairWithoutRoom(v, st, s, room, i);
    }
  }

  /** The escape pairs that are met before any other byte asks for a slot. */
  function FreePairs(v: Variant, st: DecState, s: seq<Byte>): (n: nat)
    requires Valid(st)
    decreases |s|
  {
    if s == [] then 0
    else if IsPair(st, s[0]) then 1 + FreePairs(v, ByteNext(v, st, s[0]), s[1..])
    else if ByteOut(v, st, s[0]) == [] then FreePairs(v, ByteNext(v, st, s[0]), s[1..])
    else 0
  }

  /** Without a free slot, those pairs are all that is written. */
  lemma {:induction false} WrittenWithoutRoom(v: Variant, st: DecState, s: seq<Byte>, room: int)
    requires Valid(st) && room <= 0
    ensures |Convert(v, st, s, room).out| == FreePairs(v, st, s)
    decreases |s|
  {
    hide Waiting, Convert, ByteNext, DigitOut, IsDigit;
    if s == [] {
      ConvertNothing(v, st, room);
    } else {
      ConvertByte(v, st, s, room);
      if Fits(v, st, s[0], room) {
        WrittenWithoutRoom(v, ByteNext(v, st, s[0]), s[1..], room - |ByteOut(v, st, s[0])|);
      }
    }
  }

  /** Once the slots are used up, the excess is the number of escape pairs met before another byte asks for one. */
  lemma {:induction false} ExcessExactly(v: Variant, st: DecState, s: seq<Byte>, room: nat, i: nat)
    requires Valid(st) && i <= |s| && |Decode(v, st, s[..i]).out| == room
    ensures |Convert(v, st, s, room).out| == room + FreePairs(v, Decode(v, st, s[..i]).st, s[i..])
    decreases i
  {
    hide ByteOut, ByteNext, Waiting, Convert, FreePairs;
    if i == 0 {
      assert s[..0] == [] && s[0..] == s;
      WrittenWithoutRoom(v, st, s, room);
    } else {
      var o, st' := ByteOut(v, st, s[0]), ByteNext(v, st, s[0]);
      ConvertByte(v, st, s, room);
      assert s[..i][1..] == s[1..][..i - 1] && s[1..][i - 1..] == s[i..];
      ExcessExactly(v, st', s[1..], room - |o|, i - 1);
    }
  }

  /** If the slots are not used up, there is no excess: a call writes at most what the input means. */
  lemma WrittenAtMost(v: Variant, st: DecState, s: seq<Byte>, room: int)
    requires Valid(st)
    ensures |Convert(v, st, s, room).out| <= |Decode(v, st, s).out|
  {
    hide Convert, Decode;
    ConvertResumes(v, st, s, room, []);
    Empty(s);
  }

  function Pairs(v: Variant, k: nat): (s: seq<Byte>)
    ensures |s| == 2 * k
  {
    if k == 0 then [] else [EscChar(v), MINUS] + Pairs(v, k - 1)
  }

  /** The excess has no bound: `k` escape pairs are all written, however few slots there are. */
  lemma {:induction false} ExcessUnbounded(v: Variant, st: DecState, k: nat, room: int)
    requires Valid(st) && st.mode.Direct? && room <= 0
    ensures |Convert(v, st, Pairs(v, k), room).out| == k
    decreases k
  {
    hide Convert;
    var s := Pairs(v, k);
    WrittenWithoutRoom(v, st, s, room);
    if k > 0 {
      var left := FRESH.(mode := Direct);
      assert s[0] == EscChar(v) && s[1..][0] == MINUS && s[1..][1..] == Pairs(v, k - 1);
      ExcessUnbounded(v, left, k - 1, room);
      WrittenWithoutRoom(v, left, Pairs(v, k - 1), room);
      assert FreePairs(v, st, s) == FreePairs(v, FRESH, s[1..]);
    }
  }

  // ----- composition

  /** Decoding in pieces is decoding the whole, from any state. */
  lemma {:induction false} DecodeConcat(v: Variant, st: DecState, a: seq<Byte>, b: seq<Byte>)
    requires Valid(st)
    ensures var t := Decode(v, st, a);
            var t' := Decode(v, t.st, b);
            Decode(v, st, a + b) == Text(t.out + t'.out, t'.st)
    decreases |a|
  {
    hide ByteOut, ByteNext;
    if a == [] {
      Empty(b);
      Empty(Decode(v, st, b).out);
    } else {
      DecodeCons(v, st, a, b);
      var o, st' := ByteOut(v, st, a[0]), ByteNext(v, st, a[0]);
      DecodeConcat(v, st', a[1..], b);
      var t := Decode(v, st', a[1..]);
      Assoc(o, t.out, Decode(v, t.st, b).out);
    }
  }

  /** In direct mode the other fields do not matter: neither to the units nor to the mode that follows. */
  lemma {:induction false} DirectForgets(v: Variant, st: DecState, st': DecState, s: seq<Byte>)
    requires Valid(st) && Valid(st') && st.mode.Direct? && st'.mode.Direct?
    ensures Decode(v, st, s).out == Decode(v, st', s).out
    ensures Decode(v, st, s).st.mode == Decode(v, st', s).st.mode
    decreases |s|
  {
    if s != [] && s[0] != EscChar(v) {
      DirectForgets(v, st, st', s[1..]);
    }
  }

  /** After a prefix that leaves direct mode, the rest is decoded as if it were alone. */
  lemma DecodeSplits(v: Variant, st: DecState, a: seq<Byte>, b: seq<Byte>)
    requires Valid(st) && st.mode.Direct? && Decode(v, st, a).st.mode.Direct?
    ensures Decode(v, st, a + b).out == Decode(v, st, a).out + Decode(v, st, b).out
    ensures Decode(v, st, a + b).st.mode == Decode(v, st, b).st.mode
  {
    hide Decode;
    DecodeConcat(v, st, a, b);
    DirectForgets(v, Decode(v, st, a).st, st, b);
  }
}
