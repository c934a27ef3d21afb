/** `nsBasicUTF7Encoder` with its two subclasses: the loops over the caller's buffers. */
module Encoder {
  import opened Buffers
  import opened Sequences
  import opened Utf7
  import opened EncoderSpec

  class BasicUTF7Encoder {
    var mEncoding: Mode
    var mEncBits: nat
    var mEncStep: nat
    const mLastChar: Byte
    const mEscChar: Byte
    /** Which subclass this is; it decides `DirectEncodable`. */
    const variant: Variant

    ghost predicate Inv()
      reads this
    {
      mLastChar == LastChar(variant) && mEscChar == EscChar(variant) && Valid(State())
    }

    ghost function State(): EncState
      reads this
    {
      EncState(mEncoding, mEncBits, mEncStep)
    }

    constructor nsUnicodeToUTF7()
      ensures Inv() && variant == UTF7 && State() == IDLE
    {
      mLastChar, mEscChar, variant := 47, 43, UTF7;
      mEncoding, mEncBits, mEncStep := Direct, 0, 0;
    }

    constructor nsUnicodeToMUTF7()
      ensures Inv() && variant == MUTF7 && State() == IDLE
    {
      mLastChar, mEscChar, variant := 44, 38, MUTF7;
      mEncoding, mEncBits, mEncStep := Direct, 0, 0;
    }

    method Reset()
      requires Inv()
      modifies this
      ensures Inv() && State() == IDLE
    {
      mEncoding := Direct;
      mEncBits := 0;
      mEncStep := 0;
    }

    /** `dest[at..at + room]` is free; the second result is the length reported back. */
    method ShiftEncoding(encoding: Mode, dest: array<Byte>, at: nat, room: int) returns (res: Status, written: int)
      requires Inv() && (room >= 0 || mEncoding.Direct?)
      requires at + |Shift(variant, State(), encoding, room).out| <= dest.Length
      modifies this, dest
      ensures Inv()
      ensures var c := Shift(variant, old(State()), encoding, room);
              && res == c.status && written == |c.out| && State() == c.st
              && Written(dest, old(dest[..]), at, c.out)
    {
      ghost var was, c, out := dest[..], Shift(variant, State(), encoding, room), [];
      NothingWritten(dest, at);
      if encoding == mEncoding {
        return Ok, 0;
      }
      ShiftParts(variant, State(), encoding, room);

      res := Ok;
      var d := at;
      var end := at + room;

      if mEncStep != 0 {
        if d >= end {
          return MoreOutput, room;
        }
        var digit := ValueToChar(mLastChar, mEncBits);
        Put(dest, d, digit, was, at, out);
        out := out + [digit];
        d := d + 1;
        mEncStep := 0;
        mEncBits := 0;
      }

      if d >= end {
        res := MoreOutput;
      } else {
        match encoding {
          case Direct =>
            Put(dest, d, MINUS, was, at, out);
            out := out + [MINUS];
            d := d + 1;
            mEncStep := 0;
            mEncBits := 0;
          case Base64 =>
            Put(dest, d, mEscChar, was, at, out);
            out := out + [mEscChar];
            d := d + 1;
        }
        mEncoding := encoding;
      }

      assert out == c.out;
      written := d - at;
    }

    /** Writes direct units, from the one at `i` on, until one needs base64 or finds no room. */
    method EncodeDirect(src: seq<Unit>, i: nat, dest: array<Byte>, d: nat, end: int,
                        ghost all: Call, ghost was: seq<Byte>, ghost at: nat, ghost out: seq<Byte>)
      returns (res: Status, i': nat, d': nat, ghost out': seq<Byte>)
      requires Inv() && mEncoding.Direct? && i <= |src|
      requires d == at + |out| && Written(dest, was, at, out) && at + |all.out| <= dest.Length
      requires Reached(all, variant, State(), src, i, out, end - at)
      modifies dest
      ensures i <= i' <= |src| && d' == at + |out'| && Written(dest, was, at, out')
      ensures Reached(all, variant, State(), src, i', out', end - at)
      ensures Stopped(variant, res, State(), src, i', end - d')
    {
      hide Reached;
      res, i', d', out' := Ok, i, d, out;
      ghost var st := State();
      while i' < |src|
        invariant i <= i' <= |src| && d' == at + |out'| && Written(dest, was, at, out')
        invariant res == Ok && Reached(all, variant, st, src, i', out', end - at)
      {
        var ch := src[i'];
        if !DirectEncodable(variant, ch) {
          break;
        }
        if ch == mEscChar {
          if end - d' < 1 {
            res := MoreOutput;
            break;
          } else {
            ReachedDirect(all, variant, st, src, i', out', end - at);
            Put(dest, d', ch, was, at, out');
            Put(dest, d' + 1, MINUS, was, at, out' + [ch]);
            out' := out' + [ch] + [MINUS];
            d' := d' + 2;
            i' := i' + 1;
          }
        } else {
          if d' >= end {
            res := MoreOutput;
            break;
          } else {
            ReachedDirect(all, variant, st, src, i', out', end - at);
            Put(dest, d', ch, was, at, out');
            out' := out' + [ch];
            d' := d' + 1;
            i' := i' + 1;
          }
        }
      }
    }

    /** Writes the completed digits of other units until a direct unit comes or there is no room. */
    method EncodeBase64(src: seq<Unit>, i: nat, dest: array<Byte>, d: nat, end: int,
                        ghost all: Call, ghost was: seq<Byte>, ghost at: nat, ghost out: seq<Byte>)
      returns (res: Status, i': nat, d': nat, ghost out': seq<Byte>)
      requires Inv() && mEncoding.Base64? && i <= |src| && d <= end
      requires d == at + |out| && Written(dest, was, at, out) && at + |all.out| <= dest.Length
      requires Reached(all, variant, State(), src, i, out, end - at)
      modifies `mEncBits, `mEncStep, dest
      ensures Inv() && i <= i' <= |src| && d' == at + |out'| <= end && Written(dest, was, at, out')
      ensures Reached(all, variant, State(), src, i', out', end - at)
      ensures Stopped(variant, res, State(), src, i', end - d')
    {
      hide Reached;
      res, i', d', out' := Ok, i, d, out;
      ghost var st := State();
      while i' < |src|
        invariant i <= i' <= |src| && d' == at + |out'| <= end && Written(dest, was, at, out')
        invariant res == Ok && Inv() && st == State() && mEncoding == Base64
        invariant Reached(all, variant, st, src, i', out', end - at)
      {
        var ch := src[i'];
        if DirectEncodable(variant, ch) {
          break;
        }
        if end - d' >= Asked(st) {
          ReachedUnit(all, variant, st, src, i', out', end - at);
        }
        var n;
        res, n, out' := EncodeUnit(ch, dest, d', end - d', was, at, out');
        if res != Ok {
          break;
        }
        d' := d' + n;
        i' := i' + 1;
        st := Emitted(st, ch);
      }
    }

    /** The 3-phase machine on one unit. */
    method EncodeUnit(ch: Unit, dest: array<Byte>, d: nat, room: int,
                      ghost was: seq<Byte>, ghost at: nat, ghost out: seq<Byte>)
      returns (res: Status, n: nat, ghost out': seq<Byte>)
      requires Inv() && mEncoding.Base64? && !DirectEncodable(variant, ch)
      requires Written(dest, was, at, out) && d == at + |out|
      requires room >= Asked(State()) ==> d + Asked(State()) <= dest.Length
      modifies `mEncBits, `mEncStep, dest
      ensures Inv() && Written(dest, was, at, out') && |out'| == |out| + n
      ensures if room < old(Asked(State())) then res == MoreOutput && out' == out && State() == old(State())
              else res == Ok && out' == out + Chars(variant, UnitDigits(old(State()), ch))
                   && State() == Emitted(old(State()), ch)
    {
      hide Overlaid, Chars, DirectEncodable;
      ghost var st := State();
      ghost var ds := UnitDigits(st, ch);
      res, n, out' := Ok, 0, out;
      DigitByDigit(variant, out, ds);
      match mEncStep {
        case 0 =>
          if room < 2 {
            return MoreOutput, 0, out;
          }
          out' := EmitDigit(dest, d, ch / 1024, was, at, out');
          out' := EmitDigit(dest, d + 1, ch / 16 % 64, was, at, out');
          n := 2;
          mEncBits := ch % 16 * 4;
        case 1 =>
          if room < 3 {
            return MoreOutput, 0, out;
          }
          out' := EmitDigit(dest, d, mEncBits + ch / 16384, was, at, out');
          out' := EmitDigit(dest, d + 1, ch / 256 % 64, was, at, out');
          out' := EmitDigit(dest, d + 2, ch / 4 % 64, was, at, out');
          n := 3;
          mEncBits := ch % 4 * 16;
        case _ =>
          if room < 3 {
            return MoreOutput, 0, out;
          }
          out' := EmitDigit(dest, d, mEncBits + ch / 4096, was, at, out');
          out' := EmitDigit(dest, d + 1, ch / 64 % 64, was, at, out');
          out' := EmitDigit(dest, d + 2, ch % 64, was, at, out');
          n := 3;
          mEncBits := 0;
      }
      mEncStep := (mEncStep + 1) % 3;
      assert State() == Emitted(st, ch);
    }

    method EmitDigit(dest: array<Byte>, d: nat, value: nat, ghost was: seq<Byte>, ghost at: nat, ghost out: seq<Byte>)
      returns (ghost out': seq<Byte>)
      requires Inv() && value < 64
      requires Written(dest, was, at, out) && d == at + |out| < dest.Length
      modifies dest
      ensures out' == out + [Digit(variant, value)] && Written(dest, was, at, out')
    {
      var c := ValueToChar(mLastChar, value);
      Put(dest, d, c, was, at, out);
      out' := out + [c];
    }

    /** Encodes as much of `src` as `room` slots of `dest`, from `at` on, have room for. */
    method ConvertNoBuffNoErr(src: seq<Unit>, dest: array<Byte>, at: nat, room: nat)
      returns (res: Status, read: nat, written: nat)
      requires Inv() && at + |Convert(variant, State(), src, room).out| <= dest.Length
      modifies this, dest
      ensures Inv()
      ensures var c := Convert(variant, old(State()), src, room);
              && res == c.status && read == c.used && written == |c.out| && State() == c.st
              && Written(dest, old(dest[..]), at, c.out)
    {
      hide Reached, Convert, Overlaid, Shift, DirectEncodable;
      res := Ok;
      var i, d, end := 0, at, at + room;
      ghost var was, out, all := dest[..], [], Convert(variant, State(), src, room);
      ReachedStart(variant, State(), src, room);
      NothingWritten(dest, at);

      while i < |src|
        invariant res == Ok && i <= |src| && d == at + |out| && Written(dest, was, at, out)
        invariant Inv() && (d <= end || mEncoding.Direct?)
        invariant Reached(all, variant, State(), src, i, out, room)
      {
        var ch := src[i];
        var enc := if DirectEncodable(variant, ch) then Direct else Base64;

        res, d, out := ShiftInto(enc, src, i, dest, d, end, all, was, at, out);
        if res != Ok {
          break;
        }

        ghost var start := i;
        if enc == Direct {
          res, i, d, out := EncodeDirect(src, i, dest, d, end, all, was, at, out);
        } else {
          res, i, d, out := EncodeBase64(src, i, dest, d, end, all, was, at, out);
        }
        ReachedStop(all, variant, res, State(), src, i, out, room);
        assert res == Ok ==> start < i;
        if res != Ok {
          break;
        }
      }

      if res == Ok {
        ReachedEnd(all, variant, State(), src, out, room);
      }
      read := i;
      written := d - at;
    }

    /** `ShiftEncoding` for the unit at `i`, as a step of the loop above. */
    method ShiftInto(enc: Mode, src: seq<Unit>, i: nat, dest: array<Byte>, d: nat, end: int,
                     ghost all: Call, ghost was: seq<Byte>, ghost at: nat, ghost out: seq<Byte>)
      returns (res: Status, d': nat, ghost out': seq<Byte>)
      requires Inv() && i < |src| && enc == ModeOf(variant, src[i]) && (d <= end || mEncoding.Direct?)
      requires d == at + |out| && Written(dest, was, at, out) && at + |all.out| <= dest.Length
      requires Reached(all, variant, State(), src, i, out, end - at)
      modifies this, dest
      ensures Inv() && d' == at + |out'| && Written(dest, was, at, out')
      ensures res == Ok ==> mEncoding == enc && Reached(all, variant, State(), src, i, out', end - at)
      ensures res == Ok ==> d' <= end || mEncoding.Direct?
      ensures res != Ok ==> all == Call(res, i, out', State())
    {
      hide Reached, Convert, Overlaid, DirectEncodable;
      ghost var mid := dest[..];
      ghost var o := Shift(variant, State(), enc, end - d).out;
      ReachedShift(all, variant, State(), src, i, out, end - at);
      var bcw;
      res, bcw := ShiftEncoding(enc, dest, d, end - d);
      d' := d + bcw;
      WrittenTwice(dest, was, mid, at, out, o);
      out' := out + o;
    }

    /** Leaves base64 mode, so that the text written so far is complete. */
    method FinishNoBuff(dest: array<Byte>, at: nat, room: nat) returns (res: Status, written: int)
      requires Inv() && at + |Shift(variant, State(), Direct, room).out| <= dest.Length
      modifies this, dest
      ensures Inv()
      ensures var c := Shift(variant, old(State()), Direct, room);
              && res == c.status && written == |c.out| && State() == c.st
              && Written(dest, old(dest[..]), at, c.out)
    {
      res, written := ShiftEncoding(Direct, dest, at, room);
    }
  }

  /** `all` is a call that, having consumed `i` units and written `out`, is in state `st`. */
  predicate Reached(all: Call, v: Variant, st: EncState, src: seq<Unit>, i: nat, out: seq<Byte>, room: int)
    requires Valid(st) && i <= |src|
  {
    all == After(i, out, Convert(v, st, src[i..], room - |out|))
  }

  /** A loop in one mode ends at the end of the source, at a unit of the other mode, or without room. */
  predicate Stopped(v: Variant, res: Status, st: EncState, src: seq<Unit>, i: nat, room: int)
    requires Valid(st) && i <= |src|
  {
    match res
    case Ok => i < |src| ==> ModeOf(v, src[i]) != st.mode
    case MoreOutput => i < |src| && ModeOf(v, src[i]) == st.mode && room < Asked(st)
    case IllegalInput => false
  }

  lemma ReachedStart(v: Variant, st: EncState, src: seq<Unit>, room: int)
    requires Valid(st)
    ensures Reached(Convert(v, st, src, room), v, st, src, 0, [], room)
  {
    var c := Convert(v, st, src, room);
    assert src[0..] == src && [] + c.out == c.out;
  }

  /** A unit of the current mode that fits is written without a mode change. */
  lemma ReachedUnit(all: Call, v: Variant, st: EncState, src: seq<Unit>, i: nat, out: seq<Byte>, room: int)
    requires Valid(st) && i < |src| && Reached(all, v, st, src, i, out, room)
    requires ModeOf(v, src[i]) == st.mode && room - |out| >= Asked(st)
    ensures Reached(all, v, Emitted(st, src[i]), src, i + 1, out + Emit(v, st, src[i]), room)
    ensures |out| + |Emit(v, st, src[i])| <= |all.out|
  {
    hide Emit, DirectEncodable;
    var u, e := src[i..], Emit(v, st, src[i]);
    assert [] + e == e;
    assert u[1..] == src[i + 1..];
    Assoc(out, e, Convert(v, Emitted(st, src[i]), src[i + 1..], room - |out| - |e|).out);
  }

  lemma ReachedDirect(all: Call, v: Variant, st: EncState, src: seq<Unit>, i: nat, out: seq<Byte>, room: int)
    requires Valid(st) && i < |src| && Reached(all, v, st, src, i, out, room)
    requires st.mode.Direct? && DirectEncodable(v, src[i]) && room - |out| >= 1
    ensures var ch := src[i];
            var out' := if ch == EscChar(v) then out + [ch] + [MINUS] else out + [ch];
            Reached(all, v, st, src, i + 1, out', room) && |out'| <= |all.out|
  {
    ReachedUnit(all, v, st, src, i, out, room);
    assert out + [src[i], MINUS] == out + [src[i]] + [MINUS];
  }

  lemma ShiftParts(v: Variant, st: EncState, m: Mode, room: int)
    requires Valid(st) && m != st.mode
    ensures var flush := if st.step != 0 then [Digit(v, st.bits)] else [];
            var c := Shift(v, st, m, room);
            && (room < |flush| ==> c == Call(MoreOutput, 0, [], st))
            && (room == |flush| ==> c == Call(MoreOutput, 0, flush, EncState(st.mode, 0, 0)))
            && (room > |flush| ==> c == Call(Ok, 0, flush + [if m.Direct? then MINUS else EscChar(v)], EncState(m, 0, 0)))
  {
  }

  lemma DigitByDigit(v: Variant, out: seq<Byte>, ds: seq<nat>)
    requires forall i :: 0 <= i < |ds| ==> ds[i] < 64
    ensures |ds| == 2 ==> out + Chars(v, ds) == out + [Digit(v, ds[0])] + [Digit(v, ds[1])]
    ensures |ds| == 3 ==> out + Chars(v, ds) == out + [Digit(v, ds[0])] + [Digit(v, ds[1])] + [Digit(v, ds[2])]
  {
  }

  /** A mode change that succeeds leaves the rest of the call to do; one that stops ends it. */
  lemma ReachedShift(all: Call, v: Variant, st: EncState, src: seq<Unit>, i: nat, out: seq<Byte>, room: int)
    requires Valid(st) && i < |src| && Reached(all, v, st, src, i, out, room)
    ensures var s := Shift(v, st, ModeOf(v, src[i]), room - |out|);
            && |out + s.out| <= |all.out|
            && (s.status == Ok ==> Reached(all, v, s.st, src, i, out + s.out, room))
            && (s.status != Ok ==> all == Call(MoreOutput, i, out + s.out, s.st))
  {
    hide Shift, UnitOut, UnitNext, DirectEncodable;
    var u, s := src[i..], Shift(v, st, ModeOf(v, src[i]), room - |out|);
    if s.status == Ok {
      ShiftThenConvert(v, st, u, room - |out|);
      AfterAfter(i, out, 0, s.out, Convert(v, s.st, u, room - |out| - |s.out|));
    } else {
      assert Convert(v, st, u, room - |out|) == Blocked(v, st, u[0], room - |out|);
    }
  }

  lemma UnitAfterShift(v: Variant, st: EncState, ch: Unit, room: int)
    requires Valid(st) && Shift(v, st, ModeOf(v, ch), room).status == Ok
    ensures var s := Shift(v, st, ModeOf(v, ch), room);
            && UnitOut(v, st, ch) == s.out + UnitOut(v, s.st, ch)
            && UnitNext(v, st, ch) == UnitNext(v, s.st, ch)
            && Fits(v, st, ch, room) == Fits(v, s.st, ch, room - |s.out|)
            && Blocked(v, st, ch, room) == Call(MoreOutput, 0, s.out, s.st)
            && Blocked(v, s.st, ch, room - |s.out|) == Call(MoreOutput, 0, [], s.st)
  {
    var s := Shift(v, st, ModeOf(v, ch), room);
    var e := Emit(v, s.st, ch);
    assert [] + e == e;
  }

  lemma ShiftThenConvert(v: Variant, st: EncState, u: seq<Unit>, room: int)
    requires Valid(st) && u != [] && Shift(v, st, ModeOf(v, u[0]), room).status == Ok
    ensures var s := Shift(v, st, ModeOf(v, u[0]), room);
            Convert(v, st, u, room) == After(0, s.out, Convert(v, s.st, u, room - |s.out|))
  {
    hide Shift, UnitOut, UnitNext, Fits, Blocked, DirectEncodable;
    var s := Shift(v, st, ModeOf(v, u[0]), room);
    var o, st' := UnitOut(v, s.st, u[0]), UnitNext(v, s.st, u[0]);
    UnitAfterShift(v, st, u[0], room);
    if Fits(v, st, u[0], room) {
      AfterAfter(0, s.out, 1, o, Convert(v, st', u[1..], room - |s.out| - |o|));
    } else {
      AfterAfter(0, s.out, 0, [], Call(MoreOutput, 0, [], s.st));
      assert s.out + [] == s.out;
    }
  }

  lemma AfterAfter(i: nat, a: seq<Byte>, k: nat, b: seq<Byte>, c: Call)
    ensures After(i, a, After(k, b, c)) == After(i + k, a + b, c)
  {
    Assoc(a, b, c.out);
  }

  lemma ReachedStop(all: Call, v: Variant, res: Status, st: EncState, src: seq<Unit>, i: nat, out: seq<Byte>, room: int)
    requires Valid(st) && i <= |src| && Reached(all, v, st, src, i, out, room)
    requires Stopped(v, res, st, src, i, room - |out|)
    ensures res != Ok ==> all == Call(res, i, out, st)
  {
    if res != Ok {
      StoppedCall(v, st, src[i..], room - |out|);
    }
  }

  lemma StoppedCall(v: Variant, st: EncState, u: seq<Unit>, room: int)
    requires Valid(st) && Stopped(v, MoreOutput, st, u, 0, room)
    ensures Convert(v, st, u, room) == Call(MoreOutput, 0, [], st)
  {
  }

  lemma ReachedEnd(all: Call, v: Variant, st: EncState, src: seq<Unit>, out: seq<Byte>, room: int)
    requires Valid(st) && Reached(all, v, st, src, |src|, out, room)
    ensures all == Call(Ok, |src|, out, st)
  {
  }
}
