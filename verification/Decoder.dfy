/** `nsBasicUTF7Decoder` with its two instantiations: the loops over the caller's buffers. */
module Decoder {
  import opened Buffers
  import opened Sequences
  import opened Utf7
  import opened DecoderSpec
  import opened DecoderRuns

  class BasicUTF7Decoder {
    var mEncoding: Mode
    var mEncBits: nat
    var mEncStep: nat
    var mFreshBase64: bool
    const mLastChar: Byte
    const mEscChar: Byte
    ghost const variant: Variant

    ghost predicate Inv()
      reads this
    {
      mLastChar == LastChar(variant) && mEscChar == EscChar(variant) && Valid(State())
    }

    ghost function State(): DecState
      reads this
    {
      DecState(mEncoding, mEncBits, mEncStep, mFreshBase64)
    }

    constructor nsUTF7ToUnicode()
      ensures Inv() && variant == UTF7 && State() == DecState(Direct, 0, 0, false)
    {
      mLastChar, mEscChar, variant := 47, 43, UTF7;
      mFreshBase64 := false;
      mEncoding, mEncBits, mEncStep := Direct, 0, 0;
    }

    constructor nsMUTF7ToUnicode()
      ensures Inv() && variant == MUTF7 && State() == DecState(Direct, 0, 0, false)
    {
      mLastChar, mEscChar, variant := 44, 38, MUTF7;
      mFreshBase64 := false;
      mEncoding, mEncBits, mEncStep := Direct, 0, 0;
    }

    method Reset()
      requires Inv()
      modifies this
      ensures Inv() && State() == DecState(Direct, 0, 0, old(mFreshBase64))
    {
      mEncoding := Direct;
      mEncBits := 0;
      mEncStep := 0;
    }

    /** Copies bytes until the escape character comes or there is no room. */
    method DecodeDirect(src: seq<Byte>, i: nat, dest: array<int>, d: nat, end: int,
                        ghost all: Call, ghost was: seq<int>, ghost at: nat, ghost out: seq<int>)
      returns (res: Status, i': nat, d': nat, ghost out': seq<int>)
      requires Inv() && mEncoding.Direct? && i <= |src|
      requires d == at + |out| && Written(dest, was, at, out) && at + |all.out| <= dest.Length
      requires Reached(all, variant, State(), src, i, out, end - at)
      modifies dest
      ensures i <= i' <= |src| && d' == at + |out'| && Written(dest, was, at, out')
      ensures Reached(all, variant, State(), src, i', out', end - at)
      ensures Stopped(variant, res, State(), src, i', end - d')
    {
      hide Reached, Overlaid;
      res, i', d', out' := Ok, i, d, out;
      ghost var st := State();
      while i' < |src|
        invariant i <= i' <= |src| && d' == at + |out'| && Written(dest, was, at, out')
        invariant res == Ok && Reached(all, variant, st, src, i', out', end - at)
      {
        var ch := src[i'];
        if ch == mEscChar {
          res := IllegalInput;
          break;
        }
        if d' >= end {
          res := MoreOutput;
          break;
        } else {
          ReachedByte(all, variant, st, src, i', out', end - at);
          Put(dest, d', Widen(ch), was, at, out');
          out' := out' + [Widen(ch)];
          d' := d' + 1;
          i' := i' + 1;
        }
      }
    }

    /** Regroups digits into units until another byte comes or a unit finds no room. */
    method DecodeBase64(src: seq<Byte>, i: nat, dest: array<int>, d: nat, end: int,
                        ghost all: Call, ghost was: seq<int>, ghost at: nat, ghost out: seq<int>)
      returns (res: Status, i': nat, d': nat, ghost out': seq<int>)
      requires Inv() && mEncoding.Base64? && !mFreshBase64 && i <= |src|
      requires d == at + |out| && Written(dest, was, at, out) && at + |all.out| <= dest.Length
      requires Reached(all, variant, State(), src, i, out, end - at)
      modifies `mEncBits, `mEncStep, dest
      ensures Inv() && i <= i' <= |src| && d' == at + |out'| && Written(dest, was, at, out')
      ensures Reached(all, variant, State(), src, i', out', end - at)
      ensures Stopped(variant, res, State(), src, i', end - d')
    {
      hide Reached, Overlaid, DigitBits, DigitOut, Value, CharToValue;
      res, i', d', out' := Ok, i, d, out;
      ghost var st := State();
      while i' < |src|
        invariant i <= i' <= |src| && d' == at + |out'| && Written(dest, was, at, out')
        invariant res == Ok && Inv() && st == State() && mEncoding == Base64 && !mFreshBase64
        invariant Reached(all, variant, st, src, i', out', end - at)
      {
        var ch := src[i'];
        ValueDigit(variant, ch);
        var value := CharToValue(mLastChar, ch);
        assert value == Value(variant, ch) by { CharValue(variant, ch); }
        if value > 0xff {
          res := IllegalInput;
          break;
        }
        if !(Completes(mEncStep) && d' >= end) {
          DigitFits(variant, st, ch, end - d');
          ReachedByte(all, variant, st, src, i', out', end - at);
        }
        res, d', out' := DecodeDigit(value, dest, d', end, was, at, out');
        if res != Ok {
          break;
        }
        i' := i' + 1;
        st := DigitNext(st, value);
      }
    }

    /** The 8-phase machine on one digit. */
    method DecodeDigit(value: nat, dest: array<int>, d: nat, end: int,
                       ghost was: seq<int>, ghost at: nat, ghost out: seq<int>)
      returns (res: Status, d': nat, ghost out': seq<int>)
      requires Inv() && !mFreshBase64 && value < 64
      requires Written(dest, was, at, out) && d == at + |out|
      requires Completes(mEncStep) && d < end ==> d < dest.Length
      modifies `mEncBits, `mEncStep, dest
      ensures Inv() && Written(dest, was, at, out') && d' == at + |out'|
      ensures if old(Completes(mEncStep)) && d >= end then res == MoreOutput && out' == out && State() == old(State())
              else res == Ok && out' == out + DigitOut(old(State()), value)
                   && State() == DigitNext(old(State()), value)
    {
      hide Overlaid;
      ghost var st := State();
      DigitAligned(st, value);
      Empty(out);
      res, d', out' := Ok, d, out;
      match mEncStep {
        case 0 => mEncBits := value * 1024;
        case 1 => mEncBits := mEncBits + value * 16;
        case 2 =>
          if d >= end {
            return MoreOutput, d, out;
          }
          mEncBits := mEncBits + value / 4;
          d', out' := PutUnit(dest, d, mEncBits, was, at, out);
          mEncBits := value % 4 * 16384;
        case 3 => mEncBits := mEncBits + value * 256;
        case 4 => mEncBits := mEncBits + value * 4;
        case 5 =>
          if d >= end {
            return MoreOutput, d, out;
          }
          mEncBits := mEncBits + value / 16;
          d', out' := PutUnit(dest, d, mEncBits, was, at, out);
          mEncBits := value % 16 * 4096;
        case 6 => mEncBits := mEncBits + value * 64;
        case _ =>
          if d >= end {
            return MoreOutput, d, out;
          }
          mEncBits := mEncBits + value;
          d', out' := PutUnit(dest, d, mEncBits, was, at, out);
          mEncBits := 0;
      }
      mEncStep := (mEncStep + 1) % 8;
    }

    /** `*(dest++) = (char16_t)bits`. */
    static method PutUnit(dest: array<int>, d: nat, bits: nat, ghost was: seq<int>, ghost at: nat, ghost out: seq<int>)
      returns (d': nat, ghost out': seq<int>)
      requires Written(dest, was, at, out) && d == at + |out| < dest.Length
      modifies dest
      ensures d' == d + 1 && out' == out + [bits % 0x10000] && Written(dest, was, at, out')
    {
      Put(dest, d, bits % 0x10000, was, at, out);
      d' := d + 1;
      out' := out + [bits % 0x10000];
    }

    /** Decodes as much of `src` as `room` slots of `dest`, from `at` on, have room for. */
    method ConvertNoBuff(src: seq<Byte>, dest: array<int>, at: nat, room: nat)
      returns (res: Status, read: nat, written: nat)
      requires Inv() && at + |Convert(variant, State(), src, room).out| <= dest.Length
      modifies this, dest
      ensures Inv() && res != IllegalInput
      ensures var c := Convert(variant, old(State()), src, room);
              && res == c.status && read == c.used && written == |c.out| && State() == c.st
              && Written(dest, old(dest[..]), at, c.out)
    {
      hide Reached, Convert, Overlaid, Aligned;
      res := Ok;
      var i, d, end := 0, at, at + room;
      ghost var was, out, all := dest[..], [], Convert(variant, State(), src, room);
      ReachedStart(variant, State(), src, room);
      NothingWritten(dest, at);

      while i < |src|
        invariant res == Ok && i <= |src| && d == at + |out| && Written(dest, was, at, out)
        invariant Inv() && Reached(all, variant, State(), src, i, out, room)
        decreases |src| - i, mEncoding.Base64?
      {
        if mEncoding == Direct {
          res, i, d, out := DecodeDirect(src, i, dest, d, end, all, was, at, out);
        } else if mFreshBase64 && src[i] == MINUS {
          ReachedByte(all, variant, State(), src, i, out, room);
          Put(dest, d, mEscChar, was, at, out);
          out := out + [mEscChar];
          d := d + 1;
          res := IllegalInput;
        } else {
          ReachedCalm(all, variant, State(), src, i, out, room);
          mFreshBase64 := false;
          res, i, d, out := DecodeBase64(src, i, dest, d, end, all, was, at, out);
        }

        // what ended the loop of the current mode may be an escape sequence
        if res == IllegalInput {
          if mEncoding == Direct {
            if src[i] == mEscChar {
              ReachedByte(all, variant, State(), src, i, out, room);
              Empty(out);
              mEncoding := Base64;
              mFreshBase64 := true;
              mEncBits := 0;
              mEncStep := 0;
              i := i + 1;
              res := Ok;
            } else {
              assert false;
            }
          } else {
            if !mFreshBase64 {
              ReachedLeave(all, variant, State(), src, i, out, room);
            }
            mEncoding := Direct;
            res := Ok;
            if src[i] == MINUS {
              i := i + 1;
            }
          }
        } else if res != Ok {
          ReachedStop(all, variant, State(), src, i, out, room);
          break;
        }
      }

      if res == Ok {
        ReachedEnd(all, variant, State(), src, out, room);
      }
      read := i;
      written := d - at;
    }
  }

  /** `all` is a call that, having consumed `i` bytes and written `out`, is in state `st`. */
  predicate Reached(all: Call, v: Variant, st: DecState, src: seq<Byte>, i: nat, out: seq<int>, room: int)
    requires Valid(st) && i <= |src|
  {
    all == After(i, out, Convert(v, st, src[i..], room - |out|))
  }

  /** The loop of a mode ends at the end of the source, without room, or at a byte it does not know. */
  predicate Stopped(v: Variant, res: Status, st: DecState, src: seq<Byte>, i: nat, room: int)
    requires Valid(st) && i <= |src|
  {
    match res
    case Ok => i == |src|
    case MoreOutput =>
      i < |src| && room <= 0
      && if st.mode.Direct? then src[i] != EscChar(v) else IsDigit(v, src[i]) && Completes(st.step) && !st.escaped
    case IllegalInput => i < |src| && if st.mode.Direct? then src[i] == EscChar(v) else !IsDigit(v, src[i])
  }

  lemma CharValue(v: Variant, c: Byte)
    ensures CharToValue(LastChar(v), c) == Value(v, c)
  {
  }

  lemma ReachedStart(v: Variant, st: DecState, src: seq<Byte>, room: int)
    requires Valid(st)
    ensures Reached(Convert(v, st, src, room), v, st, src, 0, [], room)
  {
    hide Convert;
    assert src[0..] == src;
    Empty(Convert(v, st, src, room).out);
  }

  /** A byte that fits is consumed, and its unit, if it makes one, is written. */
  lemma ReachedByte(all: Call, v: Variant, st: DecState, src: seq<Byte>, i: nat, out: seq<int>, room: int)
    requires Valid(st) && i < |src| && Reached(all, v, st, src, i, out, room) && Fits(v, st, src[i], room - |out|)
    ensures Reached(all, v, ByteNext(v, st, src[i]), src, i + 1, out + ByteOut(v, st, src[i]), room)
    ensures |out| + |ByteOut(v, st, src[i])| <= |all.out|
  {
    hide Convert, ByteOut, ByteNext, Fits;
    var o := ByteOut(v, st, src[i]);
    ConvertByte(v, st, src[i..], room - |out|);
    assert src[i..][1..] == src[i + 1..];
    Assoc(out, o, Convert(v, ByteNext(v, st, src[i]), src[i + 1..], room - |out| - |o|).out);
  }

  lemma DigitFits(v: Variant, st: DecState, b: Byte, room: int)
    requires Valid(st) && st.mode.Base64? && !st.escaped && IsDigit(v, b) && !(Completes(st.step) && room <= 0)
    ensures Fits(v, st, b, room)
    ensures ByteOut(v, st, b) == DigitOut(st, Value(v, b)) && ByteNext(v, st, b) == DigitNext(st, Value(v, b))
    ensures Completes(st.step) ==> |ByteOut(v, st, b)| == 1
  {
    hide Value;
  }

  /** Past a byte other than `-` it no longer matters that the escape character has just been read. */
  lemma ReachedCalm(all: Call, v: Variant, st: DecState, src: seq<Byte>, i: nat, out: seq<int>, room: int)
    requires Valid(st) && st.mode.Base64? && i < |src| && !IsPair(st, src[i])
    requires Reached(all, v, st, src, i, out, room)
    ensures Reached(all, v, st.(escaped := false), src, i, out, room)
  {
    hide IsDigit;
  }

  /** A section that ends is left; `-` is consumed with it, any other byte is looked at again. */
  lemma ReachedLeave(all: Call, v: Variant, st: DecState, src: seq<Byte>, i: nat, out: seq<int>, room: int)
    requires Valid(st) && st.mode.Base64? && !st.escaped && i < |src| && !IsDigit(v, src[i])
    requires Reached(all, v, st, src, i, out, room)
    ensures Reached(all, v, st.(mode := Direct), src, if src[i] == MINUS then i + 1 else i, out, room)
  {
    hide IsDigit;
    if src[i] == MINUS {
      assert src[i..][1..] == src[i + 1..];
      Empty(Convert(v, st.(mode := Direct), src[i + 1..], room - |out|).out);
    }
  }

  lemma ReachedStop(all: Call, v: Variant, st: DecState, src: seq<Byte>, i: nat, out: seq<int>, room: int)
    requires Valid(st) && i <= |src| && Reached(all, v, st, src, i, out, room)
    requires Stopped(v, MoreOutput, st, src, i, room - |out|)
    ensures all == Call(MoreOutput, i, out, st)
  {
    hide IsDigit;
    Empty(out);
    assert Convert(v, st, src[i..], room - |out|) == Call(MoreOutput, 0, [], st);
  }

  lemma ReachedEnd(all: Call, v: Variant, st: DecState, src: seq<Byte>, out: seq<int>, room: int)
    requires Valid(st) && Reached(all, v, st, src, |src|, out, room)
    ensures all == Call(Ok, |src|, out, st)
  {
    Empty(out);
    ConvertNothing(v, st, room - |out|);
  }
}
