/** What one call of the decoder does, byte by byte, and what a byte means given unlimited room. */
module DecoderSpec {
  import opened Utf7

  /** `mEncoding`, `mEncBits`, `mEncStep` and `mFreshBase64`. */
  datatype DecState = DecState(mode: Mode, bits: nat, step: nat, escaped: bool)

  /** The carried bits are left-aligned in 16 bits; right after an escape character there are none. */
  predicate Valid(st: DecState) {
    && st.step < 8
    && st.bits < 0x10000
    && Aligned(st.bits, st.step)
    && (st.mode.Base64? && st.escaped ==> st.step == 0)
  }

  predicate Aligned(bits: nat, step: nat) {
    match step
    case 0 => bits == 0
    case 1 => bits % 1024 == 0
    case 2 => bits % 16 == 0
    case 3 => bits % 16384 == 0
    case 4 => bits % 256 == 0
    case 5 => bits % 4 == 0
    case 6 => bits % 4096 == 0
    case 7 => bits % 64 == 0
    case _ => false
  }

  datatype Call = Call(status: Status, used: nat, out: seq<int>, st: DecState)

  function After(used: nat, out: seq<int>, c: Call): Call {
    c.(used := used + c.used, out := out + c.out)
  }

  // ----- the 8-phase machine on one digit

  /** The unit a digit completes, if it completes one; `uint32_t` arithmetic cast to `char16_t`. */
  function DigitOut(st: DecState, d: nat): seq<nat>
    requires Valid(st) && d < 64
  {
    match st.step
    case 2 => [(st.bits + d / 4) % 0x10000]
    case 5 => [(st.bits + d / 16) % 0x10000]
    case 7 => [(st.bits + d) % 0x10000]
    case _ => []
  }

  function DigitBits(st: DecState, d: nat): nat {
    match st.step
    case 0 => d * 1024
    case 1 => st.bits + d * 16
    case 2 => d % 4 * 16384
    case 3 => st.bits + d * 256
    case 4 => st.bits + d * 4
    case 5 => d % 16 * 4096
    case 6 => st.bits + d * 64
    case _ => 0
  }

  /** Digits that are put below `k * n` and above the last `m` places leave those places zero. */
  lemma Below(bits: nat, n: nat, q: nat, m: nat, d: nat)
    requires bits == n * q && n == 64 * m && d < 64
    requires n in {1024, 16384, 256, 4096} && bits < 0x10000
    ensures (bits + d * m) % m == 0 && bits + d * m < 0x10000 && (bits + d * m) / m == 64 * q + d
  {
    if n == 1024 {
      assert bits + d * 16 == 16 * (64 * q + d);
    } else if n == 16384 {
      assert bits + d * 256 == 256 * (64 * q + d);
    } else if n == 256 {
      assert bits + d * 4 == 4 * (64 * q + d);
    } else {
      assert bits + d * 64 == 64 * (64 * q + d);
    }
  }

  lemma Lone(k: nat)
    ensures k * 1024 % 1024 == 0 && k * 16384 % 16384 == 0 && k * 4096 % 4096 == 0
  {
  }

  lemma DigitAligned(st: DecState, d: nat)
    requires Valid(st) && d < 64
    ensures Aligned(DigitBits(st, d), (st.step + 1) % 8) && DigitBits(st, d) < 0x10000
  {
    match st.step
    case 0 => Lone(d);
    case 2 => Lone(d % 4);
    case 5 => Lone(d % 16);
    case 1 => Below(st.bits, 1024, st.bits / 1024, 16, d);
    case 3 => Below(st.bits, 16384, st.bits / 16384, 256, d);
    case 4 => Below(st.bits, 256, st.bits / 256, 4, d);
    case 6 => Below(st.bits, 4096, st.bits / 4096, 64, d);
    case _ =>
  }

  function DigitNext(st: DecState, d: nat): (st': DecState)
    requires Valid(st) && d < 64
    ensures Valid(st') && st'.mode == st.mode && !st'.escaped
  {
    DigitAligned(st, d);
    DecState(st.mode, DigitBits(st, d), (st.step + 1) % 8, false)
  }

  /** The digits after which a unit is complete, so that a free slot is asked for. */
  predicate Completes(step: nat) {
    step == 2 || step == 5 || step == 7
  }

  // ----- one byte, with unlimited room

  const FRESH := DecState(Base64, 0, 0, true)

  function ByteOut(v: Variant, st: DecState, b: Byte): (out: seq<int>)
    requires Valid(st)
    ensures |out| <= 1
  {
    if st.mode.Direct? then (if b == EscChar(v) then [] else [Widen(b)])
    else if st.escaped && b == MINUS then [EscChar(v)]
    else if IsDigit(v, b) then DigitOut(st, Value(v, b))
    else if b == MINUS || b == EscChar(v) then []
    else [Widen(b)]
  }

  function ByteNext(v: Variant, st: DecState, b: Byte): (st': DecState)
    requires Valid(st)
    ensures Valid(st')
  {
    if st.mode.Direct? then (if b == EscChar(v) then FRESH else st)
    else if st.escaped && b == MINUS then st.(mode := Direct)
    else if IsDigit(v, b) then DigitNext(st, Value(v, b))
    else if b == EscChar(v) then FRESH
    else st.(mode := Direct, escaped := false)
  }

  /** The units that a string of bytes stands for, in a given state, and the state it leaves. */
  datatype Text = Text(out: seq<int>, st: DecState)

  function Decode(v: Variant, st: DecState, s: seq<Byte>): (t: Text)
    requires Valid(st)
    ensures Valid(t.st) && |t.out| <= |s|
    decreases |s|
  {
    if s == [] then Text([], st)
    else
      var t := Decode(v, ByteNext(v, st, s[0]), s[1..]);
      Text(ByteOut(v, st, s[0]) + t.out, t.st)
  }

  // ----- a whole call

  /** `ConvertNoBuff` on `s` with `room` free slots: a byte that ends a section is looked at twice. */
  function Convert(v: Variant, st: DecState, s: seq<Byte>, room: int): (c: Call)
    requires Valid(st)
    ensures Valid(c.st) && c.used <= |s|
    decreases |s|, st.mode.Base64?
  {
    if s == [] then Call(Ok, 0, [], st)
    else if st.mode.Direct? then
      if s[0] == EscChar(v) then After(1, [], Convert(v, FRESH, s[1..], room))
      else if room <= 0 then Call(MoreOutput, 0, [], st)
      else After(1, [Widen(s[0])], Convert(v, st, s[1..], room - 1))
    else if st.escaped && s[0] == MINUS then
      After(1, [EscChar(v)], Convert(v, st.(mode := Direct), s[1..], room - 1))
    else if IsDigit(v, s[0]) then
      if Completes(st.step) && room <= 0 then Call(MoreOutput, 0, [], st.(escaped := false))
      else
        var o := DigitOut(st, Value(v, s[0]));
        After(1, o, Convert(v, DigitNext(st, Value(v, s[0])), s[1..], room - |o|))
    else
      var st' := st.(mode := Direct, escaped := false);
      if s[0] == MINUS then After(1, [], Convert(v, st', s[1..], room))
      else Convert(v, st', s, room)
  }
}
