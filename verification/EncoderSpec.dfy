/** What one call of the encoder does, unit by unit, and what is still to be written afterwards. */
module EncoderSpec {
  import opened Utf7

  /** `mEncoding`, `mEncBits` and `mEncStep`. */
  datatype EncState = EncState(mode: Mode, bits: nat, step: nat)

  const IDLE := EncState(Direct, 0, 0)

  /** The states the encoder can be in between any two of its own steps. */
  predicate Valid(st: EncState) {
    && st.step <= 2
    && (st.mode.Direct? ==> st.step == 0)
    && (st.step == 0 ==> st.bits == 0)
    && (st.step == 1 ==> st.bits % 4 == 0 && st.bits <= 60)
    && (st.step == 2 ==> st.bits % 16 == 0 && st.bits <= 48)
  }

  /** The result of a call: return code, units consumed, bytes written, state afterwards. */
  datatype Call = Call(status: Status, used: nat, out: seq<Byte>, st: EncState)

  /** `c` preceded by work that consumed `used` units and wrote `out`. */
  function After(used: nat, out: seq<Byte>, c: Call): Call {
    c.(used := used + c.used, out := out + c.out)
  }

  // ----- one unit

  /** The digits a non-direct unit completes in the 3-phase machine. */
  function UnitDigits(st: EncState, ch: Unit): (ds: seq<nat>)
    requires Valid(st)
    ensures forall i :: 0 <= i < |ds| ==> ds[i] < 64
    ensures |ds| == if st.step == 0 then 2 else 3
  {
    if st.step == 0 then [ch / 1024, ch / 16 % 64]
    else if st.step == 1 then [st.bits + ch / 16384, ch / 256 % 64, ch / 4 % 64]
    else [st.bits + ch / 4096, ch / 64 % 64, ch % 64]
  }

  function Emit(v: Variant, st: EncState, ch: Unit): (out: seq<Byte>)
    requires Valid(st) && st.mode == ModeOf(v, ch)
    ensures |out| >= 1
  {
    if st.mode.Base64? then Chars(v, UnitDigits(st, ch))
    else if ch == EscChar(v) then [ch, MINUS]
    else [ch]
  }

  function Emitted(st: EncState, ch: Unit): (st': EncState)
    requires Valid(st)
    ensures Valid(st') && st'.mode == st.mode
  {
    if st.mode.Direct? then st
    else if st.step == 0 then EncState(Base64, ch % 16 * 4, 1)
    else if st.step == 1 then EncState(Base64, ch % 4 * 16, 2)
    else EncState(Base64, 0, 0)
  }

  /** The free slots the encoder asks for before it writes a unit (one, even for an escape pair). */
  function Asked(st: EncState): nat {
    if st.mode.Direct? then 1 else if st.step == 0 then 2 else 3
  }

  // ----- changing mode

  /** Everything written to get from `st` into mode `m`. */
  function ShiftOut(v: Variant, st: EncState, m: Mode): (out: seq<Byte>)
    requires Valid(st)
  {
    if m == st.mode then []
    else (if st.step != 0 then [Digit(v, st.bits)] else []) + [if m.Direct? then MINUS else EscChar(v)]
  }

  function Shifted(st: EncState, m: Mode): (st': EncState)
    requires Valid(st)
    ensures Valid(st') && st'.mode == m
  {
    if m == st.mode then st else EncState(m, 0, 0)
  }

  /** `ShiftEncoding` with `room` free slots; it can stop before or after the flushed digit. */
  function Shift(v: Variant, st: EncState, m: Mode, room: int): (c: Call)
    requires Valid(st)
    ensures Valid(c.st) && c.used == 0 && c.status != IllegalInput
  {
    if m == st.mode then Call(Ok, 0, [], st)
    else
      var flush := if st.step != 0 then [Digit(v, st.bits)] else [];
      if room < |flush| then Call(MoreOutput, 0, [], st)
      else if room <= |flush| then Call(MoreOutput, 0, flush, EncState(st.mode, 0, 0))
      else Call(Ok, 0, ShiftOut(v, st, m), Shifted(st, m))
  }

  // ----- mode change and unit together

  /** Everything written, given unlimited room, to get a unit out. */
  function UnitOut(v: Variant, st: EncState, ch: Unit): (out: seq<Byte>)
    requires Valid(st)
    ensures |out| >= 1
  {
    ShiftOut(v, st, ModeOf(v, ch)) + Emit(v, Shifted(st, ModeOf(v, ch)), ch)
  }

  function UnitNext(v: Variant, st: EncState, ch: Unit): (st': EncState)
    requires Valid(st)
    ensures Valid(st') && st'.mode == ModeOf(v, ch)
  {
    Emitted(Shifted(st, ModeOf(v, ch)), ch)
  }

  predicate Fits(v: Variant, st: EncState, ch: Unit, room: int)
    requires Valid(st)
  {
    var s := Shift(v, st, ModeOf(v, ch), room);
    s.status == Ok && room - |s.out| >= Asked(s.st)
  }

  /** A call that stops at a unit may have begun, or completed, the mode change on the way to it. */
  function Blocked(v: Variant, st: EncState, ch: Unit, room: int): (c: Call)
    requires Valid(st)
    ensures Valid(c.st) && c.used == 0 && c.status == MoreOutput
  {
    Shift(v, st, ModeOf(v, ch), room).(status := MoreOutput)
  }

  // ----- a whole call

  /** `ConvertNoBuffNoErr` on `u` with `room` free slots. */
  function Convert(v: Variant, st: EncState, u: seq<Unit>, room: int): (c: Call)
    requires Valid(st)
    ensures Valid(c.st) && c.used <= |u| && c.status != IllegalInput
    ensures c.status == Ok ==> c.used == |u|
    decreases |u|
  {
    if u == [] then Call(Ok, 0, [], st)
    else if Fits(v, st, u[0], room) then
      var o := UnitOut(v, st, u[0]);
      After(1, o, Convert(v, UnitNext(v, st, u[0]), u[1..], room - |o|))
    else Blocked(v, st, u[0], room)
  }

  /** Everything still to be written, given unlimited room, once `u` is the rest of the input. */
  function Rest(v: Variant, st: EncState, u: seq<Unit>): (out: seq<Byte>)
    requires Valid(st)
    decreases |u|
  {
    if u == [] then ShiftOut(v, st, Direct)
    else UnitOut(v, st, u[0]) + Rest(v, UnitNext(v, st, u[0]), u[1..])
  }

  /** Everything the units of `u` write, given unlimited room, without a final mode change. */
  function Feed(v: Variant, st: EncState, u: seq<Unit>): (out: seq<Byte>)
    requires Valid(st)
    decreases |u|
  {
    if u == [] then [] else UnitOut(v, st, u[0]) + Feed(v, UnitNext(v, st, u[0]), u[1..])
  }

  /** The state they lead to. */
  function Fed(v: Variant, st: EncState, u: seq<Unit>): (st': EncState)
    requires Valid(st)
    ensures Valid(st')
    decreases |u|
  {
    if u == [] then st else Fed(v, UnitNext(v, st, u[0]), u[1..])
  }
}
