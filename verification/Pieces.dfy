/** Every string the decoder may meet, piece by piece, and what each piece means. */
module Pieces {
  import opened Sequences
  import opened Bits
  import opened Utf7
  import opened DecoderSpec
  import opened DecoderRuns
  import opened DecoderText
  import opened RoundTrip
  import opened Canonical

  /**
    * A byte that stands for itself, an escape pair, or a base64 section with digits `ds` for the units `r`. Unlike those
    * the encoder writes, a section may hold any units, follow another one, end in any bits and end without `-`.
    */
  datatype Piece = Plain(b: Byte) | Pair | Section(ds: seq<nat>, r: seq<Unit>, closed: bool)

  function PieceBytes(v: Variant, p: Piece): seq<Byte>
    requires WellFormed(v, p)
  {
    match p
    case Plain(b) => [b]
    case Pair => [EscChar(v), MINUS]
    case Section(ds, _, closed) => [EscChar(v)] + Chars(v, ds) + (if closed then [MINUS] else [])
  }

  function PieceUnits(v: Variant, p: Piece): seq<int> {
    match p
    case Plain(b) => [Widen(b)]
    case Pair => [EscChar(v)]
    case Section(_, r, _) => r
  }

  /** The bits of `ds` are those of the units of `r` and fewer than 16 more. */
  ghost predicate BeginsWith(ds: seq<nat>, r: seq<Unit>) {
    exists tail :: |tail| < 16 && Flat(6, ds) == Flat(16, r) + tail
  }

  ghost predicate WellFormed(v: Variant, p: Piece) {
    match p
    case Plain(b) => b != EscChar(v)
    case Pair => true
    case Section(ds, r, closed) =>
      (forall i :: 0 <= i < |ds| ==> ds[i] < 64) && BeginsWith(ds, r) && (closed ==> ds != [])
  }

  /** A section without `-` is followed by nothing, or by a byte that is neither a digit nor `-`. */
  ghost predicate Encodes(v: Variant, s: seq<Byte>, ps: seq<Piece>)
    decreases |ps|
  {
    if ps == [] then s == []
    else
      && WellFormed(v, ps[0])
      && PieceBytes(v, ps[0]) <= s
      && var rest := s[|PieceBytes(v, ps[0])|..];
      && Encodes(v, rest, ps[1..])
      && (ps[0].Section? && !ps[0].closed && rest != [] ==> !IsDigit(v, rest[0]) && rest[0] != MINUS)
  }

  function Meaning(v: Variant, ps: seq<Piece>): seq<int> {
    if ps == [] then [] else PieceUnits(v, ps[0]) + Meaning(v, ps[1..])
  }

  // ----- what a piece means

  lemma DecodePlain(v: Variant, st: DecState, b: Byte, rest: seq<Byte>)
    requires Valid(st) && st.mode.Direct? && b != EscChar(v)
    ensures Decode(v, st, [b] + rest).out == [Widen(b)] + Decode(v, st, rest).out
  {
    hide Decode;
    DecodeCons(v, st, [b], rest);
    assert [b][1..] == [];
    Empty(rest);
  }

  lemma DecodePair(v: Variant, st: DecState, rest: seq<Byte>)
    requires Valid(st) && st.mode.Direct?
    ensures Decode(v, st, [EscChar(v), MINUS] + rest).out == [EscChar(v)] + Decode(v, st, rest).out
  {
    hide Decode;
    DecodeDirectText(v, st, EscChar(v), rest);
  }

  /** Where a section ends without `-`, the next byte means what it means in direct mode. */
  lemma DecodeOpen(v: Variant, st: DecState, end: DecState, rest: seq<Byte>)
    requires Valid(st) && st.mode.Direct? && Valid(end) && end.mode.Base64?
    requires rest != [] ==> !IsDigit(v, rest[0]) && rest[0] != MINUS
    ensures Decode(v, end, rest).out == Decode(v, st, rest).out
  {
    hide IsDigit;
    if rest != [] && rest[0] != EscChar(v) {
      DirectForgets(v, end.(mode := Direct, escaped := false), st, rest[1..]);
    }
  }

  lemma DecodeOpenSection(v: Variant, st: DecState, ds: seq<nat>, rest: seq<Byte>)
    requires Valid(st) && st.mode.Direct? && forall i :: 0 <= i < |ds| ==> ds[i] < 64
    requires rest != [] ==> !IsDigit(v, rest[0]) && rest[0] != MINUS
    ensures Decode(v, st, [EscChar(v)] + (Chars(v, ds) + rest)).out == DigitsOut(FRESH, ds) + Decode(v, st, rest).out
  {
    hide DigitsOut, DigitsNext, Decode, IsDigit;
    DecodeCons(v, st, [EscChar(v)], Chars(v, ds) + rest);
    Empty(Decode(v, FRESH, Chars(v, ds) + rest).out);
    assert [EscChar(v)][1..] == [];
    Empty(Chars(v, ds) + rest);
    DecodeDigits(v, FRESH, ds, rest);
    DecodeOpen(v, st, DigitsNext(FRESH, ds), rest);
  }

  lemma DecodePiece(v: Variant, st: DecState, p: Piece, rest: seq<Byte>)
    requires Valid(st) && st.mode.Direct? && WellFormed(v, p)
    requires p.Section? && !p.closed && rest != [] ==> !IsDigit(v, rest[0]) && rest[0] != MINUS
    ensures Decode(v, st, PieceBytes(v, p) + rest).out == PieceUnits(v, p) + Decode(v, st, rest).out
  {
    hide Decode, DigitsOut, Flat, IsDigit;
    match p
    case Plain(b) => DecodePlain(v, st, b, rest);
    case Pair => DecodePair(v, st, rest);
    case Section(ds, r, closed) =>
      var tail :| |tail| < 16 && Flat(6, ds) == Flat(16, r) + tail;
      DigitsOfBits(ds, r, tail);
      if closed {
        DecodeSection(v, st, ds, rest);
        Assoc4([EscChar(v)], Chars(v, ds), [MINUS], rest);
      } else {
        DecodeOpenSection(v, st, ds, rest);
        Empty([EscChar(v)] + Chars(v, ds));
        Assoc([EscChar(v)], Chars(v, ds), rest);
      }
  }

  /** The decoder reads any sequence of pieces for what the pieces mean, however lax their sections. */
  lemma {:induction false} DecodePieces(v: Variant, st: DecState, s: seq<Byte>, ps: seq<Piece>)
    requires Valid(st) && st.mode.Direct? && Encodes(v, s, ps)
    ensures Decode(v, st, s).out == Meaning(v, ps)
    decreases |ps|
  {
    hide Decode, PieceBytes, PieceUnits, WellFormed;
    if ps == [] {
      DecodeEmpty(v, st);
    } else {
      var first := PieceBytes(v, ps[0]);
      var rest := s[|first|..];
      DecodePieces(v, st, rest, ps[1..]);
      DecodePiece(v, st, ps[0], rest);
      assert s == first + rest;
    }
  }

  // ----- there is nothing else

  /** Any digits begin with the bits of the units that the decoder makes of them. */
  lemma DigitsBegin(ds: seq<nat>) returns (r: seq<Unit>)
    requires forall i :: 0 <= i < |ds| ==> ds[i] < 64
    ensures BeginsWith(ds, r)
  {
    hide Flat, DigitsOut, DigitsNext, Carried;
    r := DigitsOut(FRESH, ds);
    DigitsKeepBits(FRESH, ds);
    FreshCarriesNothing();
    Empty(Flat(6, ds));
    var tail := Carried(DigitsNext(FRESH, ds));
    assert |tail| < 16 && Flat(6, ds) == Flat(16, r) + tail;
  }

  lemma FirstPiece(v: Variant, s: seq<Byte>) returns (p: Piece)
    requires s != []
    ensures WellFormed(v, p) && PieceBytes(v, p) <= s && PieceBytes(v, p) != []
    ensures var rest := s[|PieceBytes(v, p)|..];
            p.Section? && !p.closed && rest != [] ==> !IsDigit(v, rest[0]) && rest[0] != MINUS
  {
    hide BeginsWith, IsDigit;
    if s[0] != EscChar(v) {
      p := Plain(s[0]);
    } else if StartsPair(v, s) {
      p := Pair;
    } else {
      var n := DigitSpan(v, s[1..]);
      var span := s[1..][..n];
      var ds := Values(v, span);
      var r := DigitsBegin(ds);
      CharsOfValues(v, span);
      ValueDigit(v, MINUS);
      p := Section(ds, r, n + 1 < |s| && s[n + 1] == MINUS);
      assert n + 1 < |s| ==> s[1..][n] == s[n + 1];
      assert [s[0]] + span == s[..n + 1];
    }
  }

  /** Every string of bytes consists of such pieces. */
  lemma {:induction false} EveryStringHasPieces(v: Variant, s: seq<Byte>) returns (ps: seq<Piece>)
    ensures Encodes(v, s, ps)
    decreases |s|
  {
    hide PieceBytes, WellFormed;
    if s == [] {
      ps := [];
    } else {
      var p := FirstPiece(v, s);
      var ps' := EveryStringHasPieces(v, s[|PieceBytes(v, p)|..]);
      ps := [p] + ps';
      assert ps[1..] == ps';
    }
  }

  /** What decoding gives is exactly what any reading of the string as pieces means; so all readings agree. */
  lemma DecodeExactly(v: Variant, st: DecState, s: seq<Byte>, out: seq<int>)
    requires Valid(st) && st.mode.Direct?
    ensures Decode(v, st, s).out == out <==> exists ps :: Encodes(v, s, ps) && Meaning(v, ps) == out
  {
    hide Decode, Encodes, Meaning;
    var ps := EveryStringHasPieces(v, s);
    DecodePieces(v, st, s, ps);
    if qs :| Encodes(v, s, qs) && Meaning(v, qs) == out {
      DecodePieces(v, st, s, qs);
    }
  }
}
