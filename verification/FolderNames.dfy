/** The callers that convert whole strings: IMAP folder names to and from mailbox-name UTF-7. */
module FolderNames {
  import opened Buffers
  import opened Options
  import opened Sequences
  import opened Utf7
  import C = Canonical
  import opened Decoder
  import opened Encoder
  import EncoderFacts
  import EncoderRuns
  import EncoderSpec
  import EncoderText
  import DecoderRuns
  import DecoderSpec

  const IMAP_UTF7_BUF_LENGTH: nat := 100

  lemma FrontOf(now: seq<int>, was: seq<int>, out: seq<int>)
    requires Overlaid(now, was, 0, out)
    ensures |out| <= |now| && now[..|out|] == out
  {
  }

  /** One round of the loop below: what a call with the fixed capacity leaves to do, and that it does something. */
  lemma Round(st: EncoderSpec.EncState, u: seq<Unit>)
    requires EncoderSpec.Valid(st)
    ensures var c := EncoderSpec.Convert(MUTF7, st, u, IMAP_UTF7_BUF_LENGTH);
            && |c.out| <= IMAP_UTF7_BUF_LENGTH + 1
            && (u != [] ==> c.used > 0)
            && EncoderSpec.Rest(MUTF7, st, u) == c.out + EncoderSpec.Rest(MUTF7, c.st, u[c.used..])
  {
    hide EncoderSpec.Convert, EncoderSpec.Rest;
    EncoderRuns.WrittenAtMost(MUTF7, st, u, IMAP_UTF7_BUF_LENGTH);
    EncoderRuns.ConvertResumes(MUTF7, st, u, IMAP_UTF7_BUF_LENGTH, []);
    Empty(u);
    Empty(u[EncoderSpec.Convert(MUTF7, st, u, IMAP_UTF7_BUF_LENGTH).used..]);
    if u != [] {
      EncoderRuns.ThreeSlotsProgress(MUTF7, st, u, IMAP_UTF7_BUF_LENGTH);
    }
  }

  lemma LastRound(st: EncoderSpec.EncState)
    requires EncoderSpec.Valid(st)
    ensures var c := EncoderSpec.Shift(MUTF7, st, Direct, IMAP_UTF7_BUF_LENGTH);
            c.out == EncoderSpec.Rest(MUTF7, st, []) && |c.out| <= 2
  {
  }

  /** A `&` comes next in a round when one slot of the buffer is left: it will be written behind the buffer. */
  predicate PairAtEnd(st: EncoderSpec.EncState, u: seq<Unit>)
    requires EncoderSpec.Valid(st)
  {
    exists i :: 0 <= i < |u| && EncoderRuns.IsPair(MUTF7, u[i])
             && |EncoderSpec.Feed(MUTF7, st, u[..i + 1])| == IMAP_UTF7_BUF_LENGTH + 1
  }

  /** It does in no round of the loop below. */
  predicate Within(st: EncoderSpec.EncState, u: seq<Unit>)
    requires EncoderSpec.Valid(st)
    decreases |u|
  {
    if u == [] then true
    else
      Round(st, u);
      var c := EncoderSpec.Convert(MUTF7, st, u, IMAP_UTF7_BUF_LENGTH);
      !PairAtEnd(st, u) && Within(c.st, u[c.used..])
  }

  /** The lengths that the calls of the loop report, and that of the finish. */
  function RoundLengths(st: EncoderSpec.EncState, u: seq<Unit>): seq<nat>
    requires EncoderSpec.Valid(st)
    decreases |u|
  {
    if u == [] then [|EncoderSpec.Shift(MUTF7, st, Direct, IMAP_UTF7_BUF_LENGTH).out|]
    else
      Round(st, u);
      var c := EncoderSpec.Convert(MUTF7, st, u, IMAP_UTF7_BUF_LENGTH);
      [|c.out|] + RoundLengths(c.st, u[c.used..])
  }

  lemma RoundExactly(st: EncoderSpec.EncState, u: seq<Unit>)
    requires EncoderSpec.Valid(st) && u != []
    ensures var n := |EncoderSpec.Convert(MUTF7, st, u, IMAP_UTF7_BUF_LENGTH).out|;
            n == IMAP_UTF7_BUF_LENGTH + 1 <==> PairAtEnd(st, u)
  {
    hide EncoderSpec.Convert, EncoderSpec.Feed;
    Round(st, u);
    EncoderRuns.AboveCapacityExactly(MUTF7, st, u, IMAP_UTF7_BUF_LENGTH);
  }

  /** Every length is within the buffer, unless an `&` comes at its end in some round: then one is 101. */
  lemma {:induction false} WithinExactly(st: EncoderSpec.EncState, u: seq<Unit>)
    requires EncoderSpec.Valid(st)
    ensures forall n :: n in RoundLengths(st, u) ==> n <= IMAP_UTF7_BUF_LENGTH + 1
    ensures Within(st, u) <==> IMAP_UTF7_BUF_LENGTH + 1 !in RoundLengths(st, u)
    decreases |u|
  {
    hide EncoderSpec.Convert, EncoderSpec.Feed, EncoderSpec.Shift, PairAtEnd;
    if u == [] {
      LastRound(st);
    } else {
      Round(st, u);
      RoundExactly(st, u);
      var c := EncoderSpec.Convert(MUTF7, st, u, IMAP_UTF7_BUF_LENGTH);
      WithinExactly(c.st, u[c.used..]);
    }
  }

  /** 99 letters and an `&` are not. */
  lemma NinetyNineAndPair()
    ensures !Within(EncoderSpec.IDLE, EncoderRuns.Filler(99) + [38])
  {
    hide EncoderSpec.Convert, EncoderRuns.Filler, PairAtEnd;
    EncoderRuns.AboveHundred();
    RoundExactly(EncoderSpec.IDLE, EncoderRuns.Filler(99) + [38]);
  }

  /**
    * The static buffer, of 100 slots in the program, is a parameter. It is large enough if and only if no `&` comes at
    * its end in some round; one more slot is always enough.
    */
  method CopyUTF16toMUTF7(src: seq<Unit>, buffer: array<Byte>) returns (dest: seq<Byte>)
    requires buffer.Length >= IMAP_UTF7_BUF_LENGTH
    requires Within(EncoderSpec.IDLE, src) || buffer.Length > IMAP_UTF7_BUF_LENGTH
    modifies buffer
    ensures dest == EncoderText.Encode(MUTF7, src)
  {
    hide EncoderSpec.Convert, EncoderSpec.Rest, EncoderSpec.Shift, EncoderText.Encode, Overlaid, PairAtEnd;
    var converter := new BasicUTF7Encoder.nsUnicodeToMUTF7();
    dest := [];
    var i := 0;
    EncoderText.RestIsText(MUTF7, src);
    Empty(EncoderText.Encode(MUTF7, src));
    assert src[0..] == src;
    while i < |src|
      invariant i <= |src| && converter.Inv() && converter.variant == MUTF7 && fresh(converter)
      invariant dest + EncoderSpec.Rest(MUTF7, converter.State(), src[i..]) == EncoderText.Encode(MUTF7, src)
      invariant Within(converter.State(), src[i..]) || buffer.Length > IMAP_UTF7_BUF_LENGTH
    {
      ghost var st, was := converter.State(), buffer[..];
      ghost var c := EncoderSpec.Convert(MUTF7, st, src[i..], IMAP_UTF7_BUF_LENGTH);
      Round(st, src[i..]);
      RoundExactly(st, src[i..]);
      var _, remaining, outLen := converter.ConvertNoBuffNoErr(src[i..], buffer, 0, IMAP_UTF7_BUF_LENGTH);
      FrontOf(buffer[..], was, c.out);
      assert src[i..][remaining..] == src[i + remaining..];
      Assoc(dest, c.out, EncoderSpec.Rest(MUTF7, c.st, src[i + remaining..]));
      dest := dest + buffer[..outLen];
      i := i + remaining;
    }
    ghost var was := buffer[..];
    LastRound(converter.State());
    assert src[i..] == [];
    ghost var c := EncoderSpec.Shift(MUTF7, converter.State(), Direct, IMAP_UTF7_BUF_LENGTH);
    var _, outLen := converter.FinishNoBuff(buffer, 0, IMAP_UTF7_BUF_LENGTH);
    FrontOf(buffer[..], was, c.out);
    Empty(dest);
    if outLen > 0 {
      dest := dest + buffer[..outLen];
    }
  }

  /** As many slots as bytes: one call decodes everything. */
  method CopyMUTF7toUTF16(src: seq<Byte>) returns (dest: seq<int>)
    ensures dest == DecoderSpec.Decode(MUTF7, DecoderSpec.DecState(Direct, 0, 0, false), src).out
  {
    hide DecoderSpec.Convert, DecoderSpec.Decode, Overlaid;
    var converter := new BasicUTF7Decoder.nsMUTF7ToUnicode();
    var buffer := new int[|src|];
    ghost var was := buffer[..];
    DecoderRuns.OneCall(MUTF7, converter.State(), src, |src|);
    ghost var t := DecoderSpec.Decode(MUTF7, converter.State(), src);
    var _, inLen, outLen := converter.ConvertNoBuff(src, buffer, 0, |src|);
    assert inLen == |src|;
    FrontOf(buffer[..], was, t.out);
    dest := buffer[..outLen];
  }

  method CopyUTF7toUTF16(src: seq<Byte>) returns (dest: seq<int>)
    ensures dest == DecoderSpec.Decode(UTF7, DecoderSpec.DecState(Direct, 0, 0, false), src).out
  {
    hide DecoderSpec.Convert, DecoderSpec.Decode, Overlaid;
    var converter := new BasicUTF7Decoder.nsUTF7ToUnicode();
    var buffer := new int[|src|];
    ghost var was := buffer[..];
    DecoderRuns.OneCall(UTF7, converter.State(), src, |src|);
    ghost var t := DecoderSpec.Decode(UTF7, converter.State(), src);
    var _, inLen, outLen := converter.ConvertNoBuff(src, buffer, 0, |src|);
    assert inLen == |src|;
    FrontOf(buffer[..], was, t.out);
    dest := buffer[..outLen];
  }

  /** Whatever the bytes, the units have 16 bits. */
  lemma {:induction false} DecodesToUnits(v: Variant, st: DecoderSpec.DecState, s: seq<Byte>)
    requires DecoderSpec.Valid(st)
    ensures forall i :: 0 <= i < |DecoderSpec.Decode(v, st, s).out| ==> 0 <= DecoderSpec.Decode(v, st, s).out[i] < 0x10000
    decreases |s|
  {
    hide DecoderSpec.ByteNext, DecoderSpec.DigitBits, DecoderSpec.Aligned;
    if s != [] {
      DecodesToUnits(v, DecoderSpec.ByteNext(v, st, s[0]), s[1..]);
    }
  }

  lemma CanonicalIsAscii(v: Variant, s: seq<Byte>)
    requires C.Canonical(v, s)
    ensures IsAscii(s)
  {
    hide C.Canonical, EncoderText.Encode, EncoderSpec.Rest, DirectEncodable;
    C.CanonicalExactly(v, s);
    var u: seq<Unit> :| EncoderText.Encode(v, u) == s;
    EncoderText.RestIsText(v, u);
    EncoderFacts.RestWritable(v, EncoderSpec.IDLE, u);
  }

  /** What a name means as mailbox-name UTF-7. */
  function Name(src: seq<Byte>): seq<Unit> {
    DecodesToUnits(MUTF7, DecoderSpec.DecState(Direct, 0, 0, false), src);
    DecoderSpec.Decode(MUTF7, DecoderSpec.DecState(Direct, 0, 0, false), src).out
  }

  /** The name as mailbox-name UTF-7, or nothing if it is to be read as UTF-8 instead. */
  method CopyFolderNameToUTF16(src: seq<Byte>, buffer: array<Byte>) returns (dest: Option<seq<Unit>>)
    requires buffer.Length >= IMAP_UTF7_BUF_LENGTH
    requires (IsAscii(src) ==> Within(EncoderSpec.IDLE, Name(src))) || buffer.Length > IMAP_UTF7_BUF_LENGTH
    modifies buffer
    ensures dest.Some? <==> C.Canonical(MUTF7, src)
    ensures dest.Some? ==> EncoderText.Encode(MUTF7, dest.value) == src
    ensures dest.Some? ==> dest.value == DecoderSpec.Decode(MUTF7, DecoderSpec.DecState(Direct, 0, 0, false), src).out
  {
    hide C.Canonical, EncoderText.Encode, DecoderSpec.Decode, Within;
    C.CanonicalExactly(MUTF7, src);
    if IsAscii(src) {
      var units := CopyMUTF7toUTF16(src);
      DecodesToUnits(MUTF7, DecoderSpec.DecState(Direct, 0, 0, false), src);
      var tmp := CopyUTF16toMUTF7(units, buffer);
      if src == tmp {
        return Some(units);
      }
    } else if C.Canonical(MUTF7, src) {
      CanonicalIsAscii(MUTF7, src);
    }
    return None;
  }
}
