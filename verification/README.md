# UTF-7 codec, chat display queue and fingerprint list: a verified model

This project models three pieces of stateful code and proves what they are for.

**The UTF-7 codec** (`mailnews/intl`). A streaming encoder and a streaming decoder, each in two variants: UTF-7
(RFC 2152, escape `+`, last digit `/`) and the mailbox-name form of section 5.1.3 of RFC 3501 (escape `&`, last digit
`,`). The encoder regroups 16-bit units into 6-bit digits with a 3-phase machine, the decoder regroups digits into
units with an 8-phase machine, and both may stop at any point where the output buffer is full.

- `Encoder.dfy` and `Decoder.dfy` hold the two classes with their fields, loops and output arrays. A C++ pointer into a
  buffer is an index into an array or sequence; `Put` is `*(dest++) = x`. The two subclasses of each class are two
  constructors, and `variant` takes the place of the virtual `DirectEncodable`. The switch in `EncodeBase64` and
  `DecodeBase64` is a method of its own (`EncodeUnit`, `DecodeDigit`), and so is the mode change inside the encoder's
  outer loop (`ShiftInto`). Ghost parameters carry the proof from an outer loop into an inner one.
- Every method is proved equal to a function: `EncoderSpec.Convert` and `EncoderSpec.Shift` go unit by unit,
  `DecoderSpec.Convert` goes byte by byte. The free room is an integer that can become negative, because an escape pair
  is written after a test for one slot (encoder) or for none (decoder). A method only asks that the array hold what the
  call writes; `WrittenAtMost`, `AboveCapacityExactly` and `ConvertTotal` say how that compares with the capacity.
- `EncoderText.Encode` is the text the encoder is meant to write, described over maximal runs of units and bit strings
  (`Bits.dfy`), without phases, carried bits or buffers. `DecoderSpec.Decode` is what a string of bytes means given
  unlimited room. `Canonical.Canonical` describes the encoder's image as a set of strings, without the encoder.
- `Pieces.Encodes` describes every string the decoder may meet as a sequence of pieces, with sections far laxer than the
  encoder's: any units, any trailing bits, no closing `-`, several in a row. Every string is such a sequence and
  decoding gives what the pieces mean (`DecodeExactly`).
- `Tables.dfy` spells out the alphabet and the units that stand for themselves, and what the codec makes of them.
- `FinishSession.dfy` lets a session finish at any time and go on, `Resets.dfy` resets the encoder on the way;
  `FolderNames.dfy` holds the callers in `mailnews/base/src/nsMsgI18N.cpp` that convert whole strings.
- The main theorems: whatever the chunks and capacities, a finished encoder session has written the text
  (`StreamedText`); however it is cut, a decoder session gives the units and the state of one call
  (`ChunksDoNotMatter`); the two undo each other (`DecodeEncode`, `StreamRoundTrip`); and re-encoding what a string means
  restores it exactly for the canonical strings, which are exactly those the encoder writes (`CanonicalExactly`).

**The display queue** (`chat/content/conversation-browser.js`). Messages are appended at any time and displayed in idle
callbacks. `DisplayQueue.dfy` is the transition system, `ConversationBrowser.dfy` the class with the fields of the source,
`DisplayRuns.dfy` the proofs over every interleaving of appends, replacements, activations, loads and callbacks,
including callbacks left over from before a load; `DisplayLaws.dfy` says for each event what is displayed, when a
display begins and ends and when none can, without the functions of the transition system. A load event is one step for each load listener registered, so that
other events may come between two of them. What `timeRemaining` returns is an arbitrary list of readings.

**The fingerprint list** (`chat/content/otr-finger.js`). Nulled entries are spliced out of an array under the loop index,
and a tree mirrors the rows through notifications. `OtrFinger.dfy`. Which fingerprints are in use is the one input taken
from the OTR library; the marks, `forgetFingerprints` in `chat/modules/OTR.sys.mjs` and the compaction are modelled. The
loops of `commonRemove` are a method of their own (`DropNulls`).

Findings, where the code does less than its description suggests:

- MUTF-7 encoding can report one byte more than the capacity. `EncoderRuns.AboveCapacityExactly` gives the exact
  condition, an `&` that comes next when one slot is left; in UTF-7 it cannot happen. The input: 99 letters and an `&`
  for 100 slots (`EncoderRuns.AboveHundred`), which is the size of the static array in `CopyUTF16toMUTF7`. Some round of
  that loop reports 101 bytes if and only if an `&` meets the last slot in some round (`FolderNames.WithinExactly`); if
  none does, the loop is proved with 100 slots, and with one slot more it is proved for all input.
- The decoder reports more than its capacity exactly when an escape pair comes after the last slot is used
  (`DecoderRuns.AboveCapacityExactly`); the excess is the number of pairs before another byte asks for a slot
  (`ExcessExactly`) and has no bound: k pairs are k units for no slots (`ExcessUnbounded`). With a slot per input byte it
  cannot happen.
- An encoder call with one or two free slots may consume and write nothing; three slots are necessary and sufficient for
  every call to make progress (`EncoderRuns.ProgressExactly`). The input: U+0080 after one U+0080
  (`EncoderRuns.StuckWithTwoSlots`).
- Finishing while input is unconsumed keeps the text if and only if no escape character is bare, that is, written for the
  next unit only, with no digit behind it (`FinishSession.FinishExactly`). A bare one becomes an escape pair; the input:
  one slot for the call on U+0080, one for the finish (`FinishSession.FinishedTooEarly`). Any number of other finishes on
  the way are harmless (`FinishSession.FinishedOnTheWay`).
- A finish that has stopped in front of its `-` has filled up a digit with zero bits. Units that go on from there are kept
  if and only if those before the next direct unit are all U+0000 (`FinishSession.HalfExactly`). The input: U+0080,
  half a finish, U+0080 (`FinishSession.HalfFinishedTooEarly`).
- A reset in base64 mode keeps the text if and only if nothing is carried and the next text does not begin with a byte
  that the open section takes for its own; in UTF-7 such a byte is also the `+` of a section, which is the digit 62, and
  that is harmless only for runs that repeat its bits (`Resets.ResetExactly`). The input: three units U+0080, a reset and
  U+0080 (`Resets.ResetAfterThree`).
- `replaceMessage` looks for the first entry with the remote ID, displayed entries still in the array included, so a
  waiting entry is missed exactly when a displayed one shares its ID (`DisplayRuns.ReplaceExactly`). The input: two
  entries with one ID, the first of which has just been displayed (`DisplayRuns.ReplaceMisses`).
- UTF-7 encoding never writes the pair `+-` that RFC 2152 offers for `+` and always closes a section with `-`, also where
  RFC 2152 would allow leaving it out; the decoder reads sections without it, and sections for direct units
  (`Pieces.DecodePieces`). It reads `+-` as `+` (`Pieces.DecodePair`). `Encode` follows the code.

`hide` statements only keep definitions out of single proofs that do not need them.

## Model

| member | source | states |
|---|---|---|
| Tables.DigitSpelt | mailnews/intl/nsUnicodeToUTF7.cpp:173-186 | the digit of value d is character d of `A`..`Z`, `a`..`z`, `0`..`9`, `+` and `/` or `,`, spelt out, and `CharToValue` gives that character d; the escape characters are `+` and `&`, a section ends with `-` |
| Tables.DigitExactly | mailnews/intl/nsUTF7ToUnicode.cpp:133-146 | no other byte is a digit |
| Tables.LiteralExactly | mailnews/intl/nsUnicodeToUTF7.cpp:261-303 | the units a UTF-7 encoder leaves alone, spelt out; in MUTF-7 those from 0x20 to 0x7e |
| Tables.LiteralText | mailnews/intl/nsUnicodeToUTF7.cpp:188-194 | a text is its own encoding if and only if all its units are among those spelt out and none is `&` |
| Tables.TextBegins | mailnews/intl/nsUnicodeToUTF7.cpp:211-235 | a unit spelt out is written as itself, `&` in MUTF-7 as `&-`, and any other unit begins with the escape character |
| Tables.UnitSpelt | mailnews/intl/nsUnicodeToUTF7.cpp:122-132 | the five bytes of a single other unit: escape character, the characters at its 6 high, 6 middle and 4 low bits, `-` |
| Tables.UnitRead | mailnews/intl/nsUTF7ToUnicode.cpp:77-92 | any three characters of the alphabet between escape character and `-` are read as the unit of their first 16 bits |
| Tables.BytesRead | mailnews/intl/nsUTF7ToUnicode.cpp:21-54 | bytes without an escape character are read as themselves, negative ones modulo 2^16 |
| Encoder.BasicUTF7Encoder.nsUnicodeToUTF7 | mailnews/intl/nsUnicodeToUTF7.cpp:259 | a UTF-7 encoder starts in direct mode with nothing carried |
| Encoder.BasicUTF7Encoder.nsUnicodeToMUTF7 | mailnews/intl/nsUnicodeToMUTF7.cpp:11 | the same for the mailbox-name variant, `,` and `&` |
| Encoder.BasicUTF7Encoder.Reset | mailnews/intl/nsUnicodeToUTF7.cpp:249-254 | returns to the initial state from every reachable state |
| Encoder.BasicUTF7Encoder.ShiftEncoding | mailnews/intl/nsUnicodeToUTF7.cpp:24-60 | return code, length, bytes and state of a mode change with any room, including stops before and after the flushed digit; nothing else in the buffer changes |
| Encoder.BasicUTF7Encoder.EncodeDirect | mailnews/intl/nsUnicodeToUTF7.cpp:62-103 | advances the call by direct units, two bytes for the escape character, and stops only at a base64 unit, the end, or for lack of the slot it asks for |
| Encoder.BasicUTF7Encoder.EncodeUnit | mailnews/intl/nsUnicodeToUTF7.cpp:122-165 | the three phases: digits written and bits carried, or a refusal that changes nothing |
| Encoder.BasicUTF7Encoder.EncodeBase64 | mailnews/intl/nsUnicodeToUTF7.cpp:105-171 | advances the call by base64 units and never passes the end of the buffer |
| Encoder.BasicUTF7Encoder.ConvertNoBuffNoErr | mailnews/intl/nsUnicodeToUTF7.cpp:199-242 | return code, units consumed, bytes written and state of a whole call, from every reachable state and for every capacity |
| Encoder.BasicUTF7Encoder.FinishNoBuff | mailnews/intl/nsUnicodeToUTF7.cpp:244-247 | the same for the call that finishes |
| EncoderRuns.ShiftResumes | mailnews/intl/nsUnicodeToUTF7.cpp:35-58 | a mode change that stops early is completed by asking again: no byte lost or repeated |
| EncoderRuns.ConvertResumes | mailnews/intl/nsUnicodeToUTF7.cpp:212-241 | for any capacity and any later input, what a call writes followed by what is then due is what was due before |
| EncoderRuns.ShiftExactly | mailnews/intl/nsUnicodeToUTF7.cpp:26-60 | a mode change writes as many bytes of what is due as there are slots and succeeds if and only if that is all |
| EncoderRuns.StopsExactly | mailnews/intl/nsUnicodeToUTF7.cpp:211-239 | of the units met in a call, exactly the first one for whose bytes there is no room is not consumed, a pair needing a slot less |
| EncoderRuns.WritesExactly | mailnews/intl/nsUnicodeToUTF7.cpp:211-239 | a call succeeds if and only if it consumes everything; it writes all bytes of the units consumed and what fits of the next mode change |
| EncoderRuns.WrittenAtMost | mailnews/intl/nsUnicodeToUTF7.cpp:78-97 | no call reports more than its capacity in UTF-7, nor more than one byte above it in MUTF-7 |
| EncoderRuns.PairInLastSlot | mailnews/intl/nsUnicodeToUTF7.cpp:78-87 | an escape pair with exactly the last slot to begin in goes one byte above and is the last thing consumed |
| EncoderRuns.AboveCapacityExactly | mailnews/intl/nsUnicodeToUTF7.cpp:78-87 | a call goes above its capacity if and only if some `&` comes next with one slot left |
| EncoderRuns.AboveAnyCapacity | mailnews/intl/nsUnicodeToUTF7.cpp:78-87 | at every capacity n+1 there is an input reported as n+2 bytes: n letters and an `&` |
| EncoderRuns.AboveHundred | mailnews/base/src/nsMsgI18N.cpp:112-127 | 99 letters and an `&` are reported as 101 bytes by a call with the 100 slots used for mailbox names |
| EncoderRuns.EnoughRoom | mailnews/intl/nsUnicodeToUTF7.cpp:212-241 | room for everything due means the whole source is consumed |
| EncoderRuns.ProgressExactly | mailnews/intl/nsUnicodeToUTF7.cpp:122-152 | every call on a non-empty source consumes a unit, from every reachable state, if and only if there are three slots |
| EncoderRuns.StuckWithTwoSlots | mailnews/intl/nsUnicodeToUTF7.cpp:134-152 | one unit leads from the initial state to one where a call with fewer than three slots consumes, writes and changes nothing |
| EncoderText.UnitBits | mailnews/intl/nsUnicodeToUTF7.cpp:122-160 | in each phase, carried bits and the unit's 16 bits are the emitted digits' bits and the new carried bits |
| EncoderText.FlushOut | mailnews/intl/nsUnicodeToUTF7.cpp:35-50 | leaving base64 writes the carried bits, zero-padded to one digit, and `-` |
| EncoderText.RunRest | mailnews/intl/nsUnicodeToUTF7.cpp:105-171 | the digits written for the rest of a run are its bit string, carried bits first, cut into sixes and zero-padded |
| EncoderText.RestIsText | mailnews/intl/nsUnicodeToUTF7.cpp:199-247 | from the initial state the encoder writes the text: direct units, escape pairs, one section for each maximal run |
| EncoderFacts.CallWritable | mailnews/intl/nsUnicodeToUTF7.cpp:173-186 | from every reachable state a call writes only direct characters and the escape character, so the error value of the digit table never occurs |
| EncoderFacts.WritableMeans | mailnews/intl/nsUnicodeToUTF7.cpp:188-194 | such output is 7-bit, and in MUTF-7 printable |
| EncoderFacts.TextLength | mailnews/intl/nsUnicodeToUTF7.cpp:42-96 | the text takes one byte for a direct unit, one more for an escape pair, and two plus ceil(8k/3) for a maximal run of k |
| EncoderFacts.TextAtMost | mailnews/intl/nsUnicodeToUTF7.cpp:122-160 | n units take at most 3n+2 bytes in UTF-7 and (7n+3)/2 in MUTF-7 |
| EncoderFacts.TextBoundTight | mailnews/intl/nsUnicodeToUTF7.cpp:42-54 | both bounds are attained, rounded down, at every length from 1 on |
| EncoderFacts.OneCallAndFinish | mailnews/intl/nsUnicodeToUTF7.cpp:199-247 | a buffer as long as the text makes one call and one finish succeed, write the text and restore the initial state |
| EncoderFacts.EncodeConcat | mailnews/intl/nsUnicodeToUTF7.cpp:212-237 | encoding in pieces gives the text of the whole at clean cuts and a longer string at all others |
| EncoderFacts.EncodeConcatExactly | mailnews/intl/nsUnicodeToUTF7.cpp:212-237 | texts concatenate if and only if the cut does not divide a run |
| EncoderSession.PlayKeepsDue | mailnews/intl/nsUnicodeToUTF7.cpp:199-242 | at every moment of every session, bytes written and bytes due make up the text of all the input |
| EncoderSession.StreamedText | mailnews/intl/nsUnicodeToUTF7.cpp:199-254 | for any chunks, any capacities and any repeated finishing, a finished session has written the text and is in the initial state |
| EncoderSession.ThreeSlotsDrain | mailnews/intl/nsUnicodeToUTF7.cpp:122-152 | a refill loop with three slots or more ends after at most as many calls as there are units |
| EncoderSession.TwoFinishes | mailnews/intl/nsUnicodeToUTF7.cpp:35-58 | finishing takes at most two calls with a slot each |
| Decoder.BasicUTF7Decoder.nsUTF7ToUnicode | mailnews/intl/nsUTF7ToUnicode.cpp:217 | a UTF-7 decoder starts in direct mode |
| Decoder.BasicUTF7Decoder.nsMUTF7ToUnicode | mailnews/intl/nsMUTF7ToUnicode.cpp:11 | the same for the mailbox-name variant |
| Decoder.BasicUTF7Decoder.Reset | mailnews/intl/nsUTF7ToUnicode.cpp:207-212 | returns to direct mode; the fresh-escape flag stays as it was |
| Decoder.BasicUTF7Decoder.DecodeDirect | mailnews/intl/nsUTF7ToUnicode.cpp:21-54 | advances the call by bytes that stand for themselves up to the escape character or the last slot |
| Decoder.BasicUTF7Decoder.DecodeDigit | mailnews/intl/nsUTF7ToUnicode.cpp:77-125 | the eight phases: the unit completed, if any, and the bits carried, or a refusal that changes nothing |
| Decoder.BasicUTF7Decoder.DecodeBase64 | mailnews/intl/nsUTF7ToUnicode.cpp:56-131 | advances the call by digits up to another byte or a unit without a slot |
| Decoder.BasicUTF7Decoder.ConvertNoBuff | mailnews/intl/nsUTF7ToUnicode.cpp:151-205 | return code (never the illegal-input code), bytes consumed, units and state of a whole call; the loop ends because bytes left and mode decrease together |
| DecoderRuns.ConvertByte | mailnews/intl/nsUTF7ToUnicode.cpp:162-200 | the loop that may look at a byte twice does exactly one step per byte, or waits at it |
| DecoderRuns.WaitingResumes | mailnews/intl/nsUTF7ToUnicode.cpp:181-199 | stopping at a byte, even after leaving its section, does not change what the byte means |
| DecoderRuns.ConvertResumes | mailnews/intl/nsUTF7ToUnicode.cpp:162-200 | for any capacity and any later input, a call writes a prefix of the meaning and leaves exactly the rest |
| DecoderRuns.ConvertTotal | mailnews/intl/nsUTF7ToUnicode.cpp:162-200 | no input is illegal, at most one unit per byte consumed, and a slot per byte is enough |
| DecoderRuns.StopsExactly | mailnews/intl/nsUTF7ToUnicode.cpp:162-200 | a call consumes bytes up to the first one that needs a slot when none is left, and not that one |
| DecoderRuns.OneCall | mailnews/intl/nsUTF7ToUnicode.cpp:151-205 | with a slot per byte one call consumes everything and writes its meaning |
| DecoderRuns.AboveCapacityExactly | mailnews/intl/nsUTF7ToUnicode.cpp:168-172 | a call goes above its capacity if and only if an escape pair comes when the slots are used up |
| DecoderRuns.ExcessExactly | mailnews/intl/nsUTF7ToUnicode.cpp:168-179 | once the slots are used up, the excess is the number of escape pairs met before another byte asks for a slot |
| DecoderRuns.WrittenWithoutRoom | mailnews/intl/nsUTF7ToUnicode.cpp:168-179 | without a free slot exactly those pairs are written |
| DecoderRuns.WrittenAtMost | mailnews/intl/nsUTF7ToUnicode.cpp:162-200 | a call never writes more than its input means, so without using up the slots there is no excess |
| DecoderRuns.ExcessUnbounded | mailnews/intl/nsUTF7ToUnicode.cpp:168-179 | k escape pairs are written as k units although there is no slot, for every k |
| DecoderRuns.DecodeConcat | mailnews/intl/nsUTF7ToUnicode.cpp:162-200 | input cut at any byte, from any state, means the same and leaves the same state |
| DecoderRuns.DirectForgets | mailnews/intl/nsUTF7ToUnicode.cpp:182-189 | in direct mode leftover bits, phase and flag influence nothing |
| DecoderRuns.DecodeSplits | mailnews/intl/nsUTF7ToUnicode.cpp:181-197 | after a prefix that leaves direct mode the rest is decoded as if it were alone |
| DecoderText.UnitExact | mailnews/intl/nsUTF7ToUnicode.cpp:84-118 | carried bits plus the digit's part are below 2^16 whenever a unit is completed, so the cast loses nothing |
| DecoderText.DigitKeepsBits | mailnews/intl/nsUTF7ToUnicode.cpp:77-120 | in each phase, carried bits and the digit's 6 bits are the completed unit's bits and the new carried bits |
| DecoderText.DigitsRefine | mailnews/intl/nsUTF7ToUnicode.cpp:77-125 | after k digits floor(3k/8) units hold the first bits and `mEncBits` the other 6k mod 16, left-aligned in 16 |
| DecoderText.DecodeDigits | mailnews/intl/nsUTF7ToUnicode.cpp:67-126 | digits met in base64 mode decode to the units of their bit string, whatever follows |
| DecoderText.DecodeSection | mailnews/intl/nsUTF7ToUnicode.cpp:181-197 | a closed section met in direct mode means its units and returns to direct mode |
| RoundTrip.DigitsOfRun | mailnews/intl/nsUTF7ToUnicode.cpp:77-125 | the 8-phase machine gives back the run whose digits the 3-phase machine and its flush wrote |
| RoundTrip.DecodeEncode | mailnews/intl/nsUTF7ToUnicode.cpp:151-205 | every text of 16-bit units, in both variants, survives encoding and decoding and leaves direct mode |
| DecoderSession.ChunksDoNotMatter | mailnews/intl/nsUTF7ToUnicode.cpp:151-205 | for any chunks and capacities, a session that consumed its input has the units and the state of a single call |
| DecoderSession.StreamRoundTrip | mailnews/intl/nsUnicodeToUTF7.cpp:199-247 | any finished encoder session read by any complete decoder session gives back the units offered |
| FinishSession.CallUnderway | mailnews/intl/nsUnicodeToUTF7.cpp:199-241 | a call that starts on a mode change stopped anywhere writes what its units write from scratch, and at most a part of the change in front of the next unit |
| FinishSession.StepKeepsSound | mailnews/intl/nsUnicodeToUTF7.cpp:199-247 | every legal event, finishing included, keeps the output equal to the finished texts, the output due for the units since, and a part of one mode change |
| FinishSession.FinishExactly | mailnews/intl/nsUnicodeToUTF7.cpp:35-58 | at any point of any legal session, with input pending or not, finishing keeps what was consumed if and only if no escape character is bare |
| FinishSession.DrawsAreLegal | mailnews/intl/nsUnicodeToUTF7.cpp:199-241 | sessions without calls to finish are legal, whatever the chunks and capacities, and never half finished |
| FinishSession.FinishedOnTheWay | mailnews/intl/nsUnicodeToUTF7.cpp:244-247 | a session finished any number of times on the way, pending input or not, writes the texts of consecutive parts of its input, which decode to all of it |
| FinishSession.HalfExactly | mailnews/intl/nsUnicodeToUTF7.cpp:35-43 | after a finish that stopped before `-`, any further text is kept if and only if its leading run of base64 units, if any, is all zeros |
| RoundTrip.DigitsAfterFlush | mailnews/intl/nsUnicodeToUTF7.cpp:42-47 | digits of a flushed run and of a second one, read as one section, give both runs if and only if the flush fell between digits or the second is all zeros |
| Resets.ResetLoses | mailnews/intl/nsUnicodeToUTF7.cpp:249-254 | what any further text would write without a reset and writes after one; before a direct unit or the end exactly what a finish would write is lost, nothing if and only if the state is the initial one |
| Resets.ResetExactly | mailnews/intl/nsUnicodeToUTF7.cpp:249-254 | in both variants, after any legal session that has consumed its input and has no finish half done, a reset and any further text keep the units if and only if the state is direct, or nothing is carried and the open section does not absorb what follows, or, in UTF-7, the next run repeats the bits of its `+` |
| Resets.ResetAfterThree | mailnews/intl/nsUnicodeToUTF7.cpp:249-254 | three units, a reset and a fourth are kept in MUTF-7 and not in UTF-7, although nothing is carried |
| FinishSession.FinishedTooEarly | mailnews/intl/nsUnicodeToUTF7.cpp:42-58 | finishing after an escape character with no digit yet yields an escape pair, read as that character |
| FinishSession.HalfFinishedTooEarly | mailnews/intl/nsUnicodeToUTF7.cpp:35-58 | going on with base64 after a finish that stopped before `-` makes the second of two equal units be read as another |
| RoundTrip.DigitsOfBits | mailnews/intl/nsUTF7ToUnicode.cpp:77-125 | digits stand for the units whose bits they begin with; fewer than 16 further bits, of any value, are ignored |
| Pieces.DecodePiece | mailnews/intl/nsUTF7ToUnicode.cpp:162-200 | a byte, an escape pair, or a section with or without its `-`, over any units and with any trailing bits, means its units |
| Pieces.DecodePieces | mailnews/intl/nsUTF7ToUnicode.cpp:151-205 | any sequence of such pieces decodes to what the pieces mean, adjacent and implicitly closed sections included |
| Pieces.EveryStringHasPieces | mailnews/intl/nsUTF7ToUnicode.cpp:151-205 | every string of bytes is such a sequence |
| Pieces.DecodeExactly | mailnews/intl/nsUTF7ToUnicode.cpp:151-205 | decoding gives an output if and only if some reading as pieces means it, so all readings agree |
| Canonical.EncodeCanonical | mailnews/intl/nsUnicodeToUTF7.cpp:199-247 | the encoder writes only canonical strings: minimal digits, zero padding, closed sections, no two in a row |
| Canonical.EncodeDecode | mailnews/intl/nsUTF7ToUnicode.cpp:151-205 | re-encoding the meaning of a canonical string gives the string |
| Canonical.CanonicalExactly | mailnews/intl/nsUnicodeToUTF7.cpp:199-247 | canonical strings are exactly the encoder's image, and exactly the strings that decoding and re-encoding restores |
| FolderNames.WithinExactly | mailnews/base/src/nsMsgI18N.cpp:112-127 | over all rounds of the refill loop, no length is above 101, and one is 101 if and only if some round meets an `&` with one slot left |
| FolderNames.NinetyNineAndPair | mailnews/base/src/nsMsgI18N.cpp:112-127 | 99 letters and an `&` are an input for which a round reports 101 bytes |
| FolderNames.CopyUTF16toMUTF7 | mailnews/base/src/nsMsgI18N.cpp:112-132 | the refill loop and the finish append exactly the text of the source, and the loop ends: with the 100 slots of the program for every text of which no round reports 101 bytes, with one more for every text |
| FolderNames.CopyMUTF7toUTF16 | mailnews/base/src/nsMsgI18N.cpp:154-166 | one call with a slot per byte gives the whole meaning of the source |
| FolderNames.CopyUTF7toUTF16 | mailnews/base/src/nsMsgI18N.cpp:98-110 | the same for UTF-7 |
| FolderNames.CopyFolderNameToUTF16 | mailnews/base/src/nsMsgI18N.cpp:136-152 | a name is read as mailbox-name UTF-7 if and only if it is canonical, and then encoding the result gives the name |
| FolderNames.DecodesToUnits | mailnews/intl/nsUTF7ToUnicode.cpp:151-205 | whatever the input, the units decoded have 16 bits |
| ConversationBrowser.MozConversationBrowser.constructor | chat/content/conversation-browser.js:149-158 | the queue starts empty, with no display under way |
| ConversationBrowser.MozConversationBrowser.Init | chat/content/conversation-browser.js:235-241 | stops the display under way and registers one more load listener |
| ConversationBrowser.MozConversationBrowser.OnLoad | chat/content/conversation-browser.js:238-263 | a registered load listener runs, once, and resets the queue |
| ConversationBrowser.MozConversationBrowser.Destroy | chat/content/conversation-browser.js:351-357 | stops the display under way, once |
| ConversationBrowser.MozConversationBrowser.SetIsActive | chat/content/conversation-browser.js:400-408 | activation displays at once what is waiting; hiding without a context does nothing |
| ConversationBrowser.MozConversationBrowser.AppendMessage | chat/content/conversation-browser.js:410-419 | appends at the end and, if active, sees to a callback |
| ConversationBrowser.MozConversationBrowser.ReplaceMessage | chat/content/conversation-browser.js:426-441 | replaces the message of at most one waiting entry |
| ConversationBrowser.MozConversationBrowser.StartDisplayingPendingMessages | chat/content/conversation-browser.js:483-503 | starts a display unless one is under way, by a callback or at once |
| ConversationBrowser.MozConversationBrowser.GetNextPendingMessage | chat/content/conversation-browser.js:512-526 | takes the entry at the index and empties the array with the last one |
| ConversationBrowser.MozConversationBrowser.OnIdle | chat/content/conversation-browser.js:490 | a requested callback runs, stale or not |
| ConversationBrowser.MozConversationBrowser.DisplayPendingMessages | chat/content/conversation-browser.js:532-579 | displays one entry and then as many as the readings allow, in order, and either asks for another callback or ends the display with all counters reset |
| DisplayRuns.StepKeepsInv | chat/content/conversation-browser.js:483-579 | every event keeps index and counter equal, a display under way non-empty and with a callback, and active browsers awake |
| DisplayRuns.NoLostWakeup | chat/content/conversation-browser.js:400-419 | over all runs, an active, loaded, undestroyed browser with pending entries has a display pending and a callback requested |
| DisplayRuns.RecordKeepsFifo | chat/content/conversation-browser.js:410-441 | every event keeps displayed and waiting entries equal, in order and number, to those appended since the last load, each with the last replacement that reached it |
| DisplayRuns.DisplayIsFifo | chat/content/conversation-browser.js:512-570 | over all runs, entries appended since the last load are displayed once and in order, each with the last replacement that reached it while it waited and otherwise unchanged |
| DisplayRuns.ReplaceInHistory | chat/content/conversation-browser.js:431-441 | a replacement changes the message of the entry it reaches, which is waiting, and nothing else |
| DisplayRuns.StepGrowsLog | chat/content/conversation-browser.js:544-549 | what is displayed stays displayed, and scrolling is left on exactly for an entry that empties the queue |
| DisplayRuns.ReplaceExactly | chat/content/conversation-browser.js:431-441 | the first waiting entry with a remote ID is replaced exactly when no displayed entry still in the array shares the ID |
| DisplayRuns.ReplaceMisses | chat/content/conversation-browser.js:431-441 | a run after which a waiting entry with the ID is not replaced, because one just displayed shares it |
| DisplayRuns.CallbacksDrain | chat/content/conversation-browser.js:532-570 | a display under way shows everything waiting within as many callbacks as there are entries, however little time each has |
| DisplayRuns.InterleavedDrain | chat/content/conversation-browser.js:483-579 | whatever is appended, replaced, activated or deactivated in between, a display under way shows all that was waiting within as many callbacks as there were entries |
| DisplayLaws.ActivateDisplays | chat/content/conversation-browser.js:400-408 | with entries waiting and no display under way, activation displays one entry and then as many as leading readings above 2 allow, from the front, and requests a callback if and only if something is left; otherwise it only sets the flag |
| DisplayLaws.IdleDisplays | chat/content/conversation-browser.js:532-579 | the same count for a callback of a display under way; any other callback does nothing |
| DisplayLaws.StepExactly | chat/content/conversation-browser.js:483-503 | for every event: exactly when a display begins, goes on or ends, when a callback is requested or used up, and that entries are displayed only by an activation or a callback |
| DisplayLaws.FlagsExactly | chat/content/conversation-browser.js:351-405 | over all runs: active from an activation to the next deactivation with a context, destroyed after a destroy, and one load listener for each init that no load has used up |
| DisplayLaws.StaysAsleep | chat/content/conversation-browser.js:410-419 | with no display under way, nothing is displayed or requested until an activation or an append while active |
| DisplayLaws.NeverActivated | chat/content/conversation-browser.js:410-419 | a browser never activated has displayed nothing and requested nothing, whatever was appended |
| DisplayLaws.HiddenSleeps | chat/content/conversation-browser.js:400-404 | a browser hidden with no display under way displays and requests nothing until the next activation; hiding without a context changes nothing |
| DisplayLaws.StoppedSleeps | chat/content/conversation-browser.js:235-236 | after an init or the first destroy the display does not resume before an activation or an append while active, and what waits is kept |
| DisplayLaws.StaleCallbacks | chat/content/conversation-browser.js:533-535 | callbacks left over from a display that an init or a destroy has stopped change neither what was displayed nor what waits |
| OtrFinger.OtrFingerDialog.constructor | chat/content/otr-finger.js:67-73 | the list starts with every fingerprint unmarked and the row count as its length |
| OtrFinger.OtrFingerDialog.Remove | chat/content/otr-finger.js:99-106 | the list loses exactly the entries that are selected and not in use, keeps no mark, and the user is told if a selected one is in use |
| OtrFinger.OtrFingerDialog.RemoveAll | chat/content/otr-finger.js:108-133 | if confirmed, exactly the entries in use remain, unmarked; otherwise nothing changes |
| OtrFinger.OtrFingerDialog.ForgetFingerprints | chat/modules/OTR.sys.mjs:439-474 | nulls the marked entries that are not in use, clears every mark, and reports whether no marked entry was in use |
| OtrFinger.OtrFingerDialog.CommonRemove | chat/content/otr-finger.js:135-158 | the list becomes the spared entries in order, without marks, the row count its length |
| OtrFinger.OtrFingerDialog.DropNulls | chat/content/otr-finger.js:138-148 | the list becomes its non-null entries in order, with one notification for each maximal stretch of nulls |
| OtrFinger.SurvivorsByRank | chat/content/otr-finger.js:138-148 | a kept entry stands behind exactly the kept ones before it, and there are no others |
| OtrFinger.ReplayFrom | chat/content/otr-finger.js:138-148 | from any point of the scan, the notifications still to come turn the rows of that moment into the survivors |
| OtrFinger.ReplayIsSurvivors | chat/content/otr-finger.js:144-146 | replaying the notifications on any mirror of the old rows gives exactly the rows that are kept |
| OtrFinger.NoticesApart | chat/content/otr-finger.js:138-148 | every notification is about some rows and kept rows lie between any two, so that each maximal stretch is told once |

## Left out

- Lengths and buffer positions are unbounded integers; the 32-bit lengths of the C++ interfaces are not modelled. Carried bits and units are bounded by the state invariants, and the casts to `char16_t` are written out; a `char` may be signed or not.
- Surrogate pairs: the codec works on single 16-bit units, and so does the model.
- The charset manager and alias tables, which only look services up, and `CopyUTF8toUTF16`, where a folder name that is not canonical goes.
- Resets.ResetExactly: a reset behind a mode change that has stopped on its way is covered by what `ResetLoses` says about the bytes only.
- FolderNames.CopyUTF16toMUTF7: the static array is a parameter of 100 slots or more; what the program does with 100 slots after a call has reported 101 bytes is not modelled.
- FolderNames.CopyFolderNameToUTF16: takes the same array and, with 100 slots, asks the same of an ASCII name.
- ConversationBrowser.MozConversationBrowser.SetIsActive: activation requires a browsing context; without one the setter throws.
- ConversationBrowser.MozConversationBrowser.DisplayMessage: rendering, themes, rulers and scrolling are one entry in a log; it is taken not to throw and not to call back into the queue.
- ConversationBrowser.MozConversationBrowser.ReplaceMessage: only the pending entries; the replacement of messages already in the document and of the last message is not part of this model.
- `removeMessage`, the progress bar, the `messageInsertPending` flag and the `MessagesDisplayed` event, which do not steer the queue.
- The log viewer's overrides of the two queue accessors are not part of this model.
- The activity of the browsing context changes only through the setter.
- OtrFinger.OtrFingerDialog.ForgetFingerprints: which fingerprints are in use is an arbitrary input, and the pointer of an entry is never null, as the list is built. Prompts, the tree widget and the selection ranges are not modelled.
