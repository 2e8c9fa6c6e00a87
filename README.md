# Plzsu LZW codec in Dafny

This project models the codec core of Plzsu (`src/index.ts`), an LZW string
compressor in the lz-string family. It covers:

- `baseCompress` and its helpers `loopCompressionCharBits`,
  `batchCompressionLoops` and `updateCompressionBitcount`;
- `baseDecompress` and its helper `loopDecompressionBits`;
- the two dictionary builders, `buildStrNumDictMap` and `buildNumStrDictMap`;
- the adapters that pair the codec with an output alphabet: Base64,
  URI-safe, UTF-16 and raw 16-bit units.

The model is in seven modules:

- `Common`: code units and strings, powers of two, and bit sequences. It
  also packs bit sequences into w-bit units, most significant bit first, and
  unpacks them again.
- `Schedule`: the adaptive code width. Both sides keep a width and a
  counter; when the counter runs out it is reloaded with 2^width and the
  width grows by one.
- `Alphabets`: the Base64 and URI-safe alphabets and the reverse maps built
  from them (`buildStrNumDictMap`). An `Encoding` per adapter fixes
  bitsPerChar, charFunc, resetValue and charCodeFunc.
- `Compressor`: the compressor at two levels.
  - On values: `CState`, `Step`, `Scan`, `EmitW`, `Finish`, `Flush` and
    `CompressSpec`, with the dictionary invariants it keeps.
  - Imperatively: a `CompressionTracker` class whose fields are the
    tracker's and whose methods are the helper functions. `BaseCompress` is
    proved to return `CompressSpec`.
- `Decompressor`: the decompressor at two levels.
  - On values: a reader over bit positions of the input (`StreamBit`,
    `ReadValue`), one loop turn (`DecodeStep`), the loop (`DecodeLoop`) and
    `DecompressSpec`, with the invariant on its dictionary.
  - Imperatively: a `DecompressionTracker` class (`currCompressedChar`,
    `position`, `index`) with `LoopDecompressionBits`. `BaseDecompress` is
    proved to return `DecompressSpec`.
- `RoundTrip`: the proof that `baseDecompress` gives back exactly what
  `baseCompress` was given. It follows the compressor one character at a
  time. After each character, `Sim` relates the compressor's state to the
  decompressor's state after it has read everything written so far:
  - the same bit position and the same width;
  - the text decoded so far, followed by the compressor's pending prefix,
    is the input read so far;
  - the decompressor's dictionary is the compressor's turned around, one or
    two entries behind.
- `Plzsu`: the adapters, including Base64 padding and the URI variant's
  space-to-plus replacement, and each adapter's round trip.

Inputs and outputs are JavaScript strings. They are modelled as sequences
of UTF-16 code units (`Text`).

## Model

| member | source | states |
|---|---|---|
| Alphabets.AlphabetsDistinct | src/index.ts:3-8 | both alphabets have 65 characters, none repeated; the URI-safe alphabet has no space |
| Alphabets.StrNumDict | src/index.ts:273-279 | the map's keys are exactly the characters of base; each maps to an index where that character stands, and no later index holds it |
| Alphabets.BuildStrNumDictMap | src/index.ts:273-279 | the loop over base builds exactly StrNumDict(base) |
| Alphabets.StrNumDictAt | src/index.ts:273-279 | a character whose last occurrence is at index i maps to i |
| Alphabets.BitsPerChar | src/index.ts:17-85 | every adapter writes between 6 and 16 bits per character |
| Alphabets.ResetValueIsTopBit | src/index.ts:17-85 | each decompressing adapter's resetValue is 2^(bitsPerChar-1), the top bit of its compressing twin's units |
| Alphabets.Encode | src/index.ts:17-85 | charFunc over a unit sequence gives one character per unit |
| Alphabets.EncodeAt | src/index.ts:17-85 | character i of the output is charFunc of unit i |
| Alphabets.CodeAtEncode | src/index.ts:17-85 | for units below 2^bitsPerChar, the decompressor's charCodeFunc returns exactly the unit that the compressor's charFunc encoded |
| Common.PackAt | src/index.ts:386-407 | bit p of a whole-unit stream is bit (w-1-p%w) of unit p/w: the reader finds each bit, most significant first, where the writer put it |
| Common.PackOfUnpack | src/index.ts:313-316 | units below 2^w are recovered from the bits they carry |
| Common.UnpackLength | src/index.ts:313-316 | each unit carries exactly w bits |
| Schedule.NextWidth | src/index.ts:377-383 | a positive counter stays positive; the width grows by at most one, and grows exactly when the counter was 1 |
| Schedule.StepsMonotone | src/index.ts:377-383 | the width never shrinks over any number of steps |
| Schedule.StepsFromStart | src/index.ts:101-102 | after n steps from (2, 2): n + 2 + counter == 2^width and 2^(width-1) <= n + 2 < 2^width |
| Schedule.DecompressorStartsAfterFirstLiteral | src/index.ts:170-171 | the decompressor's (3, 4) is where the compressor's (2, 2) is after two steps, its first literal |
| Schedule.BalancedStep | src/index.ts:377-383 | if size + counter == 2^width with a positive counter, one step keeps this balance with one more entry |
| Compressor.EmitW | src/index.ts:335-376 | a pending w goes out as marker 0 plus 8 bits or marker 1 plus 16 bits, leaves the pending set and takes two schedule steps; any other w goes out as its code at the current width and takes one step; the dictionary is unchanged |
| Compressor.Register | src/index.ts:108-114 | afterwards the character is a key; w, width and output are unchanged |
| Compressor.Restart | src/index.ts:119-132 | w + c gets the next code (3 + size), w leaves the pending set, and w restarts at c |
| Compressor.Finish | src/index.ts:135-145 | emitting the last prefix and the end marker only appends to the stream |
| Compressor.FlushFrom | src/index.ts:147-155 | a stream p bits into a unit is completed by w - p zero bits |
| Compressor.FlushAppendsOneUnit | src/index.ts:147-155 | the flush extends the stream with zero bits to a whole number of units, adding exactly one unit more than were complete |
| Compressor.CompressSpec | src/index.ts:87-160 | the output is empty exactly when the input is empty |
| Compressor.AddKeyKeepsCodes | src/index.ts:127-130 | adding a key under code 3 + size keeps the codes exactly 3..3+size-1, one per key |
| Compressor.RegisterKeepsShape | src/index.ts:108-114 | registering a character keeps the dictionary invariant apart from the pending entry |
| Compressor.ExtendKeepsInv | src/index.ts:116-118 | a turn that extends w keeps the dictionary invariant |
| Compressor.AddKeyKeepsChars | src/index.ts:127-130 | a new key made of registered characters keeps every key made of registered characters |
| Compressor.SnocChars | src/index.ts:116 | w + c is made of registered characters |
| Compressor.EmitKeepsKeys | src/index.ts:119-132 | a turn that emits w keeps the codes dense and the keys well formed |
| Compressor.RegisterKeepsKeys | src/index.ts:108-114 | registration keeps the codes dense and the keys made of registered characters |
| Compressor.RestartKeepsKeys | src/index.ts:127-131 | registering w + c keeps the keys in shape |
| Compressor.EmitKeepsPending | src/index.ts:119-132 | after emitting, only [c] can be pending, and no longer key starts with it |
| Compressor.EmitKeepsInv | src/index.ts:119-132 | a turn that emits w keeps the dictionary invariant |
| Compressor.StepKeepsInv | src/index.ts:106-133 | every turn keeps the dictionary invariant |
| Compressor.ScanKeepsInv | src/index.ts:106-133 | the invariant holds after the loop has read any input |
| Compressor.EmittedPrefixIsKey | src/index.ts:367-373 | after a non-empty input, w is a non-empty key, so the `\|\| 0` fallback never applies; pending entries are single registered characters |
| Compressor.ScanSnoc | src/index.ts:106-107 | the loop over one more character is one more turn |
| Compressor.ShiftedValue | src/index.ts:301-307 | shifting a bit in keeps the buffer value below 2^(position+1) and appends the bit to its bits |
| Compressor.ShiftedStreamWithin | src/index.ts:317-319 | a bit shifted into a partly filled buffer is appended to the stream |
| Compressor.ShiftedStreamLast | src/index.ts:313-316 | a bit that fills the buffer completes one more unit of the stream |
| Compressor.ShiftWithin | src/index.ts:317-319 | a shift that leaves room in the buffer keeps the buffer consistent with the stream |
| Compressor.ShiftLast | src/index.ts:313-316 | a shift that fills the buffer writes one charFunc character and empties the buffer |
| Compressor.WholeUnits | src/index.ts:313-316 | with an empty buffer, builtString is charFunc over the packing of the stream |
| Compressor.PeelBit | src/index.ts:327-328 | writing k+1 bits of p is writing its lowest bit and then k bits of p >> 1 |
| Compressor.CompressionTracker.constructor | src/index.ts:97-104 | the tracker starts with empty w and output, width 2 and counter 2, and empty dictionaries |
| Compressor.CompressionTracker.LoopCompressionCharBits | src/index.ts:289-334 | appends `override` bits (or bitCount bits), least significant first, of the mode's value ('none' 0, 'raw' the raw bit, 'bitwise' the value) and keeps the buffer consistent |
| Compressor.CompressionTracker.ShiftIn | src/index.ts:313-319 | one bit is appended and dataPosition wraps at bitsPerChar - 1 |
| Compressor.CompressionTracker.ShiftInLast | src/index.ts:313-316 | a full buffer is written out and dataPosition returns to 0 |
| Compressor.CompressionTracker.ShiftInWithin | src/index.ts:317-319 | dataPosition advances by one |
| Compressor.CompressionTracker.UpdateCompressionBitcount | src/index.ts:377-383 | (bitCount, compressionIncrement) takes one step of the width schedule |
| Compressor.CompressionTracker.EmitLiteral | src/index.ts:343-363 | appends the literal escape of crossLoopChars' first code unit |
| Compressor.CompressionTracker.BatchCompressionLoops | src/index.ts:335-376 | the tracker moves exactly as EmitW says |
| Compressor.CompressionTracker.RegisterChar | src/index.ts:108-114 | the tracker moves exactly as Register says |
| Compressor.CompressionTracker.CompressChar | src/index.ts:106-133 | one loop turn moves the tracker exactly as Step says |
| Compressor.CompressionTracker.EmitAndRestart | src/index.ts:119-132 | the else-branch moves the tracker exactly as Restart says |
| Compressor.CompressionTracker.FinishStream | src/index.ts:135-155 | the written stream is Flush(Finish(...)) of the state after the loop |
| Compressor.CompressionTracker.FlushLastUnit | src/index.ts:147-155 | the stream is flushed to whole units and the buffer is emptied |
| Compressor.BaseCompress | src/index.ts:87-160 | returns CompressSpec(input, encoding) |
| Decompressor.DecimalString | src/index.ts:283 | i.toString() is never empty |
| Decompressor.DecimalRoundTrip | src/index.ts:283 | toString's digits read back to the number, are all decimal digits, and begin with '0' only for 0 |
| Decompressor.BuildNumStrDictMap | src/index.ts:280-286 | the loop builds 0..base-1 mapped to their decimal strings; the keys are exactly 0..base-1 |
| Decompressor.NumStrDictSize | src/index.ts:280-286 | buildNumStrDictMap(base) has base entries |
| Decompressor.ReadValue | src/index.ts:386-407 | n bits read as a value below 2^n |
| Decompressor.FirstChar | src/index.ts:253 | charAt(0) is at most one character, and a prefix of the string |
| Decompressor.ReadCode | src/index.ts:208-248 | reading a code moves the reader forward by at least the width, and the width never shrinks |
| Decompressor.CodeEntry | src/index.ts:216-248 | a code other than 2 always gives an entry to look up, without moving back or shrinking the width |
| Decompressor.LiteralEntry | src/index.ts:219-240 | a literal gives an entry, moves the reader forward and keeps the width |
| Decompressor.Emit | src/index.ts:249-265 | an unknown code ends with ''; otherwise the result only grows |
| Decompressor.DecodeStep | src/index.ts:204-266 | once the reader's index has passed the end of the input the turn returns ''; an in-range code 2 returns the result so far; otherwise it moves the reader forward by at least the width, never shrinks the width, and either returns '' or continues with a longer result |
| Decompressor.Begin | src/index.ts:180-202 | the prologue gives up with '' exactly when the first two bits are neither 0 nor 1; otherwise it continues at width 3 with counter 4, with a one-character result that is also wtf, read from 10 or 18 bits |
| Decompressor.AddNextKey | src/index.ts:223 | with keys exactly 0..size-1, adding key size gives keys 0..size |
| Decompressor.BeginInv | src/index.ts:168-202 | the state before the loop satisfies the decoder invariant |
| Decompressor.EmitRecordsValue | src/index.ts:249-261 | the looked-up value is recorded as wtf and appended to the result; a code not in the dictionary must be size, with value wtf + wtf[0] |
| Decompressor.StepKeepsInv | src/index.ts:204-266 | every turn keeps the keys exactly 0..size-1 with no entry '' and the width positive |
| Decompressor.ReadCodeKeepsTable | src/index.ts:208-248 | reading a code keeps the dictionary and width in shape |
| Decompressor.CodeEntryKeepsKeys | src/index.ts:216-248 | a literal's new entry keeps the keys dense and non-empty |
| Decompressor.EmitKeepsInv | src/index.ts:249-265 | recording the next entry keeps the decoder invariant |
| Decompressor.CodeEntryGrowsDict | src/index.ts:219-240 | a code other than 2 keeps every entry; codes 0 and 1 add, under the next key, the character String.fromCharCode makes of the 8 (code 0) or 16 (code 1) bits after the marker, and look that key up |
| Decompressor.ReadCodeGrowsDict | src/index.ts:208-240 | reading a code keeps every entry; a literal adds one entry, the character read after the marker, under the next key; any other code adds none |
| Decompressor.EmitGrowsDict | src/index.ts:249-265 | recording keeps every entry and adds wtf followed by the looked-up entry's first character under the next key; a known code yields its own entry |
| Decompressor.StepGrowsDict | src/index.ts:204-266 | a continuing turn keeps every entry; for codes 0 and 1 it adds the character read after the marker under the next key and that character becomes the entry looked up; then it adds wtf + entry.charAt(0) under the key after that: two new entries for a literal, one otherwise |
| Decompressor.DecodeLoopResult | src/index.ts:204-266 | the loop returns '' or a string that extends the result so far |
| Decompressor.PastEndGivesEmpty | src/index.ts:205-207 | once the reader's index has passed the end of the input, the loop returns '' whatever it has decoded |
| Decompressor.LookupNonEmpty | src/index.ts:250-256 | under the invariant a looked-up value is never '', so `\|\| ''` never applies |
| Decompressor.DecompressResult | src/index.ts:161-270 | '' for the empty input and for leading two bits other than 0 and 1; otherwise '' or a string beginning with the first character |
| Decompressor.DecompressionTracker.constructor | src/index.ts:174-179 | the reader starts at bit 0 of the stream |
| Decompressor.DecompressionTracker.ReadBit | src/index.ts:397-402 | returns the stream bit at the reader's position and advances by one |
| Decompressor.DecompressionTracker.LoopDecompressionBits | src/index.ts:386-407 | returns the next `exponent` stream bits as a value, least significant first, and advances by exactly that many |
| Decompressor.ReadEntryCode | src/index.ts:208-243 | the imperative read of a code agrees with ReadCode |
| Decompressor.ResolveCode | src/index.ts:216-248 | the switch on loopBits and the width update agree with CodeEntry |
| Decompressor.WidenIfDue | src/index.ts:245-248 | the width update agrees with Widen |
| Decompressor.ReadLiteral | src/index.ts:219-240 | cases 0 and 1 agree with LiteralEntry |
| Decompressor.RecordEntry | src/index.ts:249-265 | the lookup and the new entry agree with Emit |
| Decompressor.ReadTopChar | src/index.ts:180-202 | the prologue agrees with Begin |
| Decompressor.DecompressLoop | src/index.ts:204-266 | the while loop returns DecodeLoop of its starting state |
| Decompressor.BaseDecompress | src/index.ts:161-270 | returns DecompressSpec(input, encoding) |
| Plzsu.PadBase64 | src/index.ts:21-32 | appends fewer than four '=' characters to reach a multiple of four, so the default throw is never reached |
| Plzsu.UnitInAlphabet | src/index.ts:17-85 | charFunc maps a unit below 2^bitsPerChar into the adapter's alphabet |
| Plzsu.EncodeInAlphabet | src/index.ts:17-85 | every character of an encoded unit sequence is in the adapter's alphabet |
| Plzsu.CompressedInAlphabet | src/index.ts:87-160 | every character baseCompress writes is in the adapter's alphabet |
| Plzsu.CompressToBase64 | src/index.ts:17-33 | a multiple of four Base64 characters, empty exactly for the empty input |
| Plzsu.DecompressFromBase64 | src/index.ts:34-41 | the empty string decompresses to '' |
| Plzsu.CompressToUtf16 | src/index.ts:43-45 | every character is in [32, 0xD800), so none is a control character or a surrogate |
| Plzsu.DecompressFromUtf16 | src/index.ts:46-52 | the empty string decompresses to '' |
| Plzsu.CompressToEncodedUriComponent | src/index.ts:63-65 | every character is URI-safe and none is a space |
| Plzsu.ReplaceSpaces | src/index.ts:67 | every space becomes '+', every other character stays |
| Plzsu.DecompressFromEncodedUriComponent | src/index.ts:66-74 | the empty string decompresses to '' |
| Plzsu.ReplaceSpacesFixed | src/index.ts:67 | the replacement is the identity on space-free strings and is idempotent |
| Plzsu.SpaceReadsAsPlus | src/index.ts:66-74 | decompressing after the replacement gives the same as decompressing the original |
| Plzsu.ReplaceSpacesKeepsCompressed | src/index.ts:63-74 | the replacement leaves compressToEncodedURIComponent's output unchanged |
| Plzsu.Compress | src/index.ts:76-78 | the output is empty exactly when the input is empty |
| Plzsu.Decompress | src/index.ts:79-85 | the empty string decompresses to '' |
| RoundTrip.PackLength | src/index.ts:313-316 | a stream of whole units is written as one character per bitsPerChar bits |
| RoundTrip.EncodedCarries | src/index.ts:386-407 | reading the characters charFunc wrote for a whole-unit stream through charCodeFunc gives back every bit of that stream |
| RoundTrip.EncodedBit | src/index.ts:386-407 | one bit of the stream is found where the writer put it |
| RoundTrip.ReadCarried | src/index.ts:386-407 | n bits read from position p are the value of those stream bits, least significant first |
| RoundTrip.ReadOneMore | src/index.ts:396-404 | one more bit that the stream carries adds that bit at the top of the value read |
| RoundTrip.ReadBack | src/index.ts:386-407 | a value below 2^n written in n bits at position p reads back as itself |
| RoundTrip.ScanOutGrows | src/index.ts:106-133 | the loop only appends: the output after i characters begins the output after any later character |
| RoundTrip.ScanInStream | src/index.ts:106-156 | everything written during the loop, and the stream before the flush, begins the final stream |
| RoundTrip.RegisterThenEmit | src/index.ts:108-126 | registering the next character changes neither what batchCompressionLoops writes for w nor the width after it |
| RoundTrip.ReadTwo | src/index.ts:386-407 | two values written one after the other are read back in turn |
| RoundTrip.LiteralCode | src/index.ts:208-248 | a literal marker followed by its character makes the character the next entry, looked up under its own code, with one schedule step |
| RoundTrip.ReadLiteralBits | src/index.ts:219-240 | the 0/1 marker and 8- or 16-bit character the compressor writes are read back as a new entry holding that character |
| RoundTrip.ReadCodeBits | src/index.ts:208-248 | a code above 2 written at the current width is read back as that code, with the width unchanged |
| RoundTrip.ReadLiteralEmission | src/index.ts:219-240 | a pending w is read as a new entry holding w, under the next code |
| RoundTrip.ReadCodeEmission | src/index.ts:208-248 | the code of any other w lies in 3..size and is read back as itself |
| RoundTrip.LookupEmission | src/index.ts:249-256 | that code finds w, also when it is the code not yet assigned, whose value is wtf + wtf.charAt(0) |
| RoundTrip.DecodeLiteralEmission | src/index.ts:204-266 | a decompressor turn over a literal lands where AfterEmit says: w appended to the result, the next entry added, two schedule steps |
| RoundTrip.DecodeCodeEmission | src/index.ts:204-266 | a decompressor turn over a code lands where AfterEmit says: w appended to the result, the next entry added, one schedule step |
| RoundTrip.DecodeEmission | src/index.ts:204-266 | every emission of w is read by exactly one decompressor turn, which never gives up and never stops |
| RoundTrip.SimAfterExtend | src/index.ts:116-118 | a turn that extends w keeps the simulation without the decompressor moving |
| RoundTrip.DictSimRestart | src/index.ts:119-132 | after w is emitted and w + c registered, the decompressor's dictionary is again the compressor's turned around, behind by w + c and a pending [c] |
| RoundTrip.RestartKeys | src/index.ts:108-132 | the turn that emits w leaves w = [c], registers w + c under the next code, and leaves only a new [c] pending |
| RoundTrip.RestartOut | src/index.ts:119-126 | that turn writes exactly what emitting w writes |
| RoundTrip.RestartDicts | src/index.ts:119-132 | after that turn both dictionaries are in step, the decompressor's one or two entries larger |
| RoundTrip.EmitBalanced | src/index.ts:377-383 | after w is emitted, the decompressor's width still has room for every code up to its dictionary size |
| RoundTrip.SimAfterRestart | src/index.ts:119-132 | a turn that emits w keeps the simulation, with the decompressor one turn further |
| RoundTrip.BeginRead | src/index.ts:180-202 | the first two bits and the character after them are the compressor's first literal, so the prologue never returns '' |
| RoundTrip.BeginOf | src/index.ts:180-202 | a marker 0 or 1 and the character after it give entry 3, wtf and result equal to that character, at width 3 with counter 4 |
| RoundTrip.EndMarkerRead | src/index.ts:241-242 | the end marker written at the current width ends the loop with the result so far |
| RoundTrip.ScanOne | src/index.ts:106-118 | after one character, w is that character, registered under code 3 and pending, and nothing is written |
| RoundTrip.FirstDict | src/index.ts:168-202 | the decompressor's dictionary before its loop has keys 0..3 with entry 3 the first character |
| RoundTrip.SecondRestart | src/index.ts:116-132 | the second character is never a continuation of the first |
| RoundTrip.SecondState | src/index.ts:106-133 | after two characters the first has gone out as a literal at width 2, the width is (3, 4) and w is the second character |
| RoundTrip.SecondDictOf | src/index.ts:127-130 | the dictionary after two characters |
| RoundTrip.FirstDictSim | src/index.ts:168-202 | after two characters the dictionaries are in step |
| RoundTrip.FirstSim | src/index.ts:168-202 | from the second character on, the simulation holds with the decompressor where its prologue leaves it |
| RoundTrip.FinishRun | src/index.ts:135-145 | the last emission and the end marker make the decompressor's loop return the whole input |
| RoundTrip.Turn | src/index.ts:106-133 | one more character keeps the simulation, with the decompressor unmoved or one turn further |
| RoundTrip.SimRun | src/index.ts:204-266 | from any point of the simulation, the decompressor's loop returns the whole input |
| RoundTrip.SingleRun | src/index.ts:135-145 | a one-character input is a literal and the end marker at width 3, and decompresses to itself |
| RoundTrip.StreamCarried | src/index.ts:87-160 | the compressed string is non-empty and carries the whole bit stream |
| RoundTrip.DecodesStream | src/index.ts:161-270 | any string that carries the stream of a non-empty input decompresses to that input |
| RoundTrip.RoundTripSpec | src/index.ts:87-270 | baseDecompress(baseCompress(x)) == x for every input and every encoding |
| RoundTrip.CarriesExtend | src/index.ts:21-32 | characters appended after the stream, such as Base64 padding, change none of its bits |
| RoundTrip.CodeAtPrefix | src/index.ts:34-41 | charCodeFunc reads the same value from a character when more characters follow it |
| Plzsu.Base64RoundTrip | src/index.ts:17-41 | decompressFromBase64(compressToBase64(x)) == x, padding included |
| Plzsu.Utf16RoundTrip | src/index.ts:43-52 | decompressFromUTF16(compressToUTF16(x)) == x |
| Plzsu.EncodedUriComponentRoundTrip | src/index.ts:63-74 | decompressFromEncodedURIComponent(compressToEncodedURIComponent(x)) == x |
| Plzsu.RawRoundTrip | src/index.ts:76-85 | decompress(compress(x)) == x |

## Left out

- The compressed output is not proved shorter than its input. That is an
  empirical claim about typical text, not a property of every input.
- `compressToUint8Array` and `decompressFromUint8Array` are not modelled.
  They only wrap `compress` and `decompress` in TextEncoder and TextDecoder
  (UTF-8), which lie outside the codec.
- The `typeof input === 'string'` checks are not modelled. Every input in
  the model is a string, so those branches reduce to the length test.
- The mode strings of `loopCompressionCharBits` are a three-valued `Mode`.
  The `'Invalid Mode'` throws therefore cannot be reached and are not
  modelled.
- `Number(override) || tracker.bitCount` is modelled as an override of 0
  meaning "use bitCount", which is how `undefined` behaves in the TypeScript.
- `compressionDictToCreate` is a set. The TypeScript stores the constant 1
  for each member and only ever asks whether a key is present.
- Integer widths are not modelled:
  - `dataValue << 1` and `Math.pow(2, numBits)` are taken as unbounded
    integers. `dataValue` stays below 2^bitsPerChar ≤ 2^16, so its shift
    never wraps.
  - In `loopDecompressionBits` (src/index.ts:386-407), `power <<= 1` is a
    32-bit shift. With `exponent` 31 or more, `power` goes from 2^30 to
    -2^31, never equals `Math.pow(2, exponent)`, then becomes 0 and stays
    0. The TypeScript reader therefore loops forever on codes of 31 bits
    or more. The model's `ReadValue` and `LoopDecompressionBits` return
    there.
  - By `StepsFromStart`, the width reaches 31 bits once n + 2 ≥ 2^30
    schedule steps have been taken, that is at about 2^30 dictionary
    entries. On such inputs the model's round trip holds, but the
    TypeScript does not return. The writer's `workingValue >> 1` is
    likewise a 32-bit shift and goes wrong on codes of 2^31 and above.
- Decompressor.FromCharCode and Alphabets.UnitChar are total: they reduce
  modulo 2^16 and map out-of-alphabet units to 0. The TypeScript's behaviour
  on such values (`charAt` past the end gives '') is only reachable on
  inputs this model shows cannot occur (`EncodeInAlphabet`).
- Alphabets.CodeAt returns 0 for a character outside the alphabet and for a
  position past the end. The TypeScript gets `undefined` or `NaN` there, which
  every `&` turns into 0.
- Several source functions are split into smaller methods, with the same
  statements in the same order:
  - `baseCompress` into BaseCompress, CompressChar, RegisterChar,
    EmitAndRestart, FinishStream and FlushLastUnit;
  - `batchCompressionLoops` into BatchCompressionLoops and EmitLiteral;
  - `baseDecompress` into BaseDecompress, ReadTopChar, DecompressLoop,
    ReadEntryCode, ResolveCode, ReadLiteral, WidenIfDue and RecordEntry.
- The switch's cases 0 and 1 share one literal path (ReadLiteral) that reads
  8 or 16 bits.
- The decompression reader is modelled as a position in the input's bit
  stream. `consumed` is a ghost counter of the bits read. The fields
  `currCompressedChar`, `position` and `index` are proved to agree with it.
- The Plzsu class's readonly fields (`keyStrBase64`, `keyStrUriSafe`,
  `dictMapBase64`, `dictMapUriSafe`) are module constants. The constructor
  only computes them.
- Plzsu.DecompressFromBase64, Plzsu.DecompressFromUtf16,
  Plzsu.DecompressFromEncodedUriComponent and Plzsu.Decompress state in
  their own contracts only the empty-input case. What they return on their
  adapter's output is stated by the round-trip lemmas beside them. On other
  strings they return '' or a string beginning with the first decoded
  character (`DecompressResult`), and nothing more is stated.
