/**
 * The compressor (baseCompress and its helpers in src/index.ts).
 *
 * The first half states the compressor on values: CState is everything the
 * loop keeps (the two dictionaries, the rolling prefix w, the code width
 * and the bits written so far), Step is one turn of the loop, Scan the loop
 * over a whole input, EmitW is batchCompressionLoops, Finish writes the
 * last prefix and the end marker, Flush pads the last unit.
 *
 * The second half is the imperative compressor: CompressionTracker holds
 * the tracker fields the TypeScript mutates in place, its methods are
 * loopCompressionCharBits, batchCompressionLoops and
 * updateCompressionBitcount, and BaseCompress runs the loop; each is proved
 * to move the tracker exactly as the value-level functions say.
 */
module Compressor {
  import opened Common
  import opened Schedule
  import opened Alphabets

  /** compressionDictSizeOffset: codes 0, 1 and 2 are the literal and end markers. */
  const SizeOffset: nat := 3

  /** The marker that ends the stream. */
  const EndMarker: nat := 2

  /**
   * What the compression loop keeps: compressionDict, compressionDictToCreate
   * (a set: the TypeScript stores the constant 1 for each member),
   * crossLoopChars (w), the code width, and the bit stream written so far.
   */
  datatype CState = CState(
    dict: map<Text, nat>,
    toCreate: set<Text>,
    w: Text,
    width: Width,
    out: seq<bool>)

  /** The state before the first character. */
  const Start: CState := CState(map[], {}, [], CompressorStart, [])

  /** The bits of the literal escape for code unit c, whose marker goes out at the given width. */
  function LiteralBits(c: CodeUnit, bits: nat): seq<bool>
  {
    var narrow := c < 256;
    BitsLE(if narrow then 0 else 1, bits) + BitsLE(c, if narrow then 8 else 16)
  }

  /**
   * batchCompressionLoops: emit the prefix w. A prefix still waiting for its
   * literal escape goes out as marker 0 and 8 bits, or marker 1 and 16 bits,
   * leaves the pending set and takes two schedule steps; any other prefix
   * goes out as its code at the current width and takes one step.
   */
  function EmitW(st: CState): (r: CState)
    requires st.w != []
    ensures r.dict == st.dict && r.w == st.w && r.toCreate == st.toCreate - {st.w}
    ensures st.w in st.toCreate ==> r.out == st.out + LiteralBits(st.w[0], st.width.bits)
    ensures st.w !in st.toCreate && st.w in st.dict ==>
      r.out == st.out + BitsLE(st.dict[st.w], st.width.bits)
    ensures r.width == Steps(st.width, if st.w in st.toCreate then 2 else 1)
  {
    assert Steps(st.width, 1) == NextWidth(st.width);
    if st.w in st.toCreate then
      var c := st.w[0];
      var narrow := c < 256;
      var out := st.out + BitsLE(if narrow then 0 else 1, st.width.bits) + BitsLE(c, if narrow then 8 else 16);
      assert Steps(st.width, 2) == NextWidth(Steps(st.width, 1));
      st.(toCreate := st.toCreate - {st.w}, width := NextWidth(NextWidth(st.width)), out := out)
    else
      var code := if st.w in st.dict then st.dict[st.w] else 0;
      st.(width := NextWidth(st.width), out := st.out + BitsLE(code, st.width.bits))
  }

  /** A code unit seen for the first time gets the next code and waits for its literal. */
  function Register(st: CState, c: CodeUnit): (r: CState)
    ensures [c] in r.dict && r.w == st.w && r.width == st.width && r.out == st.out
  {
    if [c] in st.dict then st
    else st.(dict := st.dict[[c] := SizeOffset + |st.dict|], toCreate := st.toCreate + {[c]})
  }

  lemma SingletonAppend(w: Text, c: CodeUnit)
    ensures w == [] ==> w + [c] == [c]
  {
  }

  /**
   * One turn of the compression loop on the code unit c: register c, then
   * either extend w by c or emit w, register w + c under the next code and
   * restart w at c.
   */
  function Step(st: CState, c: CodeUnit): CState
  {
    var st1 := Register(st, c);
    if st1.w + [c] in st1.dict then st1.(w := st1.w + [c]) else Restart(st1, c)
  }

  /** w + c is new: emit w, register w + c under the next code and restart w at c. */
  function Restart(st: CState, c: CodeUnit): (r: CState)
    requires [c] in st.dict && st.w + [c] !in st.dict
    ensures r.dict == st.dict[st.w + [c] := SizeOffset + |st.dict|]
    ensures r.toCreate == st.toCreate - {st.w} && r.w == [c]
  {
    SingletonAppend(st.w, c);
    var st2 := EmitW(st);
    st2.(dict := st2.dict[st.w + [c] := SizeOffset + |st2.dict|], w := [c])
  }

  /** The compression loop over a whole input. */
  function Scan(input: Text): CState
  {
    if input == [] then Start else Step(Scan(input[..|input| - 1]), input[|input| - 1])
  }

  /** After the loop: emit a remaining prefix, then the end marker at the current width. */
  function Finish(st: CState): (r: seq<bool>)
    ensures st.out <= r
  {
    var st1 := if st.w != [] then EmitW(st) else st;
    st1.out + BitsLE(EndMarker, st1.width.bits)
  }

  /** The final flush: zero bits up to and including the end of the next unit. */
  function Flush(bits: seq<bool>, bitsPerChar: nat): seq<bool>
    requires bitsPerChar > 0
  {
    bits + Zeros(bitsPerChar - |bits| % bitsPerChar)
  }

  /** A stream p bits into a unit is flushed by w - p zero bits. */
  lemma FlushFrom(bits: seq<bool>, w: nat, n: nat, p: nat)
    requires p < w && |bits| == n * w + p
    ensures Flush(bits, w) == bits + Zeros(w - p)
  {
    DivModUnique(|bits|, w, n, p);
  }

  /** The complete bit stream written for a non-empty input. */
  function Stream(input: Text, bitsPerChar: nat): seq<bool>
    requires bitsPerChar > 0
  {
    Flush(Finish(Scan(input)), bitsPerChar)
  }

  /** baseCompress on values: the empty input gives the empty string. */
  function CompressSpec(input: Text, e: Encoding): (r: Text)
    ensures input == [] <==> r == []
  {
    if |input| == 0 then []
    else
      FlushHoldsAUnit(Finish(Scan(input)), BitsPerChar(e));
      Encode(e, Pack(Stream(input, BitsPerChar(e)), BitsPerChar(e)))
  }

  /** The flush always leaves at least one whole unit. */
  lemma FlushHoldsAUnit(bits: seq<bool>, bitsPerChar: nat)
    requires bitsPerChar > 0
    ensures |Flush(bits, bitsPerChar)| >= bitsPerChar
  {
    assert |bits| % bitsPerChar <= |bits| by {
      DivModUnique(|bits|, bitsPerChar, |bits| / bitsPerChar, |bits| % bitsPerChar);
    }
  }

  /**
   * The flush pads to a whole number of units and always adds exactly one
   * unit to those already complete, zero bits after the data.
   */
  lemma FlushAppendsOneUnit(bits: seq<bool>, bitsPerChar: nat)
    requires bitsPerChar > 0
    ensures var f := Flush(bits, bitsPerChar);
      && bits <= f
      && |f| % bitsPerChar == 0
      && |f| / bitsPerChar == |bits| / bitsPerChar + 1
      && forall i :: |bits| <= i < |f| ==> !f[i]
  {
    var q, p := |bits| / bitsPerChar, |bits| % bitsPerChar;
    assert |bits| == q * bitsPerChar + p;
    assert (q + 1) * bitsPerChar == q * bitsPerChar + bitsPerChar;
    DivModUnique(|Flush(bits, bitsPerChar)|, bitsPerChar, q + 1, 0);
    ZerosSnoc(bitsPerChar - p);
  }

  /** Codes are exactly 3, 4, ..., 3 + size - 1, one per key. */
  ghost predicate CodesDense(dict: map<Text, nat>)
  {
    && (forall k :: k in dict ==> SizeOffset <= dict[k] < SizeOffset + |dict|)
    && (forall k1, k2 :: CodesDiffer(dict, k1, k2))
  }

  /** Two different keys have different codes. */
  ghost predicate CodesDiffer(dict: map<Text, nat>, k1: Text, k2: Text)
  {
    k1 in dict && k2 in dict && k1 != k2 ==> dict[k1] != dict[k2]
  }

  /** Every key is non-empty and each of its characters is itself a key. */
  ghost predicate CharsRegistered(dict: map<Text, nat>)
  {
    forall k :: k in dict ==> k != [] && forall i :: 0 <= i < |k| ==> [k[i]] in dict
  }

  /** A pending entry is one character with which no longer key starts. */
  ghost predicate PendingFresh(st: CState)
  {
    forall p :: p in st.toCreate ==>
      |p| == 1 && forall k :: k in st.dict && |k| >= 2 ==> k[0] != p[0]
  }

  /**
   * What the compressor keeps true of its dictionaries between turns: the
   * codes are dense, the keys are built from registered characters, w is a
   * key, and the only entry that can be pending is w itself.
   */
  ghost predicate CompressorInv(st: CState)
  {
    && CodesDense(st.dict)
    && CharsRegistered(st.dict)
    && (st.w != [] ==> st.w in st.dict)
    && st.toCreate <= {st.w}
    && PendingFresh(st)
  }

  /** A new key under the next code keeps the codes dense. */
  lemma AddKeyKeepsCodes(dict: map<Text, nat>, k: Text)
    requires CodesDense(dict) && k !in dict
    ensures CodesDense(dict[k := SizeOffset + |dict|])
  {
    var d := dict[k := SizeOffset + |dict|];
    assert |d| == |dict| + 1;
    forall k1, k2
      ensures CodesDiffer(d, k1, k2)
    {
      assert CodesDiffer(dict, k1, k2);
    }
  }

  /**
   * Registration keeps codes and keys in shape; a character registered now
   * occurs in no other key, and only w and [c] can be pending.
   */
  lemma RegisterKeepsShape(st: CState, c: CodeUnit)
    requires CompressorInv(st)
    ensures var st1 := Register(st, c);
      && CodesDense(st1.dict) && CharsRegistered(st1.dict) && PendingFresh(st1)
      && (st.w != [] ==> st.w in st1.dict)
      && st1.toCreate <= {st.w, [c]}
      && ([c] in st1.toCreate && [c] !in st.toCreate ==>
            forall k, i :: k in st1.dict && 0 <= i < |k| && k[i] == c ==> k == [c])
  {
    if [c] !in st.dict {
      AddKeyKeepsCodes(st.dict, [c]);
      var st1 := Register(st, c);
      forall k, i | k in st.dict && 0 <= i < |k|
        ensures k[i] != c
      {
        assert [k[i]] in st.dict;
      }
    }
  }

  /** The turn where w + c is already a key. */
  lemma ExtendKeepsInv(st: CState, c: CodeUnit)
    requires CompressorInv(st)
    requires st.w + [c] in Register(st, c).dict
    ensures CompressorInv(Step(st, c))
  {
    RegisterKeepsShape(st, c);
    var st1 := Register(st, c);
    var wc := st.w + [c];
    if st.w == [] {
      assert wc == [c];
    } else {
      assert |wc| >= 2 && wc[0] == st.w[0] && wc[|st.w|] == c;
      assert st.w !in st1.toCreate;
      assert wc != [c];
      assert [c] in st.toCreate ==> st.w == [c];
      assert [c] !in st1.toCreate;
    }
  }

  /** A new key made of registered characters keeps every key's characters registered. */
  lemma AddKeyKeepsChars(dict: map<Text, nat>, k: Text, code: nat)
    requires CharsRegistered(dict) && k != []
    requires forall i :: 0 <= i < |k| ==> [k[i]] in dict
    ensures CharsRegistered(dict[k := code])
  {
  }

  /** A key or the empty prefix, extended by a registered character, is made of registered characters. */
  lemma SnocChars(dict: map<Text, nat>, w: Text, c: CodeUnit)
    requires CharsRegistered(dict) && (w != [] ==> w in dict) && [c] in dict
    ensures forall i :: 0 <= i < |w + [c]| ==> [(w + [c])[i]] in dict
  {
    forall i | 0 <= i < |w + [c]|
      ensures [(w + [c])[i]] in dict
    {
      if i < |w| {
        assert (w + [c])[i] == w[i];
      }
    }
  }

  /** The turn where w is emitted and w + c becomes a key: the keys stay in shape. */
  lemma EmitKeepsKeys(st: CState, c: CodeUnit)
    requires CompressorInv(st)
    requires st.w + [c] !in Register(st, c).dict
    ensures var st3 := Step(st, c);
      CodesDense(st3.dict) && CharsRegistered(st3.dict) && st3.w in st3.dict
  {
    RegisterKeepsKeys(st, c);
    var st1 := Register(st, c);
    RestartKeepsKeys(st1.dict, st.w, c);
  }

  /** Registration keeps the codes dense and the keys made of registered characters. */
  lemma RegisterKeepsKeys(st: CState, c: CodeUnit)
    requires CodesDense(st.dict) && CharsRegistered(st.dict) && (st.w != [] ==> st.w in st.dict)
    ensures var d := Register(st, c).dict;
      CodesDense(d) && CharsRegistered(d) && (st.w != [] ==> st.w in d)
  {
    if [c] !in st.dict {
      AddKeyKeepsCodes(st.dict, [c]);
    }
  }

  /** Registering w + c under the next code, when [c] and w are keys, keeps the keys in shape. */
  lemma RestartKeepsKeys(dict: map<Text, nat>, w: Text, c: CodeUnit)
    requires CodesDense(dict) && CharsRegistered(dict)
    requires (w != [] ==> w in dict) && [c] in dict && w + [c] !in dict
    ensures var d := dict[w + [c] := SizeOffset + |dict|];
      CodesDense(d) && CharsRegistered(d) && [c] in d
  {
    AddKeyKeepsCodes(dict, w + [c]);
    SnocChars(dict, w, c);
    AddKeyKeepsChars(dict, w + [c], SizeOffset + |dict|);
  }

  /** The same turn: only [c] can be pending afterwards, and it is still fresh. */
  lemma EmitKeepsPending(st: CState, c: CodeUnit)
    requires CompressorInv(st)
    requires st.w + [c] !in Register(st, c).dict
    ensures var st3 := Step(st, c);
      st3.toCreate <= {st3.w} && PendingFresh(st3)
  {
    RegisterKeepsShape(st, c);
    var st1 := Register(st, c);
    var wc := st.w + [c];
    if [c] in Step(st, c).toCreate {
      assert [c] !in st.toCreate;
      SingletonAppend(st.w, c);
      assert [st.w[0]] in st1.dict;
      assert wc[0] != c;
    }
  }

  /** The turn where w is emitted and w + c becomes a key. */
  lemma EmitKeepsInv(st: CState, c: CodeUnit)
    requires CompressorInv(st)
    requires st.w + [c] !in Register(st, c).dict
    ensures CompressorInv(Step(st, c))
  {
    EmitKeepsKeys(st, c);
    EmitKeepsPending(st, c);
  }

  lemma StepKeepsInv(st: CState, c: CodeUnit)
    requires CompressorInv(st)
    ensures CompressorInv(Step(st, c))
  {
    if st.w + [c] in Register(st, c).dict {
      ExtendKeepsInv(st, c);
    } else {
      EmitKeepsInv(st, c);
    }
  }

  /** The dictionary invariants hold after the loop has read any input. */
  lemma {:induction false} ScanKeepsInv(input: Text)
    ensures CompressorInv(Scan(input))
  {
    if input != [] {
      ScanKeepsInv(input[..|input| - 1]);
      StepKeepsInv(Scan(input[..|input| - 1]), input[|input| - 1]);
    }
  }

  /**
   * batchCompressionLoops is only reached with a non-empty w that is a
   * dictionary key, so the `|| 0` fallback never supplies the code; and a
   * pending entry is always a single character.
   */
  lemma EmittedPrefixIsKey(input: Text)
    requires input != []
    ensures var st := Scan(input);
      && st.w != [] && st.w in st.dict
      && forall k :: k in st.toCreate ==> |k| == 1 && k in st.dict
  {
    ScanKeepsInv(input);
    var st := Scan(input);
    ScanKeepsInv(input[..|input| - 1]);
  }

  /** The loop's values on one more character. */
  lemma ScanSnoc(input: Text, i: nat)
    requires i < |input|
    ensures Scan(input[..i + 1]) == Step(Scan(input[..i]), input[i])
  {
    assert input[..i + 1][..i] == input[..i];
  }

  /**
   * The writer's buffer on values: fewer than bitsPerChar bits are held in
   * `value`, `built` carries the complete units through charFunc, and the
   * stream written so far is those units followed by the held bits.
   */
  ghost predicate BufferOk(e: Encoding, w: nat, units: seq<nat>, value: nat, position: nat, built: Text, written: seq<bool>)
  {
    && position < w
    && value < Pow2(position)
    && UnitsFit(units, w)
    && built == Encode(e, units)
    && written == Unpack(units, w) + UnitBits(value, position)
  }

  /** Shifting a bit in at the bottom of a value of `position` bits. */
  lemma ShiftedValue(value: nat, position: nat, bit: bool)
    requires value < Pow2(position)
    ensures var v := value * 2 + (if bit then 1 else 0);
      v < Pow2(position + 1) && UnitBits(v, position + 1) == UnitBits(value, position) + [bit]
  {
  }

  /** A bit shifted into a buffer of `position` < w - 1 bits is appended to the stream. */
  lemma ShiftedStreamWithin(units: seq<nat>, value: nat, position: nat, w: nat, written: seq<bool>, bit: bool)
    requires value < Pow2(position)
    requires written == Unpack(units, w) + UnitBits(value, position)
    ensures var v := value * 2 + (if bit then 1 else 0);
      v < Pow2(position + 1) && written + [bit] == Unpack(units, w) + UnitBits(v, position + 1)
  {
    ShiftedValue(value, position, bit);
    AppendAssoc(Unpack(units, w), UnitBits(value, position), [bit]);
  }

  /** A bit that fills a buffer of w bits completes one more unit of the stream. */
  lemma ShiftedStreamLast(units: seq<nat>, value: nat, position: nat, w: nat, written: seq<bool>, bit: bool)
    requires value < Pow2(position) && position + 1 == w
    requires written == Unpack(units, w) + UnitBits(value, position)
    ensures var v := value * 2 + (if bit then 1 else 0);
      v < Pow2(w) && written + [bit] == Unpack(units + [v], w) + UnitBits(0, 0)
  {
    var v := value * 2 + (if bit then 1 else 0);
    ShiftedValue(value, position, bit);
    AppendAssoc(Unpack(units, w), UnitBits(value, position), [bit]);
    UnpackSnoc(units, v, w);
    AppendEmpty(Unpack(units + [v], w));
  }

  /** A bit shifted into a buffer that does not fill up is appended to the stream. */
  lemma ShiftWithin(e: Encoding, w: nat, units: seq<nat>, value: nat, position: nat, built: Text, written: seq<bool>, bit: bool)
    requires BufferOk(e, w, units, value, position, built, written)
    requires position < w - 1
    ensures BufferOk(e, w, units, value * 2 + (if bit then 1 else 0), position + 1, built, written + [bit])
  {
    ShiftedStreamWithin(units, value, position, w, written, bit);
  }

  /**
   * A bit that fills the buffer is appended to the stream too; the full
   * unit goes out as one character and the buffer starts empty.
   */
  lemma ShiftLast(e: Encoding, w: nat, units: seq<nat>, value: nat, position: nat, built: Text, written: seq<bool>, bit: bool)
    requires BufferOk(e, w, units, value, position, built, written)
    requires position == w - 1
    ensures var v := value * 2 + (if bit then 1 else 0);
      BufferOk(e, w, units + [v], 0, 0, built + [UnitChar(e, v)], written + [bit])
  {
    var v := value * 2 + (if bit then 1 else 0);
    ShiftedStreamLast(units, value, position, w, written, bit);
    UnitsFitSnoc(units, v, w);
    EncodeSnoc(e, units, v);
  }

  /** An empty buffer: the characters built are the packing of the stream. */
  lemma WholeUnits(e: Encoding, w: nat, units: seq<nat>, built: Text, written: seq<bool>)
    requires w > 0 && BufferOk(e, w, units, 0, 0, built, written)
    ensures UnitsFit(Pack(written, w), w)
    ensures built == Encode(e, Pack(written, w))
  {
    AppendEmpty(Unpack(units, w));
    UnitsFitIff(units, w);
    PackOfUnpack(units, w);
  }

  // ---------------------------------------------------------------------
  // The imperative compressor.

  /** The three ways loopCompressionCharBits shifts bits in ('none', 'raw', 'bitwise'). */
  datatype Mode = ModeNone | ModeRaw | ModeBitwise

  /**
   * The value whose low bits loopCompressionCharBits writes: 'none' writes
   * zeros whatever the value.
   */
  function Pending(mode: Mode, workingValue: nat): nat
  {
    if mode == ModeNone then 0 else workingValue
  }

  /** Writing k + 1 bits of p is writing its lowest bit, then k bits of p / 2. */
  lemma PeelBit(written: seq<bool>, p: nat, k: nat)
    ensures written + BitsLE(p, k + 1) == (written + [p % 2 == 1]) + BitsLE(p / 2, k)
  {
    AppendAssoc(written, [p % 2 == 1], BitsLE(p / 2, k));
  }

  /**
   * ICompressionTracker, together with the two dictionaries that
   * baseCompress passes alongside it to every helper.
   */
  class CompressionTracker {
    var crossLoopChars: Text
    var dataPosition: nat
    var builtString: Text
    var bitCount: nat
    var compressionIncrement: int
    var dataValue: nat
    var compressionDict: map<Text, nat>
    var compressionDictToCreate: set<Text>
    /** The unit values behind builtString, before charFunc turned them into characters. */
    ghost var units: seq<nat>
    /** Every bit written so far, in stream order. */
    ghost var written: seq<bool>

    /** The tracker's buffer fields satisfy BufferOk. */
    ghost predicate Valid(bitsPerChar: nat, e: Encoding)
      reads this`dataPosition, this`dataValue, this`units, this`builtString, this`written
    {
      BufferOk(e, bitsPerChar, units, dataValue, dataPosition, builtString, written)
    }

    /** The tracker and dictionaries as a CState. */
    ghost function View(): CState
      reads this
    {
      CState(compressionDict, compressionDictToCreate, crossLoopChars,
             Width(bitCount, compressionIncrement), written)
    }

    /** The trackers and empty dictionaries baseCompress starts from. */
    constructor ()
      ensures crossLoopChars == [] && dataPosition == 0 && builtString == []
      ensures bitCount == CompressorStart.bits && compressionIncrement == CompressorStart.increment
      ensures dataValue == 0 && compressionDict == map[] && compressionDictToCreate == {}
      ensures units == [] && written == []
    {
      crossLoopChars := [];
      dataPosition := 0;
      builtString := [];
      bitCount := 2;
      compressionIncrement := 2;
      dataValue := 0;
      compressionDict := map[];
      compressionDictToCreate := {};
      units := [];
      written := [];
    }

    /**
     * loopCompressionCharBits: shift `override` bits (bitCount bits when
     * override is 0, the TypeScript's absent argument) into the buffer: the
     * value least significant bit first in 'bitwise' mode, zeros in 'none'
     * mode, a one and then zeros in 'raw' mode. A unit leaves the buffer
     * exactly when it holds bitsPerChar bits.
     */
    method LoopCompressionCharBits(bitsPerChar: nat, e: Encoding, initialValue: nat, mode: Mode, override: nat)
      requires Valid(bitsPerChar, e)
      requires mode == ModeRaw ==> initialValue <= 1
      modifies this`dataValue, this`dataPosition, this`builtString, this`units, this`written
      ensures Valid(bitsPerChar, e)
      ensures written == old(written) + BitsLE(Pending(mode, initialValue), if override != 0 then override else bitCount)
    {
      var workingValue := initialValue;
      var count := if override != 0 then override else bitCount;
      ghost var target := old(written) + BitsLE(Pending(mode, initialValue), count);
      for i := 0 to count
        invariant Valid(bitsPerChar, e)
        invariant mode == ModeRaw ==> workingValue <= 1
        invariant target == written + BitsLE(Pending(mode, workingValue), count - i)
      {
        PeelBit(written, Pending(mode, workingValue), count - i - 1);
        var bit := match mode
          case ModeNone => false
          case ModeRaw => workingValue == 1
          case ModeBitwise => workingValue % 2 == 1;
        ShiftIn(bitsPerChar, e, bit);
        workingValue := match mode
          case ModeNone => workingValue
          case ModeRaw => 0
          case ModeBitwise => workingValue / 2;
      }
    }

    /**
     * The body shared by every shift: `dataValue = (dataValue << 1) | bit`,
     * then, when the buffer is full, one character out and an empty buffer.
     */
    method ShiftIn(bitsPerChar: nat, e: Encoding, bit: bool)
      requires Valid(bitsPerChar, e)
      modifies this`dataValue, this`dataPosition, this`builtString, this`units, this`written
      ensures Valid(bitsPerChar, e)
      ensures written == old(written) + [bit]
      ensures dataPosition == if old(dataPosition) == bitsPerChar - 1 then 0 else old(dataPosition) + 1
    {
      if dataPosition == bitsPerChar - 1 {
        ShiftInLast(bitsPerChar, e, bit);
      } else {
        ShiftInWithin(bitsPerChar, e, bit);
      }
    }

    /** A shift that fills the buffer: the unit goes out through charFunc. */
    method ShiftInLast(bitsPerChar: nat, e: Encoding, bit: bool)
      requires Valid(bitsPerChar, e) && dataPosition == bitsPerChar - 1
      modifies this`dataValue, this`dataPosition, this`builtString, this`units, this`written
      ensures Valid(bitsPerChar, e)
      ensures written == old(written) + [bit] && dataPosition == 0
    {
      var shifted := dataValue * 2 + (if bit then 1 else 0);
      ShiftLast(e, bitsPerChar, units, dataValue, dataPosition, builtString, written, bit);
      written, units, builtString, dataValue, dataPosition :=
        written + [bit], units + [shifted], builtString + [UnitChar(e, shifted)], 0, 0;
    }

    /** A shift that leaves room in the buffer. */
    method ShiftInWithin(bitsPerChar: nat, e: Encoding, bit: bool)
      requires Valid(bitsPerChar, e) && dataPosition < bitsPerChar - 1
      modifies this`dataValue, this`dataPosition, this`written
      ensures Valid(bitsPerChar, e)
      ensures written == old(written) + [bit] && dataPosition == old(dataPosition) + 1
    {
      ShiftWithin(e, bitsPerChar, units, dataValue, dataPosition, builtString, written, bit);
      written, dataValue, dataPosition := written + [bit], dataValue * 2 + (if bit then 1 else 0), dataPosition + 1;
    }

    /** updateCompressionBitcount: one step of the width schedule. */
    method UpdateCompressionBitcount()
      modifies this`bitCount, this`compressionIncrement
      ensures Width(bitCount, compressionIncrement) == NextWidth(old(Width(bitCount, compressionIncrement)))
    {
      compressionIncrement := compressionIncrement - 1;
      if compressionIncrement == 0 {
        compressionIncrement := Pow2(bitCount);
        bitCount := bitCount + 1;
      }
    }

    /**
     * The literal branch of batchCompressionLoops: marker 0 ('none' mode)
     * and 8 bits, or marker 1 ('raw' mode) and 16 bits.
     */
    method EmitLiteral(bitsPerChar: nat, e: Encoding)
      requires Valid(bitsPerChar, e) && crossLoopChars != []
      modifies this`dataValue, this`dataPosition, this`builtString, this`units, this`written
      ensures Valid(bitsPerChar, e)
      ensures written == old(written) + LiteralBits(crossLoopChars[0], bitCount)
    {
      var c := crossLoopChars[0];
      if c < 256 {
        LoopCompressionCharBits(bitsPerChar, e, 0, ModeNone, 0);
        LoopCompressionCharBits(bitsPerChar, e, c, ModeBitwise, 8);
        AppendAssoc(old(written), BitsLE(0, bitCount), BitsLE(c, 8));
      } else {
        LoopCompressionCharBits(bitsPerChar, e, 1, ModeRaw, 0);
        LoopCompressionCharBits(bitsPerChar, e, c, ModeBitwise, 16);
        AppendAssoc(old(written), BitsLE(1, bitCount), BitsLE(c, 16));
      }
    }

    /** batchCompressionLoops: emit crossLoopChars as EmitW says. */
    method BatchCompressionLoops(bitsPerChar: nat, e: Encoding)
      requires Valid(bitsPerChar, e) && crossLoopChars != []
      modifies this`dataValue, this`dataPosition, this`builtString, this`units, this`written
      modifies this`bitCount, this`compressionIncrement, this`compressionDictToCreate
      ensures Valid(bitsPerChar, e)
      ensures View() == EmitW(old(View()))
    {
      if crossLoopChars in compressionDictToCreate {
        EmitLiteral(bitsPerChar, e);
        UpdateCompressionBitcount();
        compressionDictToCreate := compressionDictToCreate - {crossLoopChars};
      } else {
        var code := if crossLoopChars in compressionDict then compressionDict[crossLoopChars] else 0;
        LoopCompressionCharBits(bitsPerChar, e, code, ModeBitwise, 0);
      }
      UpdateCompressionBitcount();
    }

    /** The first step of a turn: a character not yet in the dictionary gets the next code. */
    method RegisterChar(loopChar: CodeUnit)
      modifies this`compressionDict, this`compressionDictToCreate
      ensures View() == Register(old(View()), loopChar)
    {
      if [loopChar] !in compressionDict {
        compressionDict := compressionDict[[loopChar] := SizeOffset + |compressionDict|];
        compressionDictToCreate := compressionDictToCreate + {[loopChar]};
      }
    }

    /**
     * One turn of baseCompress's loop over the input: register a new
     * character, then extend crossLoopChars or emit it and register the
     * merged prefix.
     */
    method CompressChar(bitsPerChar: nat, e: Encoding, loopChar: CodeUnit)
      requires Valid(bitsPerChar, e)
      modifies this
      ensures Valid(bitsPerChar, e)
      ensures View() == Step(old(View()), loopChar)
    {
      RegisterChar(loopChar);
      var mergedLoopChars := crossLoopChars + [loopChar];
      if mergedLoopChars in compressionDict {
        crossLoopChars := mergedLoopChars;
      } else {
        EmitAndRestart(bitsPerChar, e, loopChar);
      }
    }

    /** The second branch of a turn: emit crossLoopChars, register the merged prefix, restart. */
    method EmitAndRestart(bitsPerChar: nat, e: Encoding, loopChar: CodeUnit)
      requires Valid(bitsPerChar, e)
      requires [loopChar] in compressionDict && crossLoopChars + [loopChar] !in compressionDict
      modifies this`dataValue, this`dataPosition, this`builtString, this`units, this`written
      modifies this`bitCount, this`compressionIncrement, this`compressionDictToCreate
      modifies this`compressionDict, this`crossLoopChars
      ensures Valid(bitsPerChar, e)
      ensures View() == Restart(old(View()), loopChar)
    {
      var mergedLoopChars := crossLoopChars + [loopChar];
      SingletonAppend(crossLoopChars, loopChar);
      BatchCompressionLoops(bitsPerChar, e);
      compressionDict := compressionDict[mergedLoopChars := SizeOffset + |compressionDict|];
      crossLoopChars := [loopChar];
    }

    /**
     * What baseCompress does after its loop: emit a remaining prefix, write
     * the end marker at the current width and flush the last unit.
     */
    method FinishStream(bitsPerChar: nat, e: Encoding)
      requires Valid(bitsPerChar, e)
      modifies this`dataValue, this`dataPosition, this`builtString, this`units, this`written
      modifies this`bitCount, this`compressionIncrement, this`compressionDictToCreate
      ensures Valid(bitsPerChar, e) && dataPosition == 0
      ensures written == Flush(Finish(old(View())), bitsPerChar)
    {
      if crossLoopChars != [] {
        BatchCompressionLoops(bitsPerChar, e);
      }
      LoopCompressionCharBits(bitsPerChar, e, EndMarker, ModeBitwise, 0);
      assert written == Finish(old(View()));
      FlushLastUnit(bitsPerChar, e);
    }

    /**
     * The end of baseCompress: shift zero bits in until the unit under
     * construction has gone out.
     */
    method FlushLastUnit(bitsPerChar: nat, e: Encoding)
      requires Valid(bitsPerChar, e)
      modifies this`dataValue, this`dataPosition, this`builtString, this`units, this`written
      ensures Valid(bitsPerChar, e) && dataPosition == 0
      ensures written == Flush(old(written), bitsPerChar)
    {
      ghost var p0 := dataPosition;
      UnpackLength(units, bitsPerChar);
      FlushFrom(written, bitsPerChar, |units|, p0);
      ghost var k: nat := 0;
      while true
        invariant Valid(bitsPerChar, e)
        invariant dataPosition == p0 + k
        invariant written == old(written) + Zeros(k)
        decreases bitsPerChar - dataPosition
      {
        var last := dataPosition == bitsPerChar - 1;
        ZerosSnoc(k);
        ShiftIn(bitsPerChar, e, false);
        k := k + 1;
        if last {
          break;
        }
      }
    }
  }

  /**
   * baseCompress: the compression loop, the last prefix, the end marker at
   * the current width and the zero-padded last unit, each unit written
   * through the encoding's charFunc.
   */
  method BaseCompress(input: Text, e: Encoding) returns (r: Text)
    ensures r == CompressSpec(input, e)
  {
    if |input| == 0 {
      return [];
    }
    var bpc := BitsPerChar(e);
    var t := new CompressionTracker();
    for i := 0 to |input|
      invariant t.Valid(bpc, e)
      invariant t.View() == Scan(input[..i])
    {
      ScanSnoc(input, i);
      t.CompressChar(bpc, e, input[i]);
    }
    assert input[..|input|] == input;
    t.FinishStream(bpc, e);
    WholeUnits(e, bpc, t.units, t.builtString, t.written);
    r := t.builtString;
  }
}
