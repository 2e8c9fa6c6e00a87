/**
 * The decompressor (baseDecompress, loopDecompressionBits and
 * buildNumStrDictMap in src/index.ts).
 *
 * The reader takes bits out of the input one character at a time, most
 * significant bit first, and assembles them into values least significant
 * bit first. On values, the reader is a position in that bit stream:
 * StreamBit is the bit at a position, ReadValue the value of the next n
 * bits. DecodeStep is one turn of baseDecompress's loop and DecodeLoop the
 * whole loop; DecompressSpec is baseDecompress.
 *
 * DecompressionTracker holds the reader fields the TypeScript mutates in
 * place; LoopDecompressionBits and BaseDecompress are proved to do exactly
 * what the value-level functions say.
 */
module Decompressor {
  import opened Common
  import opened Schedule
  import opened Alphabets

  // ---------------------------------------------------------------------
  // i.toString() and buildNumStrDictMap.

  /** The decimal digit d as a character. */
  function Digit(d: nat): CodeUnit
    requires d < 10
  {
    '0' as int + d
  }

  /** i.toString() for a natural number: its decimal digits, most significant first. */
  function DecimalString(n: nat): (r: Text)
    ensures r != []
  {
    if n < 10 then [Digit(n)] else DecimalString(n / 10) + [Digit(n % 10)]
  }

  /** The number a string of decimal digits denotes. */
  function DecimalValue(s: Text): int
  {
    if s == [] then 0 else 10 * DecimalValue(s[..|s| - 1]) + (s[|s| - 1] - '0' as int)
  }

  /**
   * toString's digits read back to the number, they are all decimal digits,
   * and only 0 itself starts with the digit 0.
   */
  lemma {:induction false} DecimalRoundTrip(n: nat)
    ensures DecimalValue(DecimalString(n)) == n
    ensures forall i :: 0 <= i < |DecimalString(n)| ==> '0' as int <= DecimalString(n)[i] <= '9' as int
    ensures DecimalString(n)[0] == '0' as int <==> n == 0
  {
    var s := DecimalString(n);
    if n >= 10 {
      DecimalRoundTrip(n / 10);
      var init := DecimalString(n / 10);
      assert s[..|s| - 1] == init;
      assert s[0] == init[0];
    }
  }

  /** buildNumStrDictMap(base) as a value: each i below base mapped to its decimal string. */
  function NumStrDict(base: nat): map<nat, Text>
  {
    map i | 0 <= i < base :: DecimalString(i)
  }

  /** buildNumStrDictMap: the loop that fills the map one number at a time. */
  method BuildNumStrDictMap(base: nat) returns (dict: map<nat, Text>)
    ensures dict == NumStrDict(base)
    ensures forall k :: k in dict <==> 0 <= k < base
  {
    dict := map[];
    for i := 0 to base
      invariant dict == NumStrDict(i)
    {
      dict := dict[i := DecimalString(i)];
    }
  }

  // ---------------------------------------------------------------------
  // The reader on values.

  /**
   * The bit at position c of the input stream: bit (bpc - 1 - c % bpc) of
   * the value charCodeFunc gives for character c / bpc. A character past
   * the end gives 0, as NaN and undefined do under `&`.
   */
  predicate StreamBit(e: Encoding, s: Text, bpc: nat, c: nat)
    requires bpc > 0
  {
    Bit(CodeAt(e, s, c / bpc), bpc - 1 - c % bpc)
  }

  /** loopDecompressionBits on values: the n bits from position c, the first one least significant. */
  function ReadValue(e: Encoding, s: Text, bpc: nat, c: nat, n: nat): (r: nat)
    requires bpc > 0
    ensures r < Pow2(n)
  {
    if n == 0 then 0 else ReadValue(e, s, bpc, c, n - 1) + (if StreamBit(e, s, bpc, c + n - 1) then Pow2(n - 1) else 0)
  }

  /** String.fromCharCode: the number taken modulo 2^16. */
  function FromCharCode(n: int): CodeUnit
  {
    n % 0x1_0000
  }

  /** value.charAt(0) as a string: the first character, or '' for ''. */
  function FirstChar(t: Text): (r: Text)
    ensures |r| <= 1 && r <= t
  {
    if t == [] then [] else [t[0]]
  }

  // ---------------------------------------------------------------------
  // The decompression loop on values.

  datatype Option<T> = None | Some(value: T)

  /**
   * What baseDecompress keeps between turns: decompressionDict, the code
   * width (numBits, decompressionIncrement), the previous entry wtf, the
   * result so far, and the reader's position in the input stream.
   */
  datatype DState = DState(dict: map<nat, Text>, width: Width, w: Text, result: Text, pos: nat)

  /** Where a turn leaves the loop: on to the next turn, or out with a return value. */
  datatype Turn = Continue(next: DState) | Stop(out: Text)

  /** What a turn reads before the lookup: the end marker, or a code to look up. */
  datatype Code = EndOfStream | Entry(dict: map<nat, Text>, key: nat, width: Width, pos: nat)

  /**
   * The first half of a turn: read a code at the current width; codes 0
   * and 1 bring a literal (LiteralEntry), which counts once against the
   * width; code 2 is the end marker; any other code is looked up as it is.
   * The width then grows if its counter has run out.
   */
  function ReadCode(e: Encoding, s: Text, bpc: nat, dict: map<nat, Text>, width: Width, pos: nat): (r: Code)
    requires bpc > 0
    ensures r.Entry? ==> r.pos >= pos + width.bits && r.width.bits >= width.bits
  {
    var code := ReadValue(e, s, bpc, pos, width.bits);
    if code == 2 then EndOfStream else CodeEntry(e, s, bpc, dict, width, pos + width.bits, code)
  }

  /** A code other than the end marker, with its literal if it has one, and the width after it. */
  function CodeEntry(e: Encoding, s: Text, bpc: nat, dict: map<nat, Text>, width: Width, pos: nat, code: nat): (r: Code)
    requires bpc > 0
    ensures r.Entry? && r.pos >= pos && r.width.bits >= width.bits
  {
    var entry := if code < 2 then LiteralEntry(e, s, bpc, dict, width, pos, code) else Entry(dict, code, width, pos);
    entry.(width := Widen(entry.width))
  }

  /** The character a literal marker brings: 8 bits after code 0, 16 after code 1. */
  function LiteralChar(e: Encoding, s: Text, bpc: nat, pos: nat, code: nat): CodeUnit
    requires bpc > 0
  {
    FromCharCode(ReadValue(e, s, bpc, pos, if code == 0 then 8 else 16))
  }

  /**
   * Codes 0 and 1: the 8- or 16-bit character that follows becomes the
   * next entry, and the code to look up is that entry's.
   */
  function LiteralEntry(e: Encoding, s: Text, bpc: nat, dict: map<nat, Text>, width: Width, pos: nat, code: nat): (r: Code)
    requires bpc > 0
    ensures r.Entry? && r.pos >= pos && r.width.bits == width.bits
  {
    var n := if code == 0 then 8 else 16;
    var dict1 := dict[|dict| := [LiteralChar(e, s, bpc, pos, code)]];
    assert |dict| in dict1;
    Entry(dict1, |dict1| - 1, Decrement(width), pos + n)
  }

  /**
   * The entry for a code: the dictionary's entry, or for the code about to
   * be assigned the previous entry followed by its own first character, or
   * nothing for a code beyond that.
   */
  function Lookup(dict: map<nat, Text>, key: nat, w: Text): Option<Text>
  {
    if key in dict then Some(dict[key])
    else if key == |dict| then Some(w + FirstChar(w))
    else None
  }

  /**
   * The second half of a turn: look the code up, append its entry to the
   * result, add the previous entry followed by the entry's first character
   * under the next code, and take one step of the width schedule.
   */
  function Emit(st: DState, dict: map<nat, Text>, key: nat, width: Width, pos: nat): (r: Turn)
    ensures r.Stop? ==> r.out == []
    ensures r.Continue? ==> st.result <= r.next.result
  {
    match Lookup(dict, key, st.w)
    case None => Stop([])
    case Some(value) =>
      Continue(DState(dict[|dict| := st.w + FirstChar(value)], NextWidth(width), value, st.result + value, pos))
  }

  /**
   * One turn of baseDecompress's loop: give up ('') once the reader's index
   * has passed the end of the input, return the result at the end marker,
   * otherwise look the code up.
   */
  function DecodeStep(e: Encoding, s: Text, bpc: nat, st: DState): (r: Turn)
    requires bpc > 0
    ensures r.Continue? ==> r.next.pos >= st.pos + st.width.bits && r.next.width.bits >= st.width.bits
    ensures st.pos / bpc + 1 > |s| ==> r == Stop([])
    ensures st.pos / bpc + 1 <= |s| && ReadValue(e, s, bpc, st.pos, st.width.bits) == 2 ==> r == Stop(st.result)
    ensures r.Stop? ==> r.out == [] || r.out == st.result
    ensures r.Continue? ==> st.result <= r.next.result
  {
    if st.pos / bpc + 1 > |s| then Stop([])
    else
      match ReadCode(e, s, bpc, st.dict, st.width, st.pos)
      case EndOfStream => Stop(st.result)
      case Entry(dict, key, width, pos) => Emit(st, dict, key, width, pos)
  }

  /** The decompression loop, from a state to the string it returns. */
  function DecodeLoop(e: Encoding, s: Text, bpc: nat, st: DState): Text
    requires bpc > 0 && st.width.bits > 0
    decreases |s| * bpc - st.pos
  {
    match DecodeStep(e, s, bpc, st)
    case Stop(out) => out
    case Continue(next) =>
      DivAtLeast(st.pos, |s|, bpc);
      DecodeLoop(e, s, bpc, next)
  }

  /**
   * What baseDecompress does before its loop: two bits select an 8- or
   * 16-bit first character (anything else gives ''), which becomes entry 3,
   * the previous entry and the result so far.
   */
  function Begin(e: Encoding, s: Text, bpc: nat): (r: Turn)
    requires bpc > 0
    ensures r.Stop? <==> ReadValue(e, s, bpc, 0, 2) > 1
    ensures r.Stop? ==> r.out == []
    ensures r.Continue? ==> r.next.width == DecompressorStart
    ensures r.Continue? ==> |r.next.result| == 1 && r.next.w == r.next.result
    ensures r.Continue? ==> r.next.pos == if ReadValue(e, s, bpc, 0, 2) == 0 then 10 else 18
  {
    var topBits := ReadValue(e, s, bpc, 0, 2);
    if topBits != 0 && topBits != 1 then Stop([])
    else
      var n := if topBits == 0 then 8 else 16;
      var c := FromCharCode(ReadValue(e, s, bpc, 2, n));
      Continue(DState(NumStrDict(3)[3 := [c]], DecompressorStart, [c], [c], 2 + n))
  }

  /** baseDecompress on values. */
  function DecompressSpec(s: Text, e: Encoding): (r: Text)
  {
    if |s| == 0 then []
    else
      match Begin(e, s, BitsPerChar(e))
      case Stop(out) => out
      case Continue(st) => DecodeLoop(e, s, BitsPerChar(e), st)
  }

  // ---------------------------------------------------------------------
  // What the decompression loop keeps true.

  /** buildNumStrDictMap(base) has exactly `base` entries. */
  lemma {:induction false} NumStrDictSize(base: nat)
    ensures |NumStrDict(base)| == base
  {
    if base > 0 {
      NumStrDictSize(base - 1);
      assert NumStrDict(base) == NumStrDict(base - 1)[base - 1 := DecimalString(base - 1)];
    }
  }

  /** The keys of a dictionary are exactly 0, 1, ..., size - 1. */
  ghost predicate KeysDense(dict: map<nat, Text>)
  {
    forall k :: k in dict <==> 0 <= k < |dict|
  }

  /** Setting the entry at `size` keeps the keys dense and adds one entry. */
  lemma AddNextKey(dict: map<nat, Text>, v: Text)
    requires KeysDense(dict)
    ensures KeysDense(dict[|dict| := v]) && |dict[|dict| := v]| == |dict| + 1
  {
  }

  /**
   * The dictionary and the width between turns: the keys are dense and
   * include 0..3, no entry is empty (so `|| ''` never supplies the value),
   * and the width counter is positive.
   */
  ghost predicate TableOk(dict: map<nat, Text>, width: Width)
  {
    && KeysDense(dict)
    && |dict| >= 4
    && (forall k :: k in dict ==> dict[k] != [])
    && width.bits >= 3 && width.increment >= 1
  }

  /**
   * Between turns the dictionary and width are in shape, and the previous
   * entry is not empty, so charAt(0) always finds a character.
   */
  ghost predicate DecoderInv(st: DState)
  {
    TableOk(st.dict, st.width) && st.w != []
  }

  /** The state before the loop keeps the invariant. */
  lemma BeginInv(e: Encoding, s: Text, bpc: nat)
    requires bpc > 0
    ensures Begin(e, s, bpc).Continue? ==> DecoderInv(Begin(e, s, bpc).next)
  {
    NumStrDictSize(3);
    if Begin(e, s, bpc).Continue? {
      var st := Begin(e, s, bpc).next;
      assert st.dict == NumStrDict(3)[|NumStrDict(3)| := st.w];
      AddNextKey(NumStrDict(3), st.w);
    }
  }

  /**
   * The self-reference case included: whatever code was read, the value
   * decoded is the entry the dictionary holds under that code once the
   * turn is over, and the result grows by it. For the code not yet
   * assigned, that value is the previous entry followed by its own first
   * character.
   */
  lemma EmitRecordsValue(st: DState, dict: map<nat, Text>, key: nat, width: Width, pos: nat)
    requires KeysDense(dict) && st.w != []
    ensures var r := Emit(st, dict, key, width, pos);
      r.Continue? ==>
        && key in r.next.dict && r.next.dict[key] == r.next.w
        && r.next.result == st.result + r.next.w
        && (key !in dict ==> key == |dict| && r.next.w == st.w + [st.w[0]])
  {
  }

  /** A turn keeps the invariant. */
  lemma StepKeepsInv(e: Encoding, s: Text, bpc: nat, st: DState)
    requires bpc > 0 && DecoderInv(st)
    ensures DecodeStep(e, s, bpc, st).Continue? ==> DecoderInv(DecodeStep(e, s, bpc, st).next)
  {
    if st.pos / bpc + 1 <= |s| {
      var c := ReadCode(e, s, bpc, st.dict, st.width, st.pos);
      ReadCodeKeepsTable(e, s, bpc, st.dict, st.width, st.pos);
      if c.Entry? {
        EmitKeepsInv(st, c.dict, c.key, c.width, c.pos);
      }
    }
  }

  /**
   * What a continuing turn does to the dictionary: every entry stays, a
   * literal (codes 0 and 1) adds its character under the next key, and
   * then wtf followed by the first character of the entry just looked up
   * is added under the key after that.
   */
  lemma StepGrowsDict(e: Encoding, s: Text, bpc: nat, st: DState)
    requires bpc > 0 && DecoderInv(st)
    ensures var r := DecodeStep(e, s, bpc, st);
      var code := ReadValue(e, s, bpc, st.pos, st.width.bits);
      var k := |st.dict| + (if code < 2 then 1 else 0);
      r.Continue? ==>
        && |r.next.dict| == k + 1
        && (forall j :: j in st.dict ==> j in r.next.dict && r.next.dict[j] == st.dict[j])
        && k in r.next.dict && r.next.dict[k] == st.w + FirstChar(r.next.w)
        && (code < 2 ==> |st.dict| in r.next.dict && r.next.dict[|st.dict|] == r.next.w)
        && (code < 2 ==> r.next.w == [LiteralChar(e, s, bpc, st.pos + st.width.bits, code)])
  {
    if st.pos / bpc + 1 <= |s| {
      var c := ReadCode(e, s, bpc, st.dict, st.width, st.pos);
      ReadCodeGrowsDict(e, s, bpc, st.dict, st.width, st.pos);
      if c.Entry? {
        EmitGrowsDict(st, c.dict, c.key, c.width, c.pos);
      }
    }
  }

  /** Reading a code keeps every entry and adds a literal's character under the next key. */
  lemma ReadCodeGrowsDict(e: Encoding, s: Text, bpc: nat, dict: map<nat, Text>, width: Width, pos: nat)
    requires bpc > 0 && KeysDense(dict)
    ensures var c := ReadCode(e, s, bpc, dict, width, pos);
      var code := ReadValue(e, s, bpc, pos, width.bits);
      c.Entry? ==>
        && KeysDense(c.dict)
        && |c.dict| == |dict| + (if code < 2 then 1 else 0)
        && (forall j :: j in dict ==> j in c.dict && c.dict[j] == dict[j])
        && (code < 2 ==> c.key == |dict| && c.key in c.dict)
        && (code < 2 ==> c.dict[|dict|] == [LiteralChar(e, s, bpc, pos + width.bits, code)])
  {
    var code := ReadValue(e, s, bpc, pos, width.bits);
    if code != 2 {
      CodeEntryGrowsDict(e, s, bpc, dict, width, pos + width.bits, code);
    }
  }

  /** Recording an entry keeps every entry and adds wtf and the entry's first character under the next key. */
  lemma EmitGrowsDict(st: DState, dict: map<nat, Text>, key: nat, width: Width, pos: nat)
    requires KeysDense(dict)
    ensures var r := Emit(st, dict, key, width, pos);
      r.Continue? ==>
        && |r.next.dict| == |dict| + 1
        && (forall j :: j in dict ==> j in r.next.dict && r.next.dict[j] == dict[j])
        && |dict| in r.next.dict && r.next.dict[|dict|] == st.w + FirstChar(r.next.w)
        && (key in dict ==> r.next.w == dict[key])
  {
    assert |dict| !in dict;
  }

  /** The entry for a code keeps every entry and adds a literal's character under the next key. */
  lemma CodeEntryGrowsDict(e: Encoding, s: Text, bpc: nat, dict: map<nat, Text>, width: Width, pos: nat, code: nat)
    requires bpc > 0 && KeysDense(dict)
    ensures var c := CodeEntry(e, s, bpc, dict, width, pos, code);
      && KeysDense(c.dict)
      && |c.dict| == |dict| + (if code < 2 then 1 else 0)
      && (forall j :: j in dict ==> j in c.dict && c.dict[j] == dict[j])
      && (code < 2 ==> c.key == |dict| && c.key in c.dict)
      && (code < 2 ==> c.dict[|dict|] == [LiteralChar(e, s, bpc, pos, code)])
  {
    if code < 2 {
      var lit := LiteralEntry(e, s, bpc, dict, width, pos, code);
      AddNextKey(dict, lit.dict[|dict|]);
      assert lit.dict == dict[|dict| := lit.dict[|dict|]];
    }
  }

  /** Reading a code keeps the dictionary and the width in shape. */
  lemma ReadCodeKeepsTable(e: Encoding, s: Text, bpc: nat, dict: map<nat, Text>, width: Width, pos: nat)
    requires bpc > 0 && TableOk(dict, width)
    ensures var c := ReadCode(e, s, bpc, dict, width, pos); c.Entry? ==> TableOk(c.dict, c.width)
  {
    var code := ReadValue(e, s, bpc, pos, width.bits);
    if code != 2 {
      CodeEntryKeepsKeys(e, s, bpc, dict, width, pos + width.bits, code);
    }
  }

  /** The first half of a turn keeps the dictionary and the width in shape. */
  lemma CodeEntryKeepsKeys(e: Encoding, s: Text, bpc: nat, dict: map<nat, Text>, width: Width, pos: nat, code: nat)
    requires bpc > 0 && TableOk(dict, width)
    ensures var entry := CodeEntry(e, s, bpc, dict, width, pos, code); TableOk(entry.dict, entry.width)
  {
    if code < 2 {
      var lit := LiteralEntry(e, s, bpc, dict, width, pos, code);
      AddNextKey(dict, lit.dict[|dict|]);
      assert lit.dict == dict[|dict| := lit.dict[|dict|]];
    }
  }

  /** The second half of a turn keeps the invariant. */
  lemma EmitKeepsInv(st: DState, dict: map<nat, Text>, key: nat, width: Width, pos: nat)
    requires st.w != [] && TableOk(dict, width)
    ensures Emit(st, dict, key, width, pos).Continue? ==> DecoderInv(Emit(st, dict, key, width, pos).next)
  {
    var r := Emit(st, dict, key, width, pos);
    if r.Continue? {
      AddNextKey(dict, r.next.dict[|dict|]);
      assert r.next.dict == dict[|dict| := r.next.dict[|dict|]];
    }
  }

  /** The loop returns '' or the result so far followed by what it decodes. */
  lemma {:induction false} DecodeLoopResult(e: Encoding, s: Text, bpc: nat, st: DState)
    requires bpc > 0 && st.width.bits > 0
    ensures var r := DecodeLoop(e, s, bpc, st); r == [] || st.result <= r
    decreases |s| * bpc - st.pos
  {
    var t := DecodeStep(e, s, bpc, st);
    if t.Continue? {
      DivAtLeast(st.pos, |s|, bpc);
      DecodeLoopResult(e, s, bpc, t.next);
    }
  }

  /**
   * Under the invariant no dictionary entry is '', so `|| ''` never
   * supplies the value, and neither does the self-reference case.
   */
  lemma LookupNonEmpty(st: DState, key: nat)
    requires DecoderInv(st)
    ensures Lookup(st.dict, key, st.w).Some? ==> Lookup(st.dict, key, st.w).value != []
    ensures key in st.dict ==> Lookup(st.dict, key, st.w) == Some(st.dict[key])
  {
  }

  /**
   * Once the reader's index has passed the end of the input, the loop
   * gives up and returns '', whatever it has decoded so far.
   */
  lemma PastEndGivesEmpty(e: Encoding, s: Text, bpc: nat, st: DState)
    requires bpc > 0 && st.width.bits > 0
    requires st.pos / bpc + 1 > |s|
    ensures DecodeLoop(e, s, bpc, st) == []
  {
  }

  /**
   * baseDecompress's outcomes: '' for the empty input and for top bits
   * other than 0 and 1; otherwise '' or a string that starts with the
   * first character.
   */
  lemma DecompressResult(s: Text, e: Encoding)
    ensures s == [] ==> DecompressSpec(s, e) == []
    ensures s != [] && Begin(e, s, BitsPerChar(e)).Stop? ==> DecompressSpec(s, e) == []
    ensures s != [] && ReadValue(e, s, BitsPerChar(e), 0, 2) > 1 ==> DecompressSpec(s, e) == []
    ensures s != [] && Begin(e, s, BitsPerChar(e)).Continue? ==>
      var r := DecompressSpec(s, e);
      r == [] || Begin(e, s, BitsPerChar(e)).next.result <= r
  {
    if s != [] && Begin(e, s, BitsPerChar(e)).Continue? {
      DecodeLoopResult(e, s, BitsPerChar(e), Begin(e, s, BitsPerChar(e)).next);
    }
  }

  // ---------------------------------------------------------------------
  // The imperative reader.

  /** Below a power of two, every smaller power differs from it. */
  lemma Pow2Below(k: nat, n: nat)
    requires k < n
    ensures Pow2(k) < Pow2(n)
  {
    Pow2Monotone(k + 1, n);
  }

  /** IDecompressionTracker: the character being read, the mask of its next bit, the next index. */
  class DecompressionTracker {
    var currCompressedChar: int
    var position: nat
    var index: nat
    /** The number of bits read so far. */
    ghost var consumed: nat

    /**
     * The reader is `consumed` bits into the stream: it holds the value of
     * character consumed / bpc, its mask selects the next bit of that
     * character, and index is the character after it.
     */
    ghost predicate Valid(e: Encoding, s: Text, bpc: nat, resetValue: nat)
      reads this
    {
      && bpc > 0
      && resetValue == Pow2(bpc - 1)
      && index == consumed / bpc + 1
      && position == Pow2(bpc - 1 - consumed % bpc)
      && currCompressedChar == CodeAt(e, s, consumed / bpc)
    }

    /** The tracker baseDecompress starts with: character 0, its top bit, index 1. */
    constructor(e: Encoding, s: Text, ghost bpc: nat, resetValue: nat)
      requires bpc > 0 && resetValue == Pow2(bpc - 1)
      ensures Valid(e, s, bpc, resetValue) && consumed == 0
    {
      currCompressedChar := CodeAt(e, s, 0);
      position := resetValue;
      index := 1;
      consumed := 0;
    }

    /**
     * One turn of loopDecompressionBits's loop, without the accumulation:
     * test the masked bit, move the mask down, and at the end of a
     * character load the next one.
     */
    method ReadBit(e: Encoding, s: Text, ghost bpc: nat, resetValue: nat) returns (bit: bool)
      requires Valid(e, s, bpc, resetValue)
      modifies this
      ensures Valid(e, s, bpc, resetValue) && consumed == old(consumed) + 1
      ensures bit == StreamBit(e, s, bpc, old(consumed))
    {
      // (currCompressedChar & position) > 0, for the power of two position
      bit := (currCompressedChar / position) % 2 == 1;
      DivModSucc(consumed, bpc);
      position := position / 2;
      if position == 0 {
        position := resetValue;
        currCompressedChar := CodeAt(e, s, index);
        index := index + 1;
      }
      consumed := consumed + 1;
    }

    /**
     * loopDecompressionBits: read `exponent` bits, the first one least
     * significant. The accumulator stays below the power, so its `|` adds.
     */
    method LoopDecompressionBits(e: Encoding, s: Text, ghost bpc: nat, resetValue: nat, exponent: nat)
      returns (bits: nat)
      requires Valid(e, s, bpc, resetValue)
      modifies this
      ensures Valid(e, s, bpc, resetValue) && consumed == old(consumed) + exponent
      ensures bits == ReadValue(e, s, bpc, old(consumed), exponent)
    {
      bits := 0;
      var maxpower := Pow2(exponent);
      var power := 1;
      ghost var k := 0;
      while power != maxpower
        invariant Valid(e, s, bpc, resetValue)
        invariant k <= exponent && power == Pow2(k)
        invariant consumed == old(consumed) + k
        invariant bits == ReadValue(e, s, bpc, old(consumed), k)
        decreases exponent - k
      {
        var bitMatch := ReadBit(e, s, bpc, resetValue);
        bits := bits + (if bitMatch then power else 0);
        power := power * 2;
        k := k + 1;
      }
      if k < exponent {
        Pow2Below(k, exponent);
      }
    }
  }

  // ---------------------------------------------------------------------
  // The imperative decompressor.

  /**
   * The first half of a turn of baseDecompress's loop: read the code, and
   * for codes 0 and 1 the literal, which becomes the next entry.
   */
  method ReadEntryCode(tracker: DecompressionTracker, e: Encoding, input: Text, ghost bpc: nat, resetValue: nat,
                       dict: map<nat, Text>, numBits: nat, increment: int)
    returns (end: bool, dict1: map<nat, Text>, key: nat, numBits1: nat, increment1: int)
    requires tracker.Valid(e, input, bpc, resetValue)
    modifies tracker
    ensures tracker.Valid(e, input, bpc, resetValue)
    ensures end ==> ReadCode(e, input, bpc, dict, Width(numBits, increment), old(tracker.consumed)) == EndOfStream
    ensures !end ==>
      ReadCode(e, input, bpc, dict, Width(numBits, increment), old(tracker.consumed)) == Entry(dict1, key, Width(numBits1, increment1), tracker.consumed)
  {
    var loopBits := tracker.LoopDecompressionBits(e, input, bpc, resetValue, numBits);
    if loopBits == 2 {
      return true, dict, 0, numBits, increment;
    }
    end := false;
    dict1, key, numBits1, increment1 := ResolveCode(tracker, e, input, bpc, resetValue, dict, numBits, increment, loopBits);
  }

  /**
   * The rest of the first half of a turn, for a code other than the end
   * marker: the literal of codes 0 and 1, then the width check.
   */
  method ResolveCode(tracker: DecompressionTracker, e: Encoding, input: Text, ghost bpc: nat, resetValue: nat,
                     dict: map<nat, Text>, numBits: nat, increment: int, loopBits: nat)
    returns (dict1: map<nat, Text>, key: nat, numBits1: nat, increment1: int)
    requires tracker.Valid(e, input, bpc, resetValue)
    modifies tracker
    ensures tracker.Valid(e, input, bpc, resetValue)
    ensures CodeEntry(e, input, bpc, dict, Width(numBits, increment), old(tracker.consumed), loopBits)
      == Entry(dict1, key, Width(numBits1, increment1), tracker.consumed)
  {
    dict1, key, increment1 := dict, loopBits, increment;
    if loopBits == 0 || loopBits == 1 {
      dict1, key, increment1 := ReadLiteral(tracker, e, input, bpc, resetValue, dict, numBits, increment, loopBits);
    }
    numBits1, increment1 := WidenIfDue(numBits, increment1);
  }

  /** `if (decompressionIncrement === 0) { decompressionIncrement = Math.pow(2, numBits); numBits++; }` */
  method WidenIfDue(numBits: nat, increment: int) returns (numBits1: nat, increment1: int)
    ensures Width(numBits1, increment1) == Widen(Width(numBits, increment))
  {
    numBits1, increment1 := numBits, increment;
    if increment == 0 {
      increment1 := Pow2(numBits);
      numBits1 := numBits + 1;
    }
  }

  /** Codes 0 and 1 in baseDecompress's switch: the literal becomes the next entry. */
  method ReadLiteral(tracker: DecompressionTracker, e: Encoding, input: Text, ghost bpc: nat, resetValue: nat,
                     dict: map<nat, Text>, numBits: nat, increment: int, loopBits: nat)
    returns (dict1: map<nat, Text>, key: nat, increment1: int)
    requires tracker.Valid(e, input, bpc, resetValue) && loopBits < 2
    modifies tracker
    ensures tracker.Valid(e, input, bpc, resetValue)
    ensures LiteralEntry(e, input, bpc, dict, Width(numBits, increment), old(tracker.consumed), loopBits)
      == Entry(dict1, key, Width(numBits, increment1), tracker.consumed)
  {
    var charBits := if loopBits == 0 then 8 else 16;
    var charCode := tracker.LoopDecompressionBits(e, input, bpc, resetValue, charBits);
    dict1 := dict[|dict| := [FromCharCode(charCode)]];
    assert |dict| in dict1;
    key := |dict1| - 1;
    increment1 := increment - 1;
  }

  /**
   * The second half of a turn of baseDecompress's loop: look the code up
   * (the code about to be assigned stands for the previous entry followed
   * by its own first character), append the entry to the result, record
   * the previous entry followed by the entry's first character, and count
   * once against the width.
   */
  method RecordEntry(dict: map<nat, Text>, key: nat, numBits: nat, increment: int, wtf: Text, result: Text, ghost pos: nat)
    returns (ok: bool, dict1: map<nat, Text>, numBits1: nat, increment1: int, value: Text, result1: Text)
    ensures var turn := Emit(DState(map[], Width(0, 0), wtf, result, 0), dict, key, Width(numBits, increment), pos);
      if ok then turn == Continue(DState(dict1, Width(numBits1, increment1), value, result1, pos))
      else turn == Stop([])
  {
    dict1, numBits1, increment1, value, result1 := dict, numBits, increment, [], result;
    if key in dict {
      value := dict[key];
    } else if key == |dict| {
      value := wtf + FirstChar(wtf);
    } else {
      ok := false;
      return;
    }
    ok := true;
    result1 := result + value;
    dict1 := dict[|dict| := wtf + FirstChar(value)];
    numBits1, increment1 := WidenIfDue(numBits, increment - 1);
  }

  /**
   * What baseDecompress reads before its loop: two bits that select an 8-
   * or 16-bit first character ('' for any other value), and that character.
   */
  method ReadTopChar(tracker: DecompressionTracker, e: Encoding, input: Text, ghost bpc: nat, resetValue: nat)
    returns (ok: bool, topChar: CodeUnit)
    requires tracker.Valid(e, input, bpc, resetValue) && tracker.consumed == 0
    modifies tracker
    ensures tracker.Valid(e, input, bpc, resetValue)
    ensures var begin := Begin(e, input, bpc);
      if ok then begin == Continue(DState(NumStrDict(3)[3 := [topChar]], DecompressorStart, [topChar], [topChar], tracker.consumed))
      else begin == Stop([])
  {
    var topBits := tracker.LoopDecompressionBits(e, input, bpc, resetValue, 2);
    if topBits != 0 && topBits != 1 {
      return false, 0;
    }
    var topBitFilter := if topBits == 0 then 8 else 16;
    var topValue := tracker.LoopDecompressionBits(e, input, bpc, resetValue, topBitFilter);
    ok, topChar := true, FromCharCode(topValue);
  }

  /**
   * baseDecompress's loop: decode code after code until the end marker, an
   * unknown code, or the end of the input.
   */
  method DecompressLoop(tracker: DecompressionTracker, e: Encoding, input: Text, ghost bpc: nat, resetValue: nat,
                        dict: map<nat, Text>, numBits: nat, increment: int, wtf: Text, result: Text)
    returns (r: Text)
    requires tracker.Valid(e, input, bpc, resetValue) && numBits > 0
    modifies tracker
    ensures r == DecodeLoop(e, input, bpc, DState(dict, Width(numBits, increment), wtf, result, old(tracker.consumed)))
  {
    var srcLength := |input|;
    var decompressionDict, numBits, decompressionIncrement, wtf, result := dict, numBits, increment, wtf, result;
    ghost var answer := DecodeLoop(e, input, bpc, DState(dict, Width(numBits, increment), wtf, result, tracker.consumed));
    while true
      invariant tracker.Valid(e, input, bpc, resetValue) && numBits > 0
      invariant DecodeLoop(e, input, bpc, DState(decompressionDict, Width(numBits, decompressionIncrement), wtf, result, tracker.consumed)) == answer
      decreases |input| * bpc - tracker.consumed
    {
      ghost var st := DState(decompressionDict, Width(numBits, decompressionIncrement), wtf, result, tracker.consumed);
      if tracker.index > srcLength {
        return [];
      }
      DivAtLeast(st.pos, |input|, bpc);
      var end, dict1, key, numBits1, increment1 :=
        ReadEntryCode(tracker, e, input, bpc, resetValue, decompressionDict, numBits, decompressionIncrement);
      if end {
        return result;
      }
      var ok, dict2, numBits2, increment2, value, result2 := RecordEntry(dict1, key, numBits1, increment1, wtf, result, tracker.consumed);
      if !ok {
        return [];
      }
      decompressionDict, numBits, decompressionIncrement, wtf, result := dict2, numBits2, increment2, value, result2;
    }
  }

  /**
   * baseDecompress: '' for the empty input; otherwise the first character,
   * then the loop.
   */
  method BaseDecompress(input: Text, e: Encoding) returns (r: Text)
    ensures r == DecompressSpec(input, e)
  {
    if |input| == 0 {
      return [];
    }
    ghost var bpc := BitsPerChar(e);
    var resetValue := ResetValue(e);
    ResetValueIsTopBit(e);
    var decompressionDict := BuildNumStrDictMap(3);
    var tracker := new DecompressionTracker(e, input, bpc, resetValue);
    var ok, topChar := ReadTopChar(tracker, e, input, bpc, resetValue);
    if !ok {
      return [];
    }
    decompressionDict := decompressionDict[3 := [topChar]];
    r := DecompressLoop(tracker, e, input, bpc, resetValue, decompressionDict, 3, 4, [topChar], [topChar]);
  }
}
