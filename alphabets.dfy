/**
 * The output alphabets and the per-adapter unit mappings.
 *
 * Each adapter fixes four things: the number of bits per output unit, the
 * function turning a unit value into a character, the reader's initial bit
 * mask, and the function turning a character back into a value. They are
 * collected here as one `Encoding` per adapter.
 */
module Alphabets {
  import opened Common

  /** n consecutive code units starting at `first`. */
  function Span(first: int, n: nat): (r: Text)
    requires 0 <= first && first + n <= 0x1_0000
    ensures |r| == n
    ensures forall i :: 0 <= i < n ==> r[i] == first + i
  {
    seq(n, i requires 0 <= i < n => (first + i) as CodeUnit)
  }

  /** keyStrShared: the 26 capitals, the 26 small letters, the 10 digits and '+'. */
  const KeyStrShared: Text :=
    Span('A' as int, 26) + Span('a' as int, 26) + Span('0' as int, 10) + ['+' as int as CodeUnit]

  /** keyStrBase64: keyStrShared + '/='. */
  const KeyStrBase64: Text := KeyStrShared + ['/' as int as CodeUnit, '=' as int as CodeUnit]

  /** keyStrUriSafe: keyStrShared + '-$'. */
  const KeyStrUriSafe: Text := KeyStrShared + ['-' as int as CodeUnit, '$' as int as CodeUnit]

  /** No character occurs twice in either alphabet. */
  lemma AlphabetsDistinct()
    ensures |KeyStrBase64| == 65 && |KeyStrUriSafe| == 65
    ensures forall i, j :: 0 <= i < j < 65 ==> KeyStrBase64[i] != KeyStrBase64[j]
    ensures forall i, j :: 0 <= i < j < 65 ==> KeyStrUriSafe[i] != KeyStrUriSafe[j]
    ensures ' ' as int !in KeyStrUriSafe
  {
    var s := KeyStrShared;
    assert forall i :: 0 <= i < 26 ==> s[i] == 65 + i;
    assert forall i :: 26 <= i < 52 ==> s[i] == 97 + (i - 26);
    assert forall i :: 52 <= i < 62 ==> s[i] == 48 + (i - 52);
    assert s[62] == 43;
  }

  /**
   * buildStrNumDictMap as a value: each character of `base` mapped to its
   * index, a later occurrence overriding an earlier one.
   */
  function StrNumDict(base: Text): (m: map<CodeUnit, nat>)
    ensures forall c :: c in m <==> c in base
    ensures forall c :: c in m ==> m[c] < |base| && base[m[c]] == c
    ensures forall c, j :: c in m && m[c] < j < |base| ==> base[j] != c
  {
    if base == [] then map[]
    else
      var n := |base| - 1;
      var init := base[..n];
      assert base == init + [base[n]];
      StrNumDict(init)[base[n] := n]
  }

  /** buildStrNumDictMap: the loop that fills the map one index at a time. */
  method BuildStrNumDictMap(base: Text) returns (dict: map<CodeUnit, nat>)
    ensures dict == StrNumDict(base)
  {
    dict := map[];
    for i := 0 to |base|
      invariant dict == StrNumDict(base[..i])
    {
      assert base[..i + 1][..i] == base[..i];
      dict := dict[base[i] := i];
    }
    assert base[..|base|] == base;
  }

  /** The index of a character that occurs once in `base` is its position. */
  lemma {:induction false} StrNumDictAt(base: Text, i: nat)
    requires i < |base|
    requires forall j :: i < j < |base| ==> base[j] != base[i]
    ensures base[i] in StrNumDict(base) && StrNumDict(base)[base[i]] == i
  {
    var k := StrNumDict(base)[base[i]];
    assert base[k] == base[i];
  }

  /** dictMapBase64 */
  const DictMapBase64: map<CodeUnit, nat> := StrNumDict(KeyStrBase64)

  /** dictMapUriSafe */
  const DictMapUriSafe: map<CodeUnit, nat> := StrNumDict(KeyStrUriSafe)

  /** The four adapters' choices of bitsPerChar, charFunc, resetValue and charCodeFunc. */
  datatype Encoding = Base64 | UriSafe | Utf16 | Raw

  /** bitsPerChar */
  function BitsPerChar(e: Encoding): (r: nat)
    ensures 6 <= r <= 16
  {
    match e
    case Base64 => 6
    case UriSafe => 6
    case Utf16 => 15
    case Raw => 16
  }

  /** resetValue: the reader's mask for the first bit of a unit. */
  function ResetValue(e: Encoding): nat
  {
    match e
    case Base64 => 32
    case UriSafe => 32
    case Utf16 => 16384
    case Raw => 32768
  }

  /** Each adapter's reader mask is the top bit of its writer's units. */
  lemma ResetValueIsTopBit(e: Encoding)
    ensures ResetValue(e) == Pow2(BitsPerChar(e) - 1)
  {
    assert Pow2(5) == 32;
    assert Pow2(14) == 16384;
    assert Pow2(15) == 32768;
  }

  /**
   * charFunc: the character that carries a unit. charAt past the end of the
   * alphabet and String.fromCharCode's truncation to 16 bits are written out
   * (0 and `% 0x1_0000`); for a unit below 2^bitsPerChar neither happens.
   */
  function UnitChar(e: Encoding, n: nat): CodeUnit
  {
    match e
    case Base64 => if n < |KeyStrBase64| then KeyStrBase64[n] else 0
    case UriSafe => if n < |KeyStrUriSafe| then KeyStrUriSafe[n] else 0
    case Utf16 => (n + 32) % 0x1_0000
    case Raw => n % 0x1_0000
  }

  /**
   * charCodeFunc: the value the reader takes from position i of s. A
   * position past the end, or a character outside the alphabet, gives
   * NaN or undefined in the TypeScript, which every `&` turns into 0.
   */
  function CodeAt(e: Encoding, s: Text, i: nat): int
  {
    match e
    case Base64 => if i < |s| && s[i] in DictMapBase64 then DictMapBase64[s[i]] else 0
    case UriSafe => if i < |s| && s[i] in DictMapUriSafe then DictMapUriSafe[s[i]] else 0
    case Utf16 => if i < |s| then (s[i] as int) - 32 else 0
    case Raw => if i < |s| then s[i] else 0
  }

  /** A unit sequence written out through charFunc. */
  function Encode(e: Encoding, units: seq<nat>): (r: Text)
    ensures |r| == |units|
  {
    if units == [] then [] else Encode(e, units[..|units| - 1]) + [UnitChar(e, units[|units| - 1])]
  }

  lemma EncodeSnoc(e: Encoding, units: seq<nat>, u: nat)
    ensures Encode(e, units + [u]) == Encode(e, units) + [UnitChar(e, u)]
  {
    assert (units + [u])[..|units|] == units;
  }

  lemma {:induction false} EncodeAt(e: Encoding, units: seq<nat>, i: nat)
    requires i < |units|
    ensures Encode(e, units)[i] == UnitChar(e, units[i])
  {
    if i < |units| - 1 {
      EncodeAt(e, units[..|units| - 1], i);
    }
  }

  /** charCodeFunc undoes charFunc: the reader sees the units the writer produced. */
  lemma CodeAtEncode(e: Encoding, units: seq<nat>, i: nat)
    requires UnitsFit(units, BitsPerChar(e))
    requires i < |units|
    ensures CodeAt(e, Encode(e, units), i) == units[i]
  {
    ResetValueIsTopBit(e);
    UnitsFitIff(units, BitsPerChar(e));
    EncodeAt(e, units, i);
    var n := units[i];
    match e
    case Base64 =>
      AlphabetsDistinct();
      StrNumDictAt(KeyStrBase64, n);
    case UriSafe =>
      AlphabetsDistinct();
      StrNumDictAt(KeyStrUriSafe, n);
    case Utf16 =>
    case Raw =>
  }
}
