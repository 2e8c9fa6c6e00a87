/**
 * The Plzsu adapters (src/index.ts): each pairs baseCompress or
 * baseDecompress with one Encoding, and compressToBase64 pads its result
 * with '=' to a whole number of four-character groups.
 */
module Plzsu {
  import opened Common
  import opened Alphabets
  import Compressor
  import Decompressor
  import RoundTrip

  /** n copies of '='. */
  function Equals(n: nat): (r: Text)
    ensures |r| == n && forall i :: 0 <= i < n ==> r[i] == '=' as int
  {
    seq(n, _ => '=' as int as CodeUnit)
  }

  /**
   * compressToBase64's switch on result.length % 4: '=' up to the next
   * multiple of four. The remainder is always 0, 1, 2 or 3, so the throw
   * in the default case is never reached.
   */
  function PadBase64(result: Text): (r: Text)
    ensures |r| % 4 == 0 && result <= r && |r| - |result| < 4
    ensures forall i :: |result| <= i < |r| ==> r[i] == '=' as int
  {
    var m := |result| % 4;
    if m == 0 then result
    else if m == 1 then result + Equals(3)
    else if m == 2 then result + Equals(2)
    else
      assert m == 3;
      result + Equals(1)
  }

  /** The characters each adapter's compressed output is drawn from. */
  predicate InAlphabet(e: Encoding, c: CodeUnit)
  {
    match e
    case Base64 => c in KeyStrBase64
    case UriSafe => c in KeyStrUriSafe
    case Utf16 => 32 <= c < 32 + 0x8000
    case Raw => true
  }

  /** charFunc takes a unit that fits in bitsPerChar bits into the adapter's alphabet. */
  lemma UnitInAlphabet(e: Encoding, n: nat)
    requires n < Pow2(BitsPerChar(e))
    ensures InAlphabet(e, UnitChar(e, n))
  {
    AlphabetsDistinct();
    ResetValueIsTopBit(e);
  }

  /** charFunc takes every unit that fits in bitsPerChar bits into the adapter's alphabet. */
  lemma EncodeInAlphabet(e: Encoding, units: seq<nat>)
    requires forall i :: 0 <= i < |units| ==> units[i] < Pow2(BitsPerChar(e))
    ensures forall i :: 0 <= i < |units| ==> InAlphabet(e, Encode(e, units)[i])
  {
    forall i | 0 <= i < |units|
      ensures InAlphabet(e, Encode(e, units)[i])
    {
      EncodeAt(e, units, i);
      UnitInAlphabet(e, units[i]);
    }
  }

  /** Every character baseCompress writes is in the adapter's alphabet. */
  lemma CompressedInAlphabet(input: Text, e: Encoding)
    ensures forall i :: 0 <= i < |Compressor.CompressSpec(input, e)| ==> InAlphabet(e, Compressor.CompressSpec(input, e)[i])
  {
    if input != [] {
      var w := BitsPerChar(e);
      EncodeInAlphabet(e, Pack(Compressor.Stream(input, w), w));
    }
  }

  /**
   * compressToBase64: a whole number of four-character groups, empty only
   * for the empty input, every character a Base64 character.
   */
  function CompressToBase64(input: Text): (r: Text)
    ensures |r| % 4 == 0
    ensures input == [] <==> r == []
    ensures forall i :: 0 <= i < |r| ==> r[i] in KeyStrBase64
  {
    var result := Compressor.CompressSpec(input, Base64);
    CompressedInAlphabet(input, Base64);
    assert KeyStrBase64[64] == '=' as int;
    PadBase64(result)
  }

  /** decompressFromBase64 */
  function DecompressFromBase64(input: Text): (r: Text)
    ensures input == [] ==> r == []
  {
    Decompressor.DecompressSpec(input, Base64)
  }

  /**
   * compressToUTF16: every character lies in [32, 32 + 2^15), so none is a
   * control character or half of a surrogate pair.
   */
  function CompressToUtf16(input: Text): (r: Text)
    ensures input == [] <==> r == []
    ensures forall i :: 0 <= i < |r| ==> 32 <= r[i] < 0xD800
  {
    CompressedInAlphabet(input, Utf16);
    Compressor.CompressSpec(input, Utf16)
  }

  /** decompressFromUTF16 */
  function DecompressFromUtf16(input: Text): (r: Text)
    ensures input == [] ==> r == []
  {
    Decompressor.DecompressSpec(input, Utf16)
  }

  /** compressToEncodedURIComponent: every character is URI-safe, and none is a space. */
  function CompressToEncodedUriComponent(input: Text): (r: Text)
    ensures input == [] <==> r == []
    ensures forall i :: 0 <= i < |r| ==> r[i] in KeyStrUriSafe && r[i] != ' ' as int
  {
    CompressedInAlphabet(input, UriSafe);
    AlphabetsDistinct();
    Compressor.CompressSpec(input, UriSafe)
  }

  /** `.replace(/ /g, '+')`: every space becomes '+', every other character stays. */
  function ReplaceSpaces(s: Text): (r: Text)
    ensures |r| == |s|
    ensures forall i :: 0 <= i < |s| ==> r[i] == (if s[i] == ' ' as int then '+' as int else s[i])
  {
    if s == [] then []
    else ReplaceSpaces(s[..|s| - 1]) + [if s[|s| - 1] == ' ' as int then '+' as int as CodeUnit else s[|s| - 1]]
  }

  /** decompressFromEncodedURIComponent: spaces are read as '+' first. */
  function DecompressFromEncodedUriComponent(input: Text): (r: Text)
    ensures input == [] ==> r == []
  {
    Decompressor.DecompressSpec(ReplaceSpaces(input), UriSafe)
  }

  /** A string with no space passes the replacement unchanged; a second replacement changes nothing. */
  lemma ReplaceSpacesFixed(s: Text)
    ensures (forall i :: 0 <= i < |s| ==> s[i] != ' ' as int) ==> ReplaceSpaces(s) == s
    ensures ReplaceSpaces(ReplaceSpaces(s)) == ReplaceSpaces(s)
  {
  }

  /** A space in the input reads exactly as a '+' would. */
  lemma SpaceReadsAsPlus(input: Text)
    ensures DecompressFromEncodedUriComponent(ReplaceSpaces(input)) == DecompressFromEncodedUriComponent(input)
  {
    ReplaceSpacesFixed(input);
  }

  /** The replacement leaves compressToEncodedURIComponent's output as it is. */
  lemma ReplaceSpacesKeepsCompressed(input: Text)
    ensures ReplaceSpaces(CompressToEncodedUriComponent(input)) == CompressToEncodedUriComponent(input)
  {
    ReplaceSpacesFixed(CompressToEncodedUriComponent(input));
  }

  /** compress: baseCompress with 16-bit units. */
  function Compress(input: Text): (r: Text)
    ensures input == [] <==> r == []
  {
    Compressor.CompressSpec(input, Raw)
  }

  /** decompress */
  function Decompress(input: Text): (r: Text)
    ensures input == [] ==> r == []
  {
    Decompressor.DecompressSpec(input, Raw)
  }

  // ---------------------------------------------------------------------
  // Each adapter's decompression undoes its compression.

  /** The '=' padding lies past every bit of the stream, so the Base64 string still decodes to the input. */
  lemma Base64RoundTrip(input: Text)
    ensures DecompressFromBase64(CompressToBase64(input)) == input
  {
    if input != [] {
      var s := Compressor.CompressSpec(input, Base64);
      var padded := PadBase64(s);
      var S := Compressor.Stream(input, BitsPerChar(Base64));
      RoundTrip.StreamCarried(input, Base64);
      assert padded == s + padded[|s|..];
      RoundTrip.CarriesExtend(Base64, s, padded[|s|..], BitsPerChar(Base64), S);
      MulLe(|s|, |padded|, BitsPerChar(Base64));
      RoundTrip.DecodesStream(input, Base64, padded);
    }
  }

  /** decompressFromUTF16 undoes compressToUTF16. */
  lemma Utf16RoundTrip(input: Text)
    ensures DecompressFromUtf16(CompressToUtf16(input)) == input
  {
    RoundTrip.RoundTripSpec(input, Utf16);
  }

  /** decompressFromEncodedURIComponent undoes compressToEncodedURIComponent. */
  lemma EncodedUriComponentRoundTrip(input: Text)
    ensures DecompressFromEncodedUriComponent(CompressToEncodedUriComponent(input)) == input
  {
    ReplaceSpacesKeepsCompressed(input);
    RoundTrip.RoundTripSpec(input, UriSafe);
  }

  /** decompress undoes compress. */
  lemma RawRoundTrip(input: Text)
    ensures Decompress(Compress(input)) == input
  {
    RoundTrip.RoundTripSpec(input, Raw);
  }
}
