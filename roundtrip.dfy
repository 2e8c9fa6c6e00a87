/**
 * The round trip: baseDecompress returns exactly the string baseCompress
 * was given, for every adapter.
 *
 * The proof follows the compressor one input character at a time. After
 * each character, Sim relates the compressor's state to the state the
 * decompressor reaches on the final output after reading everything
 * emitted so far: the same bit position and code width, the decoded text
 * followed by the compressor's pending prefix w is the input read so far,
 * and the decompressor's dictionary is the compressor's turned around,
 * one or two entries behind.
 */
module RoundTrip {
  import opened Common
  import opened Schedule
  import opened Alphabets
  import opened Decompressor
  import C = Compressor

  // ---------------------------------------------------------------------
  // The reader sees the writer's bits.

  /** Read through charCodeFunc, the string s carries the bit stream S. */
  ghost predicate Carries(e: Encoding, s: Text, bpc: nat, S: seq<bool>)
    requires bpc > 0
  {
    forall c {:trigger StreamBit(e, s, bpc, c)} :: 0 <= c < |S| ==> StreamBit(e, s, bpc, c) == S[c]
  }

  /** Packing a stream of whole units gives one unit per w bits. */
  lemma {:induction false} PackLength(bits: seq<bool>, w: nat)
    requires w > 0 && |bits| % w == 0
    ensures |Pack(bits, w)| * w == |bits|
    decreases |bits|
  {
    if |bits| >= w {
      DivShift(|bits|, w);
      PackLength(bits[w..], w);
    } else {
      DivModUnique(|bits|, w, 0, |bits|);
    }
  }

  /** The characters charFunc writes for a stream of whole units carry that stream. */
  lemma EncodedCarries(e: Encoding, S: seq<bool>)
    requires |S| % BitsPerChar(e) == 0
    ensures Carries(e, Encode(e, Pack(S, BitsPerChar(e))), BitsPerChar(e), S)
  {
    forall c | 0 <= c < |S|
      ensures StreamBit(e, Encode(e, Pack(S, BitsPerChar(e))), BitsPerChar(e), c) == S[c]
    {
      EncodedBit(e, S, c);
    }
  }

  /** One bit of the stream, found where the writer put it. */
  lemma EncodedBit(e: Encoding, S: seq<bool>, c: nat)
    requires |S| % BitsPerChar(e) == 0 && c < |S|
    ensures StreamBit(e, Encode(e, Pack(S, BitsPerChar(e))), BitsPerChar(e), c) == S[c]
  {
    var w := BitsPerChar(e);
    var units := Pack(S, w);
    var k, j := c / w, w - 1 - c % w;
    UnitsFitIff(units, w);
    PackAt(S, w, c);
    CodeAtEncode(e, units, k);
    StreamBitOf(e, Encode(e, units), w, c, units[k]);
  }

  /** The stream bit at c is a bit of the value charCodeFunc gives for unit c / bpc. */
  lemma StreamBitOf(e: Encoding, s: Text, bpc: nat, c: nat, v: int)
    requires bpc > 0 && CodeAt(e, s, c / bpc) == v
    ensures StreamBit(e, s, bpc, c) == Bit(v, bpc - 1 - c % bpc)
  {
  }

  /** n bits read from position p of a carried stream are the value of S[p..p+n]. */
  lemma {:induction false} ReadCarried(e: Encoding, s: Text, bpc: nat, S: seq<bool>, p: nat, n: nat)
    requires bpc > 0 && Carries(e, s, bpc, S) && p + n <= |S|
    ensures ReadValue(e, s, bpc, p, n) == ValueLE(S[p..p + n])
  {
    if n > 0 {
      ReadCarried(e, s, bpc, S, p, n - 1);
      ReadOneMore(e, s, bpc, S, p, n);
    }
  }

  /** One more carried bit extends the value read by that bit, at the top. */
  lemma ReadOneMore(e: Encoding, s: Text, bpc: nat, S: seq<bool>, p: nat, n: nat)
    requires bpc > 0 && 0 < n && p + n <= |S|
    requires ReadValue(e, s, bpc, p, n - 1) == ValueLE(S[p..p + n - 1])
    requires StreamBit(e, s, bpc, p + n - 1) == S[p + n - 1]
    ensures ReadValue(e, s, bpc, p, n) == ValueLE(S[p..p + n])
  {
    SnocSlice(S, p, n);
    ValueLESnoc(S[p..p + n - 1], S[p + n - 1]);
  }

  /** A slice is the slice one shorter followed by its last element. */
  lemma SnocSlice(S: seq<bool>, p: nat, n: nat)
    requires 0 < n && p + n <= |S|
    ensures S[p..p + n] == S[p..p + n - 1] + [S[p + n - 1]] && |S[p..p + n - 1]| == n - 1
  {
  }

  /** A value written in n bits at position p is read back from there. */
  lemma ReadBack(e: Encoding, s: Text, bpc: nat, S: seq<bool>, p: nat, v: nat, n: nat)
    requires bpc > 0 && Carries(e, s, bpc, S) && p + n <= |S|
    requires v < Pow2(n) && S[p..p + n] == BitsLE(v, n)
    ensures ReadValue(e, s, bpc, p, n) == v
  {
    ReadCarried(e, s, bpc, S, p, n);
    ValueOfBitsLE(v, n);
    DivModUnique(v, Pow2(n), 0, v);
  }

  /** What a prefix a + b + c of S says about the slices of S after a. */
  lemma SliceOfPrefix(S: seq<bool>, a: seq<bool>, b: seq<bool>, c: seq<bool>)
    requires a + b + c <= S
    ensures S[|a|..|a| + |b|] == b
    ensures S[|a| + |b|..|a| + |b| + |c|] == c
  {
    assert S[..|a| + |b| + |c|] == a + b + c;
  }

  // ---------------------------------------------------------------------
  // The compressor only appends to its output.

  /** A turn only appends bits. */
  lemma StepOutGrows(st: C.CState, c: CodeUnit)
    ensures st.out <= C.Step(st, c).out
  {
  }

  /** The output after i characters is a prefix of the output after j. */
  lemma {:induction false} ScanOutGrows(x: Text, i: nat, j: nat)
    requires i <= j <= |x|
    ensures C.Scan(x[..i]).out <= C.Scan(x[..j]).out
    decreases j - i
  {
    if i < j {
      C.ScanSnoc(x, i);
      StepOutGrows(C.Scan(x[..i]), x[i]);
      ScanOutGrows(x, i + 1, j);
    }
  }

  /** Everything written along the way, and the stream before the flush, begin the final stream. */
  lemma ScanInStream(x: Text, i: nat, bpc: nat)
    requires i <= |x| && bpc > 0
    ensures C.Scan(x[..i]).out <= C.Stream(x, bpc)
    ensures C.Finish(C.Scan(x)) <= C.Stream(x, bpc)
  {
    ScanOutGrows(x, i, |x|);
    assert x[..|x|] == x;
    C.FlushAppendsOneUnit(C.Finish(C.Scan(x)), bpc);
  }

  /** Registering the next character does not change how w is emitted. */
  lemma RegisterThenEmit(st: C.CState, c: CodeUnit)
    requires C.CompressorInv(st) && st.w != []
    ensures var st1 := C.Register(st, c);
      && C.EmitW(st1).out == C.EmitW(st).out
      && C.EmitW(st1).width == C.EmitW(st).width
      && (st.w in st1.toCreate <==> st.w in st.toCreate)
  {
    if [c] !in st.dict {
      assert st.w != [c];
    }
  }

  // ---------------------------------------------------------------------
  // The simulation.

  /**
   * The decompressor's dictionary is the compressor's turned around, behind
   * by two entries at most: the one for the last emitted phrase followed by
   * w's first character, which is always the newest, and w itself while w
   * still waits for its literal.
   */
  ghost predicate DictSim(cd: map<Text, nat>, toCreate: set<Text>, w: Text, dd: map<nat, Text>, last: Text)
  {
    && KeysDense(dd) && |dd| >= 4
    && (forall j :: 3 <= j < |dd| ==> dd[j] in cd && cd[dd[j]] == j)
    && w != [] && last != []
    && last + [w[0]] in cd && cd[last + [w[0]]] == |cd| + 2
    && |cd| + 2 == |dd| + (if toCreate == {} then 0 else 1)
    && (toCreate != {} ==> toCreate == {w} && w in cd && cd[w] == |dd|)
  }

  /**
   * The compressor after reading `done`, and the decompressor after reading
   * everything the compressor has emitted so far.
   */
  ghost predicate Sim(st: C.CState, ds: DState, done: Text)
  {
    && C.CompressorInv(st)
    && ds.pos == |st.out|
    && ds.width == st.width
    && ds.result + st.w == done
    && Balanced(ds.width, |ds.dict|)
    && DictSim(st.dict, st.toCreate, st.w, ds.dict, ds.w)
  }

  /** The decompressor's state once it has read the emission of w. */
  ghost function AfterEmit(st: C.CState, ds: DState): DState
    requires st.w != []
  {
    var dict := if st.w in st.toCreate then ds.dict[|ds.dict| := st.w] else ds.dict;
    var next := C.EmitW(st);
    DState(dict[|dict| := ds.w + [st.w[0]]], next.width, st.w, ds.result + st.w, |next.out|)
  }

  /** The reader is still inside the input at any position before the end of S. */
  lemma IndexInside(s: Text, bpc: nat, S: seq<bool>, pos: nat)
    requires bpc > 0 && |S| <= |s| * bpc && pos < |S|
    ensures pos / bpc + 1 <= |s|
  {
    DivAtLeast(pos, |s|, bpc);
  }

  /** Where two values written after `out` sit in S. */
  lemma TwoSlices(S: seq<bool>, out: seq<bool>, va: nat, na: nat, vb: nat, nb: nat, q: nat)
    requires out + BitsLE(va, na) + BitsLE(vb, nb) <= S && q == |out| + na
    ensures |out| + na <= |S| && q + nb <= |S|
    ensures S[|out|..|out| + na] == BitsLE(va, na)
    ensures S[q..q + nb] == BitsLE(vb, nb)
  {
    SliceOfPrefix(S, out, BitsLE(va, na), BitsLE(vb, nb));
  }

  /** Two values written one after the other at the end of `out` are read back in turn. */
  lemma ReadTwo(e: Encoding, s: Text, bpc: nat, S: seq<bool>, out: seq<bool>, va: nat, na: nat, vb: nat, nb: nat, p: nat, q: nat)
    requires bpc > 0 && Carries(e, s, bpc, S)
    requires va < Pow2(na) && vb < Pow2(nb)
    requires out + BitsLE(va, na) + BitsLE(vb, nb) <= S && p == |out| && q == p + na
    ensures ReadValue(e, s, bpc, p, na) == va
    ensures ReadValue(e, s, bpc, q, nb) == vb
  {
    TwoSlices(S, out, va, na, vb, nb, q);
    ReadBack(e, s, bpc, S, p, va, na);
    ReadBack(e, s, bpc, S, q, vb, nb);
  }

  /** The character widths of the literal escapes. */
  lemma Pow2Bytes()
    ensures Pow2(8) == 256 && Pow2(16) == 0x1_0000
  {
  }

  /** A literal marker followed by its character makes the character the next entry. */
  lemma LiteralCode(e: Encoding, s: Text, bpc: nat, dict: map<nat, Text>, width: Width, pos: nat, ch: CodeUnit, marker: nat, n: nat, q: nat)
    requires bpc > 0 && KeysDense(dict)
    requires marker == (if ch < 256 then 0 else 1) && n == (if ch < 256 then 8 else 16) && q == pos + width.bits
    requires ReadValue(e, s, bpc, pos, width.bits) == marker && ReadValue(e, s, bpc, q, n) == ch
    ensures ReadCode(e, s, bpc, dict, width, pos) == Entry(dict[|dict| := [ch]], |dict|, NextWidth(width), q + n)
  {
    LiteralEntryOf(e, s, bpc, dict, width, q, ch, marker, n);
  }

  /** The character after a literal marker becomes the next entry, with the counter decremented. */
  lemma LiteralEntryOf(e: Encoding, s: Text, bpc: nat, dict: map<nat, Text>, width: Width, q: nat, ch: CodeUnit, marker: nat, n: nat)
    requires bpc > 0 && KeysDense(dict)
    requires marker == (if ch < 256 then 0 else 1) && n == (if ch < 256 then 8 else 16)
    requires ReadValue(e, s, bpc, q, n) == ch
    ensures LiteralEntry(e, s, bpc, dict, width, q, marker) == Entry(dict[|dict| := [ch]], |dict|, Decrement(width), q + n)
  {
    assert |dict| !in dict;
    assert FromCharCode(ch) == ch;
  }

  /** The literal escape for ch, written after `out`, is read back as a new entry for ch. */
  lemma ReadLiteralBits(e: Encoding, s: Text, bpc: nat, S: seq<bool>, out: seq<bool>, dict: map<nat, Text>, width: Width, ch: CodeUnit)
    requires bpc > 0 && Carries(e, s, bpc, S) && KeysDense(dict) && width.bits >= 1
    requires out + C.LiteralBits(ch, width.bits) <= S
    ensures ReadCode(e, s, bpc, dict, width, |out|)
      == Entry(dict[|dict| := [ch]], |dict|, NextWidth(width), |out + C.LiteralBits(ch, width.bits)|)
  {
    var marker: nat, n: nat := if ch < 256 then 0 else 1, if ch < 256 then 8 else 16;
    var bits := width.bits;
    var q := |out| + bits;
    assert out + C.LiteralBits(ch, bits) == out + BitsLE(marker, bits) + BitsLE(ch, n);
    Pow2Bytes();
    ReadTwo(e, s, bpc, S, out, marker, bits, ch, n, |out|, q);
    LiteralCode(e, s, bpc, dict, width, |out|, ch, marker, n, q);
  }

  /** A code written after `out` at the current width is read back as itself. */
  lemma ReadCodeBits(e: Encoding, s: Text, bpc: nat, S: seq<bool>, out: seq<bool>, dict: map<nat, Text>, width: Width, code: nat)
    requires bpc > 0 && Carries(e, s, bpc, S) && width.increment >= 1
    requires 2 < code < Pow2(width.bits) && out + BitsLE(code, width.bits) <= S
    ensures ReadCode(e, s, bpc, dict, width, |out|)
      == Entry(dict, code, width, |out + BitsLE(code, width.bits)|)
  {
    var q := |out| + width.bits;
    assert out + BitsLE(code, width.bits) + BitsLE(0, 0) <= S;
    ReadTwo(e, s, bpc, S, out, code, width.bits, 0, 0, |out|, q);
  }

  /** A pending w goes out as a literal, which the reader turns into a new entry. */
  lemma ReadLiteralEmission(e: Encoding, s: Text, bpc: nat, S: seq<bool>, st: C.CState, ds: DState, done: Text)
    requires bpc > 0 && Carries(e, s, bpc, S)
    requires Sim(st, ds, done) && st.w in st.toCreate && C.EmitW(st).out <= S
    ensures ReadCode(e, s, bpc, ds.dict, ds.width, ds.pos)
      == Entry(ds.dict[|ds.dict| := st.w], |ds.dict|, NextWidth(ds.width), |C.EmitW(st).out|)
  {
    assert st.w == [st.w[0]];
    ReadLiteralBits(e, s, bpc, S, st.out, ds.dict, ds.width, st.w[0]);
  }

  /** Any other w goes out as its code, which is at most the reader's dictionary size. */
  lemma ReadCodeEmission(e: Encoding, s: Text, bpc: nat, S: seq<bool>, st: C.CState, ds: DState, done: Text)
    requires bpc > 0 && Carries(e, s, bpc, S)
    requires Sim(st, ds, done) && st.w !in st.toCreate && C.EmitW(st).out <= S
    ensures st.w in st.dict && 3 <= st.dict[st.w] <= |ds.dict|
    ensures ReadCode(e, s, bpc, ds.dict, ds.width, ds.pos)
      == Entry(ds.dict, st.dict[st.w], ds.width, |C.EmitW(st).out|)
  {
    assert st.toCreate == {};
    ReadCodeBits(e, s, bpc, S, st.out, ds.dict, ds.width, st.dict[st.w]);
  }

  /** The code of a w that is not pending finds w itself, also when it is the entry not yet added. */
  lemma LookupEmission(st: C.CState, ds: DState, done: Text)
    requires Sim(st, ds, done) && st.w !in st.toCreate
    ensures st.w in st.dict && Lookup(ds.dict, st.dict[st.w], ds.w) == Some(st.w)
  {
    var cd, dd := st.dict, ds.dict;
    var code := cd[st.w];
    assert st.toCreate == {};
    if code < |dd| {
      assert code in dd;
      assert C.CodesDiffer(cd, dd[code], st.w);
    } else {
      var last := ds.w + [st.w[0]];
      assert C.CodesDiffer(cd, last, st.w);
      assert last == st.w;
      assert st.w[0] == ds.w[0];
    }
  }

  /** A turn of the decompressor over the literal escape of a pending w. */
  lemma DecodeLiteralEmission(e: Encoding, s: Text, bpc: nat, S: seq<bool>, st: C.CState, ds: DState, done: Text)
    requires bpc > 0 && Carries(e, s, bpc, S) && |S| <= |s| * bpc
    requires Sim(st, ds, done) && st.w in st.toCreate && C.EmitW(st).out <= S
    ensures DecodeStep(e, s, bpc, ds) == Continue(AfterEmit(st, ds))
  {
    IndexInside(s, bpc, S, ds.pos);
    ReadLiteralEmission(e, s, bpc, S, st, ds, done);
    var dict := ds.dict[|ds.dict| := st.w];
    assert |ds.dict| in dict;
    assert FirstChar(st.w) == [st.w[0]];
  }

  /** A turn of the decompressor over the code of a w that is not pending. */
  lemma DecodeCodeEmission(e: Encoding, s: Text, bpc: nat, S: seq<bool>, st: C.CState, ds: DState, done: Text)
    requires bpc > 0 && Carries(e, s, bpc, S) && |S| <= |s| * bpc
    requires Sim(st, ds, done) && st.w !in st.toCreate && C.EmitW(st).out <= S
    ensures DecodeStep(e, s, bpc, ds) == Continue(AfterEmit(st, ds))
  {
    ReadCodeEmission(e, s, bpc, S, st, ds, done);
    IndexInside(s, bpc, S, ds.pos);
    LookupEmission(st, ds, done);
    assert FirstChar(st.w) == [st.w[0]];
  }

  /** A turn of the decompressor over the emission of w lands on AfterEmit. */
  lemma DecodeEmission(e: Encoding, s: Text, bpc: nat, S: seq<bool>, st: C.CState, ds: DState, done: Text)
    requires bpc > 0 && Carries(e, s, bpc, S) && |S| <= |s| * bpc
    requires Sim(st, ds, done) && C.EmitW(st).out <= S
    ensures DecodeStep(e, s, bpc, ds) == Continue(AfterEmit(st, ds))
  {
    if st.w in st.toCreate {
      DecodeLiteralEmission(e, s, bpc, S, st, ds, done);
    } else {
      DecodeCodeEmission(e, s, bpc, S, st, ds, done);
    }
  }

  // ---------------------------------------------------------------------
  // Each turn of the compressor keeps the simulation.

  /** w + c is a key: the compressor only extends w, and the reader has nothing new to read. */
  lemma SimAfterExtend(st: C.CState, ds: DState, done: Text, c: CodeUnit)
    requires Sim(st, ds, done)
    requires C.Register(st, c).w + [c] in C.Register(st, c).dict
    ensures Sim(C.Step(st, c), ds, done + [c])
  {
    C.StepKeepsInv(st, c);
    var wc := st.w + [c];
    assert wc[|st.w|] == c && wc[0] == st.w[0];
    assert [c] in st.dict;
    assert C.Register(st, c) == st;
  }

  /**
   * The dictionaries after w is emitted and w + c registered: the reader
   * has added the pending w, if any, and the previous entry followed by
   * w's first character, and is again behind by the new w + c and a
   * pending [c].
   */
  lemma DictSimRestart(cd: map<Text, nat>, toCreate: set<Text>, w: Text, dd: map<nat, Text>, last: Text, c: CodeUnit)
    requires DictSim(cd, toCreate, w, dd, last) && w in cd && toCreate <= {w}
    requires w + [c] !in (if [c] in cd then cd else cd[[c] := C.SizeOffset + |cd|])
    ensures var cd1 := if [c] in cd then cd else cd[[c] := C.SizeOffset + |cd|];
      var cd2 := cd1[w + [c] := C.SizeOffset + |cd1|];
      var d1 := if w in toCreate then dd[|dd| := w] else dd;
      var d2 := d1[|d1| := last + [w[0]]];
      DictSim(cd2, if [c] in cd then {} else {[c]}, [c], d2, w) && |d2| == |cd| + 3
  {
    var cd1 := if [c] in cd then cd else cd[[c] := C.SizeOffset + |cd|];
    var d1 := if w in toCreate then dd[|dd| := w] else dd;
    var cd2 := cd1[w + [c] := C.SizeOffset + |cd1|];
    var d2 := d1[|d1| := last + [w[0]]];
    AddNextKey(dd, w);
    AddNextKey(d1, last + [w[0]]);
    assert |d1| == |cd| + 2;
    forall j | 3 <= j < |d2|
      ensures d2[j] in cd2 && cd2[d2[j]] == j
    {
      if j < |dd| {
        assert d2[j] == dd[j] && dd[j] in cd;
      } else if j < |d1| {
        assert d2[j] == w;
      } else {
        assert d2[j] == last + [w[0]];
      }
    }
    assert (w + [c])[0] == w[0];
  }

  /** The compressor's dictionary, pending set and w after a turn that emits w. */
  lemma RestartKeys(st: C.CState, c: CodeUnit)
    requires st.w in st.dict && st.toCreate <= {st.w}
    requires C.Register(st, c).w + [c] !in C.Register(st, c).dict
    ensures var st1, st3 := C.Register(st, c), C.Step(st, c);
      && st1.dict == (if [c] in st.dict then st.dict else st.dict[[c] := C.SizeOffset + |st.dict|])
      && st3.dict == st1.dict[st.w + [c] := C.SizeOffset + |st1.dict|] && st3.w == [c]
      && st3.toCreate == (if [c] in st.dict then {} else {[c]})
  {
  }

  /** The compressor's output and width after a turn that emits w are those of emitting w. */
  lemma RestartOut(st: C.CState, c: CodeUnit)
    requires C.CompressorInv(st) && st.w != []
    requires C.Register(st, c).w + [c] !in C.Register(st, c).dict
    ensures C.Step(st, c).out == C.EmitW(st).out && C.Step(st, c).width == C.EmitW(st).width
  {
    RegisterThenEmit(st, c);
  }

  /** After a turn that emits w, the dictionaries are again in step. */
  lemma RestartDicts(st: C.CState, ds: DState, c: CodeUnit)
    requires DictSim(st.dict, st.toCreate, st.w, ds.dict, ds.w) && st.w in st.dict && st.toCreate <= {st.w}
    requires C.Register(st, c).w + [c] !in C.Register(st, c).dict
    ensures var st3, ds3 := C.Step(st, c), AfterEmit(st, ds);
      DictSim(st3.dict, st3.toCreate, st3.w, ds3.dict, ds3.w)
      && |ds3.dict| == |ds.dict| + (if st.w in st.toCreate then 2 else 1)
  {
    RestartKeys(st, c);
    DictSimRestart(st.dict, st.toCreate, st.w, ds.dict, ds.w, c);
  }

  /** After w is emitted, the reader's width is balanced against its larger dictionary. */
  lemma EmitBalanced(st: C.CState, ds: DState, done: Text)
    requires Sim(st, ds, done)
    ensures Balanced(AfterEmit(st, ds).width, |ds.dict| + (if st.w in st.toCreate then 2 else 1))
  {
    BalancedStep(st.width, |ds.dict|);
    if st.w in st.toCreate {
      BalancedStep(NextWidth(st.width), |ds.dict| + 1);
    }
  }

  /** w + c is new: the compressor emits w, and the reader reads that emission. */
  lemma SimAfterRestart(st: C.CState, ds: DState, done: Text, c: CodeUnit)
    requires Sim(st, ds, done)
    requires C.Register(st, c).w + [c] !in C.Register(st, c).dict
    ensures Sim(C.Step(st, c), AfterEmit(st, ds), done + [c])
  {
    C.StepKeepsInv(st, c);
    RestartOut(st, c);
    RestartKeys(st, c);
    RestartDicts(st, ds, c);
    EmitBalanced(st, ds, done);
  }

  // ---------------------------------------------------------------------
  // The first literal and the end marker.

  /** The prefix order on bit streams is transitive. */
  lemma PrefixTrans(a: seq<bool>, b: seq<bool>, c: seq<bool>)
    requires a <= b && b <= c
    ensures a <= c
  {
    assert c[..|b|][..|a|] == c[..|a|];
  }

  /** What Begin leaves for the loop after reading the literal escape of the first character. */
  ghost function FirstState(x0: CodeUnit): DState
  {
    DState(NumStrDict(3)[3 := [x0]], DecompressorStart, [x0], [x0], |C.LiteralBits(x0, 2)|)
  }

  /** Begin reads the literal escape of the first character, written at width 2. */
  lemma BeginRead(e: Encoding, s: Text, bpc: nat, S: seq<bool>, x0: CodeUnit)
    requires bpc > 0 && Carries(e, s, bpc, S) && C.LiteralBits(x0, 2) <= S
    ensures Begin(e, s, bpc) == Continue(FirstState(x0))
  {
    var marker: nat, n: nat := if x0 < 256 then 0 else 1, if x0 < 256 then 8 else 16;
    assert [] + C.LiteralBits(x0, 2) == [] + BitsLE(marker, 2) + BitsLE(x0, n);
    Pow2Bytes();
    assert Pow2(2) == 4;
    ReadTwo(e, s, bpc, S, [], marker, 2, x0, n, 0, 2);
    BeginOf(e, s, bpc, x0, marker, n);
  }

  /** Begin on a marker and the character that follows it. */
  lemma BeginOf(e: Encoding, s: Text, bpc: nat, x0: CodeUnit, marker: nat, n: nat)
    requires bpc > 0 && marker == (if x0 < 256 then 0 else 1) && n == (if x0 < 256 then 8 else 16)
    requires ReadValue(e, s, bpc, 0, 2) == marker && ReadValue(e, s, bpc, 2, n) == x0
    ensures Begin(e, s, bpc) == Continue(FirstState(x0))
  {
    assert FromCharCode(x0) == x0;
    assert |C.LiteralBits(x0, 2)| == 2 + n;
  }

  /** The end marker, written at the reader's width, ends the loop with the text decoded so far. */
  lemma EndMarkerRead(e: Encoding, s: Text, bpc: nat, S: seq<bool>, out: seq<bool>, ds: DState)
    requires bpc > 0 && Carries(e, s, bpc, S) && |S| <= |s| * bpc
    requires ds.pos == |out| && 2 < Pow2(ds.width.bits) && out + BitsLE(C.EndMarker, ds.width.bits) <= S
    ensures DecodeStep(e, s, bpc, ds) == Stop(ds.result)
  {
    var bits := ds.width.bits;
    assert out + BitsLE(2, bits) + BitsLE(0, 0) <= S;
    ReadTwo(e, s, bpc, S, out, 2, bits, 0, 0, |out|, |out| + bits);
    assert bits > 0;
    IndexInside(s, bpc, S, ds.pos);
  }

  /** After one character the compressor holds it as w, registered and pending, and has written nothing. */
  lemma ScanOne(x: Text)
    requires |x| >= 1
    ensures C.Scan(x[..1]) == C.CState(map[[x[0]] := C.SizeOffset], {[x[0]]}, [x[0]], CompressorStart, [])
  {
    C.ScanSnoc(x, 0);
    assert x[..0] == [];
    assert C.Scan([]) == C.Start;
    C.SingletonAppend([], x[0]);
    assert C.Start.dict[[x[0]] := C.SizeOffset + |C.Start.dict|] == map[[x[0]] := C.SizeOffset];
  }

  /** The dictionary Begin leaves: the three reserved codes and the first character. */
  lemma FirstDict(x0: CodeUnit)
    ensures var dd := FirstState(x0).dict;
      KeysDense(dd) && |dd| == 4 && 3 in dd && dd[3] == [x0]
  {
    NumStrDictSize(3);
    AddNextKey(NumStrDict(3), [x0]);
  }

  /** The compressor's dictionary after two characters. */
  ghost function SecondDict(x0: CodeUnit, x1: CodeUnit): map<Text, nat>
  {
    if x1 == x0 then map[[x0] := 3, [x0, x0] := 4] else map[[x0] := 3, [x1] := 4, [x0, x1] := 5]
  }

  /** The compressor after its first character. */
  ghost function FirstCState(x0: CodeUnit): C.CState
  {
    C.CState(map[[x0] := C.SizeOffset], {[x0]}, [x0], CompressorStart, [])
  }

  /** Registering the second character. */
  lemma SecondRegister(x0: CodeUnit, x1: CodeUnit)
    ensures var st1 := C.Register(FirstCState(x0), x1);
      && st1.w == [x0] && st1.out == [] && st1.width == CompressorStart
      && st1.dict == (if x1 == x0 then map[[x0] := 3] else map[[x0] := 3, [x1] := 4])
      && st1.toCreate == (if x1 == x0 then {[x0]} else {[x0], [x1]})
  {
  }

  /** The second character is not a continuation of the first. */
  lemma SecondRestart(x0: CodeUnit, x1: CodeUnit)
    ensures var st1 := C.Register(FirstCState(x0), x1);
      st1.w + [x1] !in st1.dict && [x1] in st1.dict && [x0] in st1.toCreate
  {
    SecondRegister(x0, x1);
    assert |[x0] + [x1]| == 2;
  }

  /** After two characters the first has gone out as a literal at width 2, and w is the second. */
  lemma SecondState(x: Text)
    requires |x| >= 2
    ensures var st := C.Scan(x[..2]);
      && st.out == C.LiteralBits(x[0], 2) && st.width == DecompressorStart && st.w == [x[1]]
      && st.dict == SecondDict(x[0], x[1]) && st.toCreate == (if x[1] == x[0] then {} else {[x[1]]})
  {
    ScanOne(x);
    C.ScanSnoc(x, 1);
    var x0, x1 := x[0], x[1];
    var st1 := C.Register(FirstCState(x0), x1);
    SecondRegister(x0, x1);
    SecondRestart(x0, x1);
    assert C.Scan(x[..2]) == C.Restart(st1, x1);
    DecompressorStartsAfterFirstLiteral();
    assert C.EmitW(st1).width == DecompressorStart;
    SecondDictOf(x0, x1, st1.dict);
  }

  /** Registering [x0] + [x1] completes the dictionary after two characters. */
  lemma SecondDictOf(x0: CodeUnit, x1: CodeUnit, d: map<Text, nat>)
    requires d == (if x1 == x0 then map[[x0] := 3] else map[[x0] := 3, [x1] := 4])
    ensures d[[x0] + [x1] := C.SizeOffset + |d|] == SecondDict(x0, x1)
  {
    assert [x0] + [x1] == [x0, x1];
    if x1 != x0 {
      assert [x1] != [x0];
    }
  }

  /** The dictionaries after two characters are in step. */
  lemma FirstDictSim(x0: CodeUnit, x1: CodeUnit)
    ensures DictSim(SecondDict(x0, x1), if x1 == x0 then {} else {[x1]}, [x1], FirstState(x0).dict, [x0])
  {
    FirstDict(x0);
    assert [x0] + [x1] == [x0, x1];
    assert [x0, x1] != [x0] && [x0, x1] != [x1];
    if x1 != x0 {
      assert [x1] != [x0];
    }
  }

  /**
   * The second character makes the compressor emit the first as a literal
   * at width 2, which is what Begin reads: from there on the simulation holds.
   */
  lemma FirstSim(x: Text)
    requires |x| >= 2
    ensures C.Scan(x[..2]).out == C.LiteralBits(x[0], 2)
    ensures Sim(C.Scan(x[..2]), FirstState(x[0]), x[..2])
  {
    SecondState(x);
    C.ScanKeepsInv(x[..2]);
    FirstDict(x[0]);
    FirstDictSim(x[0], x[1]);
    assert Pow2(3) == 8;
    TakeTwo(x);
  }

  /** The first two characters. */
  lemma TakeTwo(x: Text)
    requires |x| >= 2
    ensures x[..2] == [x[0]] + [x[1]]
  {
  }

  // ---------------------------------------------------------------------
  // The whole run.

  /** The last emission and the end marker: the loop returns the whole input. */
  lemma FinishRun(e: Encoding, s: Text, bpc: nat, x: Text, ds: DState)
    requires bpc > 0 && Carries(e, s, bpc, C.Stream(x, bpc)) && |C.Stream(x, bpc)| <= |s| * bpc
    requires Sim(C.Scan(x), ds, x)
    ensures ds.width.bits > 0 && DecodeLoop(e, s, bpc, ds) == x
  {
    var S, st := C.Stream(x, bpc), C.Scan(x);
    var next := C.EmitW(st);
    ScanInStream(x, |x|, bpc);
    assert C.Finish(st) == next.out + BitsLE(C.EndMarker, next.width.bits);
    PrefixTrans(next.out, C.Finish(st), S);
    DecodeEmission(e, s, bpc, S, st, ds, x);
    EmitBalanced(st, ds, x);
    EndMarkerRead(e, s, bpc, S, next.out, AfterEmit(st, ds));
  }

  /**
   * One character more: the reader either stays where it is, or takes one
   * turn over what the compressor emitted.
   */
  lemma Turn(e: Encoding, s: Text, bpc: nat, x: Text, i: nat, ds: DState) returns (ds': DState)
    requires bpc > 0 && Carries(e, s, bpc, C.Stream(x, bpc)) && |C.Stream(x, bpc)| <= |s| * bpc
    requires i < |x| && Sim(C.Scan(x[..i]), ds, x[..i])
    ensures Sim(C.Scan(x[..i + 1]), ds', x[..i + 1])
    ensures ds' == ds || DecodeStep(e, s, bpc, ds) == Continue(ds')
  {
    var st, c := C.Scan(x[..i]), x[i];
    C.ScanSnoc(x, i);
    TakeSnoc(x, i);
    if C.Register(st, c).w + [c] in C.Register(st, c).dict {
      SimAfterExtend(st, ds, x[..i], c);
      ds' := ds;
    } else {
      SimAfterRestart(st, ds, x[..i], c);
      RestartOut(st, c);
      ScanInStream(x, i + 1, bpc);
      DecodeEmission(e, s, bpc, C.Stream(x, bpc), st, ds, x[..i]);
      ds' := AfterEmit(st, ds);
    }
  }

  /** The first i + 1 characters are the first i and then character i. */
  lemma TakeSnoc(x: Text, i: nat)
    requires i < |x|
    ensures x[..i + 1] == x[..i] + [x[i]]
  {
  }

  /** A state in the simulation has a positive width. */
  lemma SimWidth(st: C.CState, ds: DState, done: Text)
    requires Sim(st, ds, done)
    ensures ds.width.bits > 0
  {
  }

  /** One more character at a time, the loop still ends with the whole input. */
  lemma {:induction false} SimRun(e: Encoding, s: Text, bpc: nat, x: Text, i: nat, ds: DState)
    requires bpc > 0 && Carries(e, s, bpc, C.Stream(x, bpc)) && |C.Stream(x, bpc)| <= |s| * bpc
    requires i <= |x| && Sim(C.Scan(x[..i]), ds, x[..i])
    ensures ds.width.bits > 0 && DecodeLoop(e, s, bpc, ds) == x
    decreases |x| - i
  {
    SimWidth(C.Scan(x[..i]), ds, x[..i]);
    if i == |x| {
      assert x[..i] == x;
      FinishRun(e, s, bpc, x, ds);
    } else {
      var ds' := Turn(e, s, bpc, x, i, ds);
      SimRun(e, s, bpc, x, i + 1, ds');
    }
  }

  /** A single character goes out as a literal and the end marker at width 3. */
  lemma SingleRun(e: Encoding, s: Text, bpc: nat, x: Text)
    requires bpc > 0 && Carries(e, s, bpc, C.Stream(x, bpc)) && |C.Stream(x, bpc)| <= |s| * bpc
    requires |x| == 1
    ensures C.LiteralBits(x[0], 2) <= C.Stream(x, bpc)
    ensures DecodeLoop(e, s, bpc, FirstState(x[0])) == x
  {
    var S := C.Stream(x, bpc);
    ScanOne(x);
    assert x[..1] == x;
    DecompressorStartsAfterFirstLiteral();
    var lit := C.LiteralBits(x[0], 2);
    assert C.Finish(C.Scan(x)) == lit + BitsLE(C.EndMarker, 3);
    ScanInStream(x, 1, bpc);
    PrefixTrans(lit, C.Finish(C.Scan(x)), S);
    assert Pow2(3) == 8;
    EndMarkerRead(e, s, bpc, S, lit, FirstState(x[0]));
  }

  /** The characters baseCompress returns carry its whole bit stream, and there is at least one. */
  lemma StreamCarried(x: Text, e: Encoding)
    requires x != []
    ensures var bpc, s := BitsPerChar(e), C.CompressSpec(x, e);
      Carries(e, s, bpc, C.Stream(x, bpc)) && |C.Stream(x, bpc)| <= |s| * bpc && |s| > 0
  {
    var bpc := BitsPerChar(e);
    var S := C.Stream(x, bpc);
    C.FlushAppendsOneUnit(C.Finish(C.Scan(x)), bpc);
    EncodedCarries(e, S);
    PackLength(S, bpc);
  }

  /** Any string that carries the stream of x, in enough characters, decompresses to x. */
  lemma DecodesStream(x: Text, e: Encoding, s: Text)
    requires x != [] && |s| > 0
    requires Carries(e, s, BitsPerChar(e), C.Stream(x, BitsPerChar(e)))
    requires |C.Stream(x, BitsPerChar(e))| <= |s| * BitsPerChar(e)
    ensures DecompressSpec(s, e) == x
  {
    var bpc := BitsPerChar(e);
    var S := C.Stream(x, bpc);
    if |x| == 1 {
      SingleRun(e, s, bpc, x);
    } else {
      FirstSim(x);
      ScanInStream(x, 2, bpc);
      SimRun(e, s, bpc, x, 2, FirstState(x[0]));
    }
    BeginRead(e, s, bpc, S, x[0]);
  }

  /**
   * The round trip of baseCompress and baseDecompress: for every input and
   * every encoding, decompressing the compressed string gives the input back.
   */
  lemma RoundTripSpec(x: Text, e: Encoding)
    ensures DecompressSpec(C.CompressSpec(x, e), e) == x
  {
    if x != [] {
      StreamCarried(x, e);
      DecodesStream(x, e, C.CompressSpec(x, e));
    }
  }

  /** Characters after those that hold the stream change none of its bits. */
  lemma CarriesExtend(e: Encoding, s: Text, t: Text, bpc: nat, S: seq<bool>)
    requires bpc > 0 && Carries(e, s, bpc, S) && |S| <= |s| * bpc
    ensures Carries(e, s + t, bpc, S)
  {
    forall c | 0 <= c < |S|
      ensures StreamBit(e, s + t, bpc, c) == S[c]
    {
      DivAtLeast(c, |s|, bpc);
      CodeAtPrefix(e, s, t, c / bpc);
      StreamBitOf(e, s + t, bpc, c, CodeAt(e, s, c / bpc));
      StreamBitOf(e, s, bpc, c, CodeAt(e, s, c / bpc));
    }
  }

  /** charCodeFunc reads the same value from a character of s when more characters follow. */
  lemma CodeAtPrefix(e: Encoding, s: Text, t: Text, k: nat)
    requires k < |s|
    ensures CodeAt(e, s + t, k) == CodeAt(e, s, k)
  {
    assert (s + t)[k] == s[k];
  }
}
