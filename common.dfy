/**
 * Vocabulary shared by the compressor and the decompressor: UTF-16 code
 * units, powers of two, and the two bit orders the wire format uses.
 *
 * A value is written to the stream least significant bit first (BitsLE),
 * while the writer packs the stream into output units by shifting each new
 * bit in at the bottom, so the first bit of a unit is its most significant
 * one (UnitBits). The lemmas here are the arithmetic facts that make those
 * two orders invert each other.
 */
module Common {

  /** One UTF-16 code unit: the element of a JavaScript string. */
  type CodeUnit = x: int | 0 <= x < 0x1_0000

  /** A JavaScript string, as the sequence of its UTF-16 code units. */
  type Text = seq<CodeUnit>

  function Pow2(n: nat): (r: nat)
    ensures r >= 1
  {
    if n == 0 then 1 else 2 * Pow2(n - 1)
  }

  lemma {:induction false} Pow2Monotone(m: nat, n: nat)
    requires m <= n
    ensures Pow2(m) <= Pow2(n)
  {
    if m < n {
      Pow2Monotone(m, n - 1);
    }
  }

  /**
   * Bit k of v, in two's complement when v is negative. For a mask that is
   * the power of two Pow2(k), JavaScript's `(v & mask) > 0` is exactly this
   * (for k < 31).
   */
  predicate Bit(v: int, k: nat)
  {
    (v / Pow2(k)) % 2 == 1
  }

  lemma MulLe(x: int, y: int, b: int)
    requires x <= y && b >= 0
    ensures x * b <= y * b
  {
    assert y * b - x * b == (y - x) * b;
  }

  /** Quotient and remainder are determined by the division equation. */
  lemma DivModUnique(a: int, b: int, q: int, r: int)
    requires b > 0 && 0 <= r < b && a == q * b + r
    ensures a / b == q && a % b == r
  {
    var d := q - a / b;
    assert a == (a / b) * b + a % b;
    assert d * b == a % b - r;
    if d >= 1 {
      MulLe(1, d, b);
    }
    if d <= -1 {
      MulLe(d, -1, b);
    }
  }

  lemma DivDiv(a: int, b: int, c: int)
    requires b > 0 && c > 0
    ensures a / b / c == a / (b * c)
  {
    var q, r := a / b, a % b;
    var q2, r2 := q / c, q % c;
    assert a == q * b + r;
    assert q == q2 * c + r2;
    assert q * b == q2 * (b * c) + r2 * b;
    MulLe(r2, c - 1, b);
    assert (c - 1) * b == b * c - b;
    DivModUnique(a, b * c, q2, r2 * b + r);
  }

  /** How a bit counter splits into a unit index and an offset, one step on. */
  lemma DivModSucc(p: nat, b: nat)
    requires b > 0
    ensures p % b < b - 1 ==> (p + 1) / b == p / b && (p + 1) % b == p % b + 1
    ensures p % b == b - 1 ==> (p + 1) / b == p / b + 1 && (p + 1) % b == 0
  {
    if p % b < b - 1 {
      DivModUnique(p + 1, b, p / b, p % b + 1);
    } else {
      DivModUnique(p + 1, b, p / b + 1, 0);
    }
  }

  /** Skipping one unit of b bits lowers the unit index by one and keeps the offset. */
  lemma DivShift(p: int, b: int)
    requires b > 0 && p >= b
    ensures p / b == (p - b) / b + 1 && p % b == (p - b) % b
  {
    var q, r := (p - b) / b, (p - b) % b;
    assert p - b == q * b + r;
    assert (q + 1) * b == q * b + b;
    DivModUnique(p, b, q + 1, r);
  }

  /** A bit offset lies past n units of b bits exactly when its unit index does. */
  lemma DivAtLeast(p: nat, n: nat, b: nat)
    requires b > 0
    ensures p / b >= n <==> p >= n * b
  {
    var q := p / b;
    assert p == q * b + p % b;
    if q >= n {
      assert q * b >= n * b;
    } else {
      assert q <= n - 1;
      assert q * b <= (n - 1) * b;
    }
  }

  /** The n low bits of v, least significant first: the order values are written in. */
  function BitsLE(v: int, n: nat): (r: seq<bool>)
    ensures |r| == n
    decreases n
  {
    if n == 0 then [] else [v % 2 == 1] + BitsLE(v / 2, n - 1)
  }

  /** The number whose bits, least significant first, are `bits`. */
  function ValueLE(bits: seq<bool>): (r: nat)
    ensures r < Pow2(|bits|)
  {
    if bits == [] then 0 else (if bits[0] then 1 else 0) + 2 * ValueLE(bits[1..])
  }

  lemma {:induction false} ValueLESnoc(bits: seq<bool>, b: bool)
    ensures ValueLE(bits + [b]) == ValueLE(bits) + (if b then Pow2(|bits|) else 0)
  {
    if bits != [] {
      assert (bits + [b])[1..] == bits[1..] + [b];
      ValueLESnoc(bits[1..], b);
    }
  }

  lemma ModDouble(v: int, p: int)
    requires p > 0
    ensures v % (2 * p) == 2 * ((v / 2) % p) + v % 2
  {
    var half, low := v / 2, v % 2;
    var q, m := half / p, half % p;
    assert half == q * p + m;
    assert v == 2 * half + low;
    assert 2 * (q * p) == q * (2 * p);
    DivModUnique(v, 2 * p, q, 2 * m + low);
  }

  /** Writing n bits of v and reading them back yields v modulo 2^n. */
  lemma {:induction false} ValueOfBitsLE(v: int, n: nat)
    ensures ValueLE(BitsLE(v, n)) == v % Pow2(n)
    decreases n
  {
    if n > 0 {
      var bits := BitsLE(v, n);
      assert bits[1..] == BitsLE(v / 2, n - 1);
      ValueOfBitsLE(v / 2, n - 1);
      ModDouble(v, Pow2(n - 1));
    }
  }

  /** n zero bits; the flush pads with these. */
  function Zeros(n: nat): (r: seq<bool>)
    ensures |r| == n
  {
    BitsLE(0, n)
  }

  lemma {:induction false} ZerosSnoc(n: nat)
    ensures Zeros(n + 1) == Zeros(n) + [false]
    ensures forall i :: 0 <= i < n ==> !Zeros(n)[i]
  {
    if n > 0 {
      ZerosSnoc(n - 1);
    }
  }

  /**
   * The w low bits of u, most significant first: the order in which the
   * writer shifts them into an output unit.
   */
  function UnitBits(u: int, w: nat): (r: seq<bool>)
    ensures |r| == w
    decreases w
  {
    if w == 0 then [] else UnitBits(u / 2, w - 1) + [u % 2 == 1]
  }

  lemma {:induction false} UnitBitsAt(u: int, w: nat, j: nat)
    requires j < w
    ensures UnitBits(u, w)[j] == Bit(u, w - 1 - j)
    decreases w
  {
    if j < w - 1 {
      UnitBitsAt(u / 2, w - 1, j);
      DivDiv(u, 2, Pow2(w - 2 - j));
    }
  }

  /** The number whose bits, most significant first, are `bits`. */
  function ValueMSB(bits: seq<bool>): (r: nat)
    ensures r < Pow2(|bits|)
  {
    if bits == [] then 0
    else 2 * ValueMSB(bits[..|bits| - 1]) + (if bits[|bits| - 1] then 1 else 0)
  }

  lemma {:induction false} ValueMSBOfUnitBits(u: int, w: nat)
    requires 0 <= u < Pow2(w)
    ensures ValueMSB(UnitBits(u, w)) == u
  {
    if w > 0 {
      assert UnitBits(u, w)[..w - 1] == UnitBits(u / 2, w - 1);
      ValueMSBOfUnitBits(u / 2, w - 1);
    }
  }

  lemma {:induction false} UnitBitsOfValueMSB(bits: seq<bool>)
    ensures UnitBits(ValueMSB(bits), |bits|) == bits
  {
    if bits != [] {
      var init := bits[..|bits| - 1];
      UnitBitsOfValueMSB(init);
      assert bits == init + [bits[|bits| - 1]];
    }
  }

  lemma AppendAssoc(a: seq<bool>, b: seq<bool>, c: seq<bool>)
    ensures (a + b) + c == a + (b + c)
  {
  }

  lemma AppendEmpty(a: seq<bool>)
    ensures a + [] == a
  {
  }

  /** Every unit fits in w bits. */
  predicate UnitsFit(units: seq<nat>, w: nat)
  {
    units == [] || (UnitsFit(units[..|units| - 1], w) && units[|units| - 1] < Pow2(w))
  }

  /** UnitsFit says that every unit is below 2^w. */
  lemma {:induction false} UnitsFitIff(units: seq<nat>, w: nat)
    ensures UnitsFit(units, w) <==> forall i :: 0 <= i < |units| ==> units[i] < Pow2(w)
  {
    if units != [] {
      UnitsFitIff(units[..|units| - 1], w);
    }
  }

  lemma UnitsFitSnoc(units: seq<nat>, u: nat, w: nat)
    requires UnitsFit(units, w) && u < Pow2(w)
    ensures UnitsFit(units + [u], w)
  {
    assert (units + [u])[..|units|] == units;
  }

  /** The bit stream carried by a sequence of w-bit units. */
  function Unpack(units: seq<int>, w: nat): seq<bool>
  {
    if units == [] then [] else Unpack(units[..|units| - 1], w) + UnitBits(units[|units| - 1], w)
  }

  /** Each unit carries w bits. */
  lemma {:induction false} UnpackLength(units: seq<int>, w: nat)
    ensures |Unpack(units, w)| == |units| * w
  {
    if units != [] {
      UnpackLength(units[..|units| - 1], w);
      assert (|units| - 1) * w + w == |units| * w;
    }
  }

  /** The stream starts with the first unit's bits. */
  lemma {:induction false} UnpackCons(units: seq<int>, w: nat)
    requires units != []
    ensures Unpack(units, w) == UnitBits(units[0], w) + Unpack(units[1..], w)
  {
    var n := |units| - 1;
    var init := units[..n];
    if n > 0 {
      UnpackCons(init, w);
      assert init[1..] == units[1..][..n - 1];
      AppendAssoc(UnitBits(units[0], w), Unpack(init[1..], w), UnitBits(units[n], w));
    } else {
      assert init == [] && units[1..] == [];
    }
  }

  /** The w-bit units carrying a bit stream; a trailing partial unit is dropped. */
  function Pack(bits: seq<bool>, w: nat): (r: seq<nat>)
    requires w > 0
    ensures forall i :: 0 <= i < |r| ==> r[i] < Pow2(w)
    decreases |bits|
  {
    if |bits| < w then [] else [ValueMSB(bits[..w])] + Pack(bits[w..], w)
  }

  lemma UnpackSnoc(units: seq<int>, u: int, w: nat)
    ensures Unpack(units + [u], w) == Unpack(units, w) + UnitBits(u, w)
  {
    assert (units + [u])[..|units|] == units;
  }

  /** Units in range are recovered from the stream they carry. */
  lemma {:induction false} PackOfUnpack(units: seq<int>, w: nat)
    requires w > 0
    requires forall i :: 0 <= i < |units| ==> 0 <= units[i] < Pow2(w)
    ensures Pack(Unpack(units, w), w) == units
  {
    if units != [] {
      var bits := Unpack(units, w);
      UnpackCons(units, w);
      assert bits[..w] == UnitBits(units[0], w);
      assert bits[w..] == Unpack(units[1..], w);
      ValueMSBOfUnitBits(units[0], w);
      PackOfUnpack(units[1..], w);
    }
  }

  /** A non-empty stream of whole units holds at least one unit. */
  lemma WholeUnitsNonEmpty(n: nat, w: nat)
    requires w > 0 && n > 0 && n % w == 0
    ensures n >= w
  {
    assert n == (n / w) * w;
    assert n / w >= 1;
    DivAtLeast(n, 1, w);
  }

  /** Bit (|bits| - 1 - p) of the number whose bits, most significant first, are `bits` is bits[p]. */
  lemma BitOfValueMSB(bits: seq<bool>, p: nat)
    requires p < |bits|
    ensures Bit(ValueMSB(bits), |bits| - 1 - p) == bits[p]
  {
    UnitBitsOfValueMSB(bits);
    UnitBitsAt(ValueMSB(bits), |bits|, p);
  }

  /**
   * Bit p of a stream of whole units is bit (w - 1 - p % w) of unit p / w of
   * its packing: the reader finds each bit where the writer put it.
   */
  lemma {:induction false} PackAt(bits: seq<bool>, w: nat, p: nat)
    requires w > 0 && |bits| % w == 0 && p < |bits|
    ensures p / w < |Pack(bits, w)| && Bit(Pack(bits, w)[p / w], w - 1 - p % w) == bits[p]
    decreases |bits|
  {
    WholeUnitsNonEmpty(|bits|, w);
    var head, rest := bits[..w], bits[w..];
    var packed := Pack(bits, w);
    assert packed == [ValueMSB(head)] + Pack(rest, w);
    if p < w {
      DivModUnique(p, w, 0, p);
      BitOfValueMSB(head, p);
      assert head[p] == bits[p];
    } else {
      DivShift(p, w);
      DivShift(|bits|, w);
      PackAt(rest, w, p - w);
      assert rest[p - w] == bits[p];
      assert packed[p / w] == Pack(rest, w)[(p - w) / w];
    }
  }
}
