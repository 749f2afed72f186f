/**
 * Compact targets: a 32-bit form of a 256-bit number, with a byte count, a sign bit and 23 bits of
 * mantissa; and the work that a target stands for.
 */
module CompactBits {
  import opened Basics
  import opened Arithmetic
  import opened Radix
  import opened WordValue
  import opened ArithUint

  const WIDTH: nat := 8

  function SizeOf(n: U32): (s: nat)
    ensures s < 256
  {
    n / 0x100_0000
  }

  function MantissaOf(n: U32): (m: nat)
    ensures m < 0x80_0000
  {
    n % 0x80_0000
  }

  predicate SignOf(n: U32) { n / 0x80_0000 % 2 == 1 }

  /** v with k bytes taken off the end, and with k zero bytes put there. */
  function BytesOff(v: nat, k: nat): (r: int)
    ensures r >= 0
  {
    PowPositive(256, k);
    DivBounds(v, Pow(256, k));
    v / Pow(256, k)
  }

  function BytesOn(v: nat, k: nat): (r: int)
    ensures r >= 0
  {
    TimesNonNegative(v, Pow(256, k));
    Times(v, Pow(256, k))
  }

  /** The number that a compact form stands for, however large. */
  function Expanded(n: U32): (v: int)
    ensures v >= 0
  {
    if SizeOf(n) <= 3 then BytesOff(MantissaOf(n), 3 - SizeOf(n)) else BytesOn(MantissaOf(n), SizeOf(n) - 3)
  }

  function ByteLen(v: nat): nat { |Digits(v, 256)| }

  /** The three leading bytes. */
  function Leading(v: nat): (m: int)
    ensures m >= 0
  {
    if ByteLen(v) <= 3 then BytesOn(v, 3 - ByteLen(v)) else BytesOff(v, ByteLen(v) - 3)
  }

  /** The leading bit of the mantissa is the sign, so a mantissa that uses it loses its last byte. */
  function CompactMantissa(v: nat): int { if Leading(v) >= 0x80_0000 then Leading(v) / 256 else Leading(v) }
  function CompactSize(v: nat): nat { if Leading(v) >= 0x80_0000 then ByteLen(v) + 1 else ByteLen(v) }

  function Compacted(v: nat, negative: bool): int {
    CompactSize(v) * 0x100_0000 + CompactMantissa(v) + if negative && CompactMantissa(v) != 0 then 0x80_0000 else 0
  }

  // ---- Byte counts ---------------------------------------------------------------------------------------

  lemma {:induction false} LenBounds(v: nat)
    ensures v < Pow(256, ByteLen(v)) && (v > 0 ==> ByteLen(v) > 0 && Pow(256, ByteLen(v) - 1) <= v)
  {
    hide Value, Digits, Pow;
    ValueOfDigits(v, 256);
    DigitsAreDigits(v, 256);
    ValueBounded(Digits(v, 256), 256);
    if v > 0 { NotZero(Digits(v, 256), 256); }
  }

  lemma {:induction false} LenUnique(v: nat, k: nat)
    requires k > 0 && Pow(256, k - 1) <= v < Pow(256, k)
    ensures ByteLen(v) == k
  {
    hide Digits, Pow;
    LenBounds(v);
    PowPositive(256, k - 1);
    var n := ByteLen(v);
    if n < k { PowMonotone(256, n, k - 1); }
    if n > k { PowMonotone(256, k, n - 1); }
  }

  /** Bits rounded up to bytes. */
  lemma {:induction false} LenOfBits(v: nat, n: nat)
    requires v < Pow(2, n) && (n > 0 ==> Pow(2, n - 1) <= v)
    ensures ByteLen(v) == (n + 7) / 8
  {
    hide Digits, Pow;
    if n == 0 {
      Pow0();
      ZeroLen();
    } else {
      var k := (n + 7) / 8;
      PowOf256(k);
      PowOf256(k - 1);
      PowMonotone(2, n, 8 * k);
      PowMonotone(2, 8 * (k - 1), n - 1);
      LenUnique(v, k);
    }
  }

  lemma {:induction false} ZeroLen()
    ensures ByteLen(0) == 0
  {
  }

  lemma {:induction false} PowOf256(k: nat)
    ensures Pow(256, k) == Pow(2, 8 * k)
  {
    hide Pow;
    PowMultiplies(2, 8, k);
    Closed(8, k);
    EightBits();
  }

  lemma {:induction false} EightBits()
    ensures Pow(2, 8) == 256
  {
    assert Pow(2, 1) == 2 && Pow(2, 2) == 4 && Pow(2, 3) == 8 && Pow(2, 4) == 16 && Pow(2, 5) == 32 &&
        Pow(2, 6) == 64 && Pow(2, 7) == 128;
  }

  lemma {:induction false} Pows()
    ensures Pow(256, 0) == 1 && Pow(256, 1) == 256 && Pow(256, 2) == 65536 && Pow(256, 3) == 0x100_0000
  {
  }

  lemma {:induction false} LeadingBounded(v: nat)
    ensures Leading(v) < 0x100_0000 && (v > 0 ==> 65536 <= Leading(v)) && (v == 0 ==> Leading(v) == 0)
  {
    hide Digits, Pow, Times;
    LenBounds(v);
    Pows();
    ZeroLen();
    var k := ByteLen(v);
    if k <= 3 {
      PowAdds(256, k, 3 - k);
      PowPositive(256, 3 - k);
      TimesLess(v, Pow(256, k), Pow(256, 3 - k));
      if v > 0 {
        PowAdds(256, k - 1, 3 - k);
        TimesMonotoneLeft(Pow(256, k - 1), v, Pow(256, 3 - k));
      } else {
        TimesOne(Pow(256, 3 - k));
      }
    } else {
      PowAdds(256, 3, k - 3);
      PowAdds(256, 2, k - 3);
      PowPositive(256, k - 3);
      Between(v, Pow(256, k - 3), 65536, 0x100_0000);
    }
  }

  lemma {:induction false} Between(v: nat, p: nat, lo: int, hi: int)
    requires p >= 1 && Times(lo, p) <= v < Times(hi, p)
    ensures lo <= v / p < hi
  {
    var q := v / p;
    assert v == q * p + v % p;
    if q < lo { TimesLess(q, lo, p); }
    if q >= hi { TimesMonotoneLeft(hi, q, p); }
  }

  // ---- Compact forms are stable --------------------------------------------------------------------------------

  /** What is left of a number in its compact form. */
  function Truncated(v: nat): (t: int)
    ensures t >= 0
  {
    LeadingBounded(v);
    if CompactSize(v) <= 3 then BytesOff(CompactMantissa(v), 3 - CompactSize(v))
        else BytesOn(CompactMantissa(v), CompactSize(v) - 3)
  }

  lemma {:induction false} OffAfterOn(v: nat, k: nat)
    ensures BytesOff(BytesOn(v, k), k) == v
  {
    PowPositive(256, k);
    DivModUnique(v * Pow(256, k), Pow(256, k), v, 0);
  }

  lemma {:induction false} OneByteLess(v: nat, k: nat)
    requires k > 0
    ensures BytesOn(v, k) / 256 == BytesOn(v, k - 1)
  {
    hide Times;
    TimesAssociates(v, Pow(256, k - 1), 256);
    var x := BytesOn(v, k - 1);
    By256(x);
  }

  lemma {:induction false} By256(x: int)
    ensures Times(x, 256) == 256 * x && 256 * x / 256 == x
  {
  }

  /** A number with k bytes of which only the leading three are used. */
  lemma {:induction false} LeadingOf(m: nat, k: nat)
    requires k >= 3 && 65536 <= m < 0x100_0000
    ensures ByteLen(BytesOn(m, k - 3)) == k && Leading(BytesOn(m, k - 3)) == m
  {
    hide Digits, Pow, Times, BytesOff;
    Pows();
    PowAdds(256, 2, k - 3);
    PowAdds(256, 3, k - 3);
    PowPositive(256, k - 3);
    TimesMonotoneLeft(65536, m, Pow(256, k - 3));
    TimesLess(m, 0x100_0000, Pow(256, k - 3));
    LenUnique(BytesOn(m, k - 3), k);
    OffAfterOn(m, k - 3);
    if k == 3 {
      TimesOne(m);
      TimesOne(BytesOn(m, 0));
    }
  }

  /** Truncation only loses bytes, and the truncated number has the same compact form. */
  lemma {:induction false} TruncationIsStable(v: nat)
    ensures Truncated(v) <= v && CompactSize(Truncated(v)) == CompactSize(v) &&
              CompactMantissa(Truncated(v)) == CompactMantissa(v)
  {
    hide Digits, Pow, Times, BytesOff, BytesOn, Leading, ByteLen;
    LeadingBounded(v);
    var k, l := ByteLen(v), Leading(v);
    if k < 3 {
      LeadingShort(v);
      OffAfterOn(v, 3 - k);
      OneByteLess(v, 3 - k);
      OffAfterOn(v, 2 - k);
    } else {
      LongNotZero(v);
      var m := if l >= 0x80_0000 then l / 256 * 256 else l;
      LeadingLong(v);
      LeadingOf(m, k);
      if l >= 0x80_0000 { OneByteMore(l / 256, k - 3); }
      ThreeBytes(v);
      OnIsMonotone(m, l, k - 3);
    }
  }

  lemma {:induction false} LeadingClose(v: nat)
    requires ByteLen(v) >= 3
    ensures v < BytesOn(Leading(v) + 1, ByteLen(v) - 3)
  {
    hide Digits, Pow;
    var k := ByteLen(v);
    PowPositive(256, k - 3);
    Pows();
    TimesOne(v);
    TimesOne(BytesOn(v, 0));
    TimesOne(v + 1);
    if k > 3 { NextMultiple(v, Pow(256, k - 3)); }
  }

  lemma {:induction false} NextMultiple(v: nat, p: nat)
    requires p >= 1
    ensures v < Times(v / p + 1, p)
  {
    var q := v / p;
    assert v == q * p + v % p;
    assert (q + 1) * p == q * p + p;
  }

  lemma {:induction false} CloseEnough(v: nat, l: nat, m: nat, k: nat)
    requires BytesOn(m, k) <= v < BytesOn(l + 1, k) && m <= l && (l + 1 - m) * 0x8000 <= m
    ensures (v - BytesOn(m, k)) * 0x8000 <= v
  {
    hide Pow;
    var p := Pow(256, k);
    assert (l + 1) * p - m * p == (l + 1 - m) * p;
    assert (l + 1 - m) * p * 0x8000 == ((l + 1 - m) * 0x8000) * p;
    MulMonotone((l + 1 - m) * 0x8000, m, p);
  }

  /** A compact form keeps at least fifteen leading bits: it is off by at most one part in 2^15, and never above. */
  lemma {:induction false} CompactAccurate(v: nat)
    requires v < Modulus(WIDTH)
    ensures 0 <= Compacted(v, false) < 0x1_0000_0000
    ensures var e := Expanded(Compacted(v, false)); 0 <= v - e && (v - e) * 0x8000 <= v
  {
    hide Digits, Pow, Times, BytesOff, BytesOn, Leading, ByteLen;
    FieldsOf(v, false);
    LeadingBounded(v);
    TruncationIsStable(v);
    var k, l := ByteLen(v), Leading(v);
    if k < 3 {
      LeadingShort(v);
      OffAfterOn(v, 3 - k);
      OneByteLess(v, 3 - k);
      OffAfterOn(v, 2 - k);
    } else {
      LongNotZero(v);
      var m := if l >= 0x80_0000 then l / 256 * 256 else l;
      LeadingClose(v);
      if l >= 0x80_0000 { OneByteMore(l / 256, k - 3); }
      ThreeBytes(v);
      CloseEnough(v, l, m, k - 3);
    }
  }

  lemma {:induction false} LeadingShort(v: nat)
    requires ByteLen(v) < 3
    ensures Leading(v) == BytesOn(v, 3 - ByteLen(v))
  {
  }

  lemma {:induction false} LongNotZero(v: nat)
    requires ByteLen(v) >= 3
    ensures v > 0
  {
    ZeroLen();
  }

  lemma {:induction false} LeadingLong(v: nat)
    requires ByteLen(v) >= 3
    ensures BytesOn(Leading(v), ByteLen(v) - 3) <= v
  {
    hide Digits, Pow;
    var k := ByteLen(v);
    PowPositive(256, k - 3);
    Pows();
    TimesOne(v);
    TimesOne(BytesOn(v, 0));
  }

  /** With size three nothing is taken off. */
  lemma {:induction false} ThreeBytes(v: nat)
    requires ByteLen(v) >= 3
    ensures forall m: nat :: BytesOff(m, 0) == m == BytesOn(m, 0)
  {
    forall m: nat ensures BytesOff(m, 0) == m == BytesOn(m, 0) {
      Pows();
      TimesOne(m);
    }
  }

  lemma {:induction false} OneByteMore(m: nat, k: nat)
    ensures BytesOn(m, k + 1) == BytesOn(256 * m, k)
  {
    hide Times;
    TimesCommutes(Pow(256, k), 256);
    TimesAssociates(m, 256, Pow(256, k));
    By256(m);
  }

  lemma {:induction false} OnIsMonotone(m: nat, l: nat, k: nat)
    requires m <= l
    ensures BytesOn(m, k) <= BytesOn(l, k)
  {
    TimesMonotoneLeft(m, l, Pow(256, k));
  }

  lemma {:induction false} FitsBytes(v: nat)
    requires v < Modulus(WIDTH)
    ensures ByteLen(v) <= 32
  {
    hide Digits, Pow;
    PlaceOfBit(WIDTH, 0);
    Pow0();
    TimesOne(Pow(BASE, WIDTH));
    PowOf256(32);
    LenBounds(v);
    ZeroLen();
    if ByteLen(v) > 32 {
      PowMonotone(256, 32, ByteLen(v) - 1);
    }
  }

  /** A compact form is read back as it was written. */
  lemma {:induction false} FieldsOf(v: nat, negative: bool)
    requires v < Modulus(WIDTH)
    ensures var n := Compacted(v, negative);
            && 0 <= n < 0x1_0000_0000 && SizeOf(n) == CompactSize(v) && MantissaOf(n) == CompactMantissa(v)
            && (SignOf(n) <==> negative && CompactMantissa(v) != 0) && Expanded(n) == Truncated(v)
  {
    hide Digits, Leading, ByteLen, BytesOff, BytesOn;
    FitsBytes(v);
    LeadingBounded(v);
  }

  /** Writing, reading and writing again gives the same compact form, sign included, and never overflows. */
  lemma {:induction false} CompactIsStable(v: nat, negative: bool)
    requires v < Modulus(WIDTH)
    ensures var n := Compacted(v, negative);
            && 0 <= n < 0x1_0000_0000 && Expanded(n) <= v
            && Compacted(Expanded(n), SignOf(n) && Expanded(n) != 0) == n
  {
    hide Digits, Leading, ByteLen, Truncated, Expanded, CompactSize, CompactMantissa;
    FieldsOf(v, negative);
    TruncationIsStable(v);
    ZeroCompact(v);
  }

  lemma {:induction false} ZeroCompact(v: nat)
    ensures Truncated(v) == 0 ==> CompactMantissa(v) == 0
  {
    hide Digits, Pow, Times, BytesOff, BytesOn, Leading, ByteLen;
    TruncationIsStable(v);
    LeadingBounded(0);
  }

  // ---- Overflow --------------------------------------------------------------------------------------------------

  /** Four by cases what the byte count and the mantissa say about 2^256. */
  lemma {:induction false} OverflowIsExact(n: U32)
    ensures var size, m := SizeOf(n), MantissaOf(n);
            (Expanded(n) >= Modulus(WIDTH)) <==>
            m != 0 && size > 3 && (size > 34 || (m > 0xff && size > 33) || (m > 0xffff && size > 32))
  {
    hide Pow, Times, BytesOff;
    var size, m := SizeOf(n), MantissaOf(n);
    PlaceOfBit(WIDTH, 0);
    Pow0();
    TimesOne(Pow(BASE, WIDTH));
    PowOf256(32);
    Pows();
    if size <= 3 {
      OffSmaller(m, 3 - size);
      PowMonotone(256, 3, 32);
    } else if size <= 35 {
      PowAdds(256, 35 - size, size - 3);
      PowPositive(256, size - 3);
      Scaled(m, Pow(256, 35 - size), Pow(256, size - 3));
      if size <= 32 { PowMonotone(256, 3, 35 - size); }
    } else {
      PowMonotone(256, 32, size - 3);
      PowPositive(256, size - 3);
      Scaled(m, 1, Pow(256, size - 3));
      TimesOne(Pow(256, size - 3));
      TimesOne(m);
    }
  }

  lemma {:induction false} OffSmaller(m: nat, k: nat)
    ensures BytesOff(m, k) <= m
  {
    PowPositive(256, k);
    var p := Pow(256, k);
    var q := m / p;
    DivBounds(m, p);
    if q >= 1 { MulAtLeast(p, q); }
    TimesCommutes(p, q);
  }

  lemma {:induction false} Scaled(m: nat, t: nat, p: nat)
    requires p >= 1
    ensures Times(m, p) >= Times(t, p) <==> m >= t
    ensures m == 0 <==> Times(m, p) < p
  {
    hide Times;
    if m >= t { TimesMonotoneLeft(t, m, p); } else { TimesLess(m, t, p); }
    TimesOne(p);
    if m >= 1 { TimesMonotoneLeft(1, m, p); }
  }

  // ---- The operations --------------------------------------------------------------------------------------------

  method SetCompact(t: BaseUint, nCompact: U32) returns (fNegative: bool, fOverflow: bool)
    requires t.pn.Length == WIDTH
    modifies t.pn
    ensures t.Valid() && t.V() == Mod(Expanded(nCompact), WIDTH)
    ensures fNegative <==> SignOf(nCompact) && Expanded(nCompact) != 0
    ensures fOverflow <==> Expanded(nCompact) >= Modulus(WIDTH)
  {
    hide Pow, Times, Mod, BytesOff, BytesOn;
    var nSize, nWord := SizeOf(nCompact), MantissaOf(nCompact);
    OverflowIsExact(nCompact);
    if nSize <= 3 {
      OffSmaller(nWord, 3 - nSize);
      nWord := BytesOff(nWord, 3 - nSize);
      ModFits(nWord, WIDTH);
      t.AssignWord(nWord);
    } else {
      t.AssignWord(nWord);
      t.ShiftLeft(8 * (nSize - 3));
      ShiftedOn(nWord, nSize - 3);
    }
    fNegative := nWord != 0 && SignOf(nCompact);
    fOverflow := nWord != 0 && (nSize > 34 || (nWord > 0xff && nSize > 33) || (nWord > 0xffff && nSize > 32));
  }

  /** Shifting by whole bytes. */
  lemma {:induction false} ShiftedOn(m: nat, k: nat)
    ensures Times(m, Pow(2, 8 * k)) == BytesOn(m, k) && (BytesOn(m, k) == 0 <==> m == 0)
  {
    hide Times, Pow;
    PowOf256(k);
    PowPositive(256, k);
    Scaled(m, 1, Pow(256, k));
    TimesOne(Pow(256, k));
  }

  method GetCompact(a: BaseUint, fNegative: bool) returns (n: U32)
    requires a.Valid() && a.pn.Length == WIDTH
    ensures a.V() >= 0 && n == Compacted(a.V(), fNegative)
  {
    hide Pow, Leading, ByteLen, Val;
    ValBounded(a.pn[..]);
    var nSize, nCompact := LeadingBytes(a);
    LeadingBounded(a.V());
    FieldsOf(a.V(), fNegative);
    if nCompact >= 0x80_0000 {
      nCompact := nCompact / 256;
      nSize := nSize + 1;
    }
    assert nCompact < 0x80_0000 && nSize < 256;
    n := nSize * 0x100_0000 + nCompact + if fNegative && nCompact != 0 then 0x80_0000 else 0;
  }

  /** The byte count and the three leading bytes. */
  method LeadingBytes(a: BaseUint) returns (nSize: nat, nCompact: nat)
    requires a.Valid() && a.pn.Length == WIDTH
    ensures a.V() >= 0 && nSize == ByteLen(a.V()) && nCompact == Leading(a.V())
  {
    hide Pow, Times, Digits, BytesOff, BytesOn, Val;
    ValBounded(a.pn[..]);
    var bits := a.Bits();
    LenOfBits(a.V(), bits);
    nSize := (bits + 7) / 8;
    if nSize <= 3 {
      var low := a.GetLow64();
      ShortLow(a.V());
      nCompact := BytesOn(low, 3 - nSize);
    } else {
      var bn := new BaseUint.Copy(a);
      bn.ShiftRight(8 * (nSize - 3));
      ShiftedOff(a.V(), nSize - 3);
      LeadingBounded(a.V());
      nCompact := bn.GetLow64();
    }
  }

  lemma {:induction false} ShiftedOff(v: nat, k: nat)
    ensures Pow(2, 8 * k) >= 1 && v / Pow(2, 8 * k) == BytesOff(v, k)
  {
    hide Pow;
    PowOf256(k);
    PowPositive(2, 8 * k);
  }

  lemma {:induction false} ShortLow(v: nat)
    requires ByteLen(v) <= 3
    ensures v % U64 == v
  {
    hide Pow, Digits;
    LenBounds(v);
    PowMonotone(256, ByteLen(v), 3);
    Pows();
  }

  // ---- Work ------------------------------------------------------------------------------------------------------

  /** The division that avoids 2^256 gives the quotient of 2^256. */
  lemma {:induction false} WorkFormula(m: nat, t: nat)
    requires 1 <= t < m - 1
    ensures (m - 1 - t) / (t + 1) + 1 == m / (t + 1) < m
  {
    var d := t + 1;
    var q, r := (m - 1 - t) / d, (m - 1 - t) % d;
    assert m == (q + 1) * d + r;
    DivModUnique(m, d, q + 1, r);
    DivBounds(m - 1 - t, d);
    MulMonotone(2, d, q + 1);
    TimesCommutes(d, q + 1);
  }

  /** A target that fits is far enough below 2^256 for target + 1 to fit. */
  lemma {:induction false} TargetBelow(n: U32)
    requires Expanded(n) < Modulus(WIDTH)
    ensures Expanded(n) < Modulus(WIDTH) - 1
  {
    hide Pow, Times, BytesOff;
    var size, m := SizeOf(n), MantissaOf(n);
    PlaceOfBit(WIDTH, 0);
    Pow0();
    TimesOne(Pow(BASE, WIDTH));
    PowOf256(32);
    Pows();
    if size <= 3 {
      OffSmaller(m, 3 - size);
      PowMonotone(256, 3, 32);
    } else {
      EvenAbove(m, size - 3);
      EvenPower(32);
    }
  }

  lemma {:induction false} EvenPower(k: nat)
    requires k > 0
    ensures Pow(256, k) % 2 == 0
  {
    By256(Pow(256, k - 1));
  }

  lemma {:induction false} EvenAbove(m: nat, k: nat)
    requires k > 0
    ensures BytesOn(m, k) % 2 == 0
  {
    hide Times;
    TimesAssociates(m, Pow(256, k - 1), 256);
    By256(Times(m, Pow(256, k - 1)));
  }

  /** The expected number of hashes: 2^256 / (target + 1) for a target that is positive and fits, else 0. */
  method GetBlockProof(nBits: U32) returns (work: BaseUint)
    ensures fresh(work) && fresh(work.pn) && work.pn.Length == WIDTH && work.Valid()
    ensures var t := Expanded(nBits);
            work.V() == if t == 0 || SignOf(nBits) || t >= Modulus(WIDTH) then 0 else Modulus(WIDTH) / (t + 1)
  {
    hide Pow, Times, Mod, Expanded, Val;
    var target := new BaseUint.Zero(WIDTH);
    var fNegative, fOverflow := SetCompact(target, nBits);
    var zero := new BaseUint.Zero(WIDTH);
    if fOverflow || fNegative { return zero; }
    ghost var t := Expanded(nBits);
    ModFits(t, WIDTH);
    var cmp := target.CompareTo(zero);
    if cmp == 0 { return zero; }
    TargetBelow(nBits);
    WorkFormula(Modulus(WIDTH), t);
    work := target.Complement();
    target.Increment();
    ModFits(t + 1, WIDTH);
    var ok := work.Divide(target);
    assert ok;
    work.Increment();
    ModFits(Modulus(WIDTH) / (t + 1), WIDTH);
  }
}
