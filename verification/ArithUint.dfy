/**
 * Unsigned integers of a fixed number of 32-bit words. Every operator is a loop over words, with
 * 64-bit intermediates, and computes modulo 2 to the number of bits.
 */
module ArithUint {
  import opened Arithmetic
  import opened Bitwise
  import opened Radix
  import opened WordValue

  const U64: nat := 0x1_0000_0000_0000_0000

  class BaseUint {
    const pn: array<int>

    ghost predicate Valid()
      reads pn
    {
      AreWords(pn[..])
    }

    ghost function V(): int
      reads pn
    {
      Val(pn[..])
    }

    constructor Zero(width: nat)
      ensures fresh(pn) && pn.Length == width && Valid() && V() == 0
    {
      pn := new int[width](_ => 0);
      new;
      ValZeroes(pn[..]);
    }

    constructor Copy(b: BaseUint)
      requires b.Valid()
      ensures fresh(pn) && pn.Length == b.pn.Length && pn[..] == b.pn[..] && Valid() && V() == b.V()
    {
      var a := new int[b.pn.Length];
      for i := 0 to a.Length
        invariant forall k :: 0 <= k < i ==> a[k] == b.pn[k]
      {
        a[i] := b.pn[i];
      }
      pn := a;
      new;
      assert pn[..] == b.pn[..];
    }

    method Assign(b: BaseUint)
      requires b.Valid() && b.pn.Length == pn.Length
      modifies pn
      ensures Valid() && pn[..] == old(b.pn[..]) && V() == old(b.V())
    {
      ghost var y := b.pn[..];
      for i := 0 to pn.Length
        invariant forall k :: 0 <= k < i ==> pn[k] == y[k]
        invariant forall k :: i <= k < pn.Length ==> b.pn[k] == y[k]
      {
        pn[i] := b.pn[i];
      }
      assert pn[..] == y;
    }

    /** Assignment of a 64-bit number. */
    method AssignWord(b: nat)
      requires b < U64 && pn.Length >= 2
      modifies pn
      ensures Valid() && V() == b
    {
      hide Val;
      Clear();
      pn[0] := b % BASE;
      pn[1] := b / BASE;
      TwoWords(pn[..]);
    }

    method GetLow64() returns (n: nat)
      requires Valid() && pn.Length >= 2
      ensures n == V() % U64
    {
      hide Val;
      TwoWords(pn[..]);
      n := pn[0] + BASE * pn[1];
    }

    /** Leaves the low word of n at place i and returns the carry for the next place. */
    method Put(i: nat, n: nat) returns (carry: nat)
      requires Valid() && i < pn.Length
      modifies pn
      ensures Valid() && carry == n / BASE && pn[i] == n % BASE && forall k :: 0 <= k < pn.Length && k != i ==>
                pn[k] == old(pn[k])
      ensures Val(pn[..i + 1]) + At(carry, i + 1) == Val(old(pn[..])[..i]) + At(n, i)
    {
      hide Val, At;
      ghost var before := pn[..];
      pn[i] := n % BASE;
      carry := n / BASE;
      ValNext(pn[..], i);
      assert pn[..][..i] == before[..i] && pn[..][..i + 1] == pn[..i + 1];
      Carries(n, i);
    }

    // ---- Addition ---------------------------------------------------------------------------------------

    method Add(b: BaseUint)
      requires Valid() && b.Valid() && b.pn.Length == pn.Length
      modifies pn
      ensures Valid() && V() == Mod(old(V()) + old(b.V()), pn.Length)
    {
      hide Val, At, Pow;
      ghost var x, y := pn[..], b.pn[..];
      var carry := 0;
      Start(x, y);
      for i := 0 to pn.Length
        invariant 0 <= carry <= 1 && Valid() && Val(pn[..][..i]) + At(carry, i) == Val(x[..i]) + Val(y[..i])
        invariant forall k :: i <= k < pn.Length ==> pn[k] == x[k] && b.pn[k] == y[k]
      {
        var n := carry + pn[i] + b.pn[i];
        assert n < U64;
        AddStep(x, y, i, carry);
        carry := Put(i, n);
        assert pn[..][..i + 1] == pn[..i + 1];
      }
      Finish(pn[..], carry, x, y);
    }

    method Increment()
      requires Valid()
      modifies pn
      ensures Valid() && V() == Mod(old(V()) + 1, pn.Length)
    {
      hide Val, At, Pow, Mod;
      ghost var x, w := pn[..], pn.Length;
      One(x);
      var i := 0;
      while i < pn.Length
        invariant 0 <= i <= w && Valid() && Val(pn[..][..i]) + At(1, i) == Val(x[..i]) + 1
        invariant forall k :: i <= k < w ==> pn[k] == x[k]
      {
        ValNext(x, i);
        AtAdds(pn[i], 1, i);
        var carry := Put(i, pn[i] + 1);
        assert pn[..][..i + 1] == pn[..i + 1];
        i := i + 1;
        if pn[i - 1] != 0 {
          NoCarry(i);
          SameAbove(pn[..], x, i);
          ValBounded(pn[..]);
          ModFits(V(), w);
          return;
        }
      }
      ValWhole(x, w);
      ValWhole(pn[..], w);
      ValBounded(pn[..]);
      CutOff(V(), 1, Val(x) + 1, w);
    }

    method Complement() returns (ret: BaseUint)
      requires Valid()
      ensures fresh(ret) && fresh(ret.pn) && ret.pn.Length == pn.Length && ret.Valid() &&
                ret.V() == Modulus(pn.Length) - 1 - V()
    {
      hide Val, At, Pow;
      ret := new BaseUint.Zero(pn.Length);
      ghost var x, w := pn[..], pn.Length;
      ValWhole(x, w);
      ValWhole(ret.pn[..], w);
      Modulus0();
      for i := 0 to pn.Length
        invariant ret.Valid() && Val(ret.pn[..][..i]) + Val(x[..i]) == Modulus(i) - 1
      {
        ValNext(x, i);
        Complements(x[i], i);
        var carry := ret.Put(i, BASE - 1 - pn[i]);
        NoCarry(i + 1);
        assert ret.pn[..][..i + 1] == ret.pn[..i + 1];
      }
      ValWhole(ret.pn[..], w);
    }

    method Negate() returns (ret: BaseUint)
      requires Valid()
      ensures fresh(ret) && fresh(ret.pn) && ret.pn.Length == pn.Length && ret.Valid() &&
                ret.V() == Mod(0 - V(), pn.Length)
    {
      hide Val, Mod;
      ret := Complement();
      ret.Increment();
      TimesOne(Modulus(pn.Length));
      ModTurns(0 - V(), 1, pn.Length);
    }

    method Subtract(b: BaseUint)
      requires Valid() && b.Valid() && b.pn.Length == pn.Length
      modifies pn
      ensures Valid() && V() == Mod(old(V()) - old(b.V()), pn.Length)
    {
      hide Val, Mod;
      var m := b.Negate();
      ModAdds(V(), 0 - b.V(), pn.Length);
      Add(m);
    }

    // ---- Multiplication -------------------------------------------------------------------------------------

    method MultiplySmall(b32: nat)
      requires Valid() && b32 < BASE
      modifies pn
      ensures Valid() && V() == Mod(old(V()) * b32, pn.Length)
    {
      hide Val, At, Pow, Mod;
      ghost var x, w := pn[..], pn.Length;
      Start(x, x);
      ValWhole(x, w);
      TimesOne(b32);
      var carry := 0;
      for i := 0 to pn.Length
        invariant 0 <= carry < BASE && Valid() && Val(pn[..][..i]) + At(carry, i) == Times(b32, Val(x[..i]))
        invariant forall k :: i <= k < w ==> pn[k] == x[k]
      {
        FitsWord(carry, 0, b32, pn[i]);
        var n := carry + b32 * pn[i];
        assert n < U64;
        ScaleStep(x, i, carry, b32);
        carry := Put(i, n);
        assert pn[..][..i + 1] == pn[..i + 1];
      }
      ValWhole(pn[..], w);
      ValBounded(pn[..]);
      CutOff(V(), carry, Times(b32, Val(x)), w);
      TimesCommutes(b32, Val(x));
    }

    method Multiply(b: BaseUint)
      requires Valid() && b.Valid() && b.pn.Length == pn.Length
      modifies pn
      ensures Valid() && V() == Mod(old(V()) * old(b.V()), pn.Length)
    {
      hide Val, At, Pow, Mod;
      ghost var x, y, w := pn[..], b.pn[..], pn.Length;
      var a := new BaseUint.Zero(pn.Length);
      ghost var q := 0;
      ValWhole(x, w);
      TimesOne(Val(y));
      NoCarry(w);
      for j := 0 to pn.Length
        invariant fresh(a) && fresh(a.pn) && a.pn.Length == w && a.Valid() && pn[..] == x && b.pn[..] == y
        invariant a.V() + At(q, w) == Times(Val(x[..j]), Val(y))
      {
        ghost var more := a.AddProduct(pn[j], b, j);
        RowDone(x, y, j, q, more, w);
        q := q + more;
      }
      ValBounded(a.pn[..]);
      CutOff(a.V(), q, Times(Val(x), Val(y)), w);
      Assign(a);
    }

    /** Adds a word times b, moved up by j words; what runs over the top is a multiple of the modulus. */
    method AddProduct(x: nat, b: BaseUint, j: nat) returns (ghost more: int)
      requires Valid() && b.Valid() && b.pn.Length == pn.Length && j < pn.Length && x < BASE && pn != b.pn
      modifies pn
      ensures Valid() && V() + At(more, pn.Length) == old(V()) + At(Times(x, b.V()), j)
    {
      hide Val, At, Pow, Mod;
      ghost var a, y, w := pn[..], b.pn[..], pn.Length;
      var carry := 0;
      RowStart(a, y, x, j);
      var i := 0;
      while i + j < pn.Length
        invariant 0 <= i <= w - j && 0 <= carry < BASE && Valid() && b.pn[..] == y
        invariant Val(pn[..][..i + j]) + At(carry, i + j) == Val(a[..i + j]) + At(Times(x, Val(y[..i])), j)
        invariant forall k :: i + j <= k < w ==> pn[k] == a[k]
        invariant i == 0 ==> pn[..][..j] == a[..j]
      {
        FitsWord(carry, pn[i + j], x, b.pn[i]);
        var n := carry + pn[i + j] + x * b.pn[i];
        assert n < U64;
        RowStep(a, y, i, j, carry, x);
        carry := Put(i + j, n);
        assert pn[..][..i + j + 1] == pn[..i + j + 1];
        i := i + 1;
      }
      ValWhole(pn[..], w);
      ValWhole(a, w);
      more := RowEnd(y, i, j, x, carry);
    }

    // ---- Shifts ----------------------------------------------------------------------------------------------

    method Clear()
      modifies pn
      ensures Valid() && V() == 0 && forall k :: 0 <= k < pn.Length ==> pn[k] == 0
    {
      for i := 0 to pn.Length
        invariant forall k :: 0 <= k < i ==> pn[k] == 0
      {
        pn[i] := 0;
      }
      ValZeroes(pn[..]);
    }

    method ShiftLeft(shift: nat)
      requires Valid()
      modifies pn
      ensures Valid() && V() == Mod(Times(old(V()), Pow(2, shift)), pn.Length)
    {
      hide Val, At, Pow, Mod, Times;
      ghost var x, w := pn[..], pn.Length;
      var a := new BaseUint.Copy(this);
      Clear();
      var k, s := shift / 32, shift % 32;
      ghost var carry, m := 0, 0;
      if k <= w { ShiftStart(x, pn[..], k, s); }
      for i := 0 to pn.Length
        invariant a.pn != pn && a.pn[..] == x && Valid() && (k <= w ==> m == if i + k <= w then i else w - k)
        invariant k > w ==> forall j :: 0 <= j < w ==> pn[j] == 0
        invariant k <= w ==> Shifting(pn[..], x, k, s, m, carry)
      {
        if i + k < pn.Length {
          ShiftingCarry(pn[..], x, k, s, m, carry);
          ShiftStep(x, i, k, carry, Pow(2, s));
          carry := ShiftWord(a.pn[i], i + k, s, carry);
          m := m + 1;
          assert pn[..][..i + k + 1] == pn[..i + k + 1];
          assert Shifting(pn[..], x, k, s, m, carry);
        }
      }
      ShiftLeftDone(pn[..], x, shift, m, carry);
    }

    method ShiftRight(shift: nat)
      requires Valid()
      modifies pn
      ensures Valid() && Pow(2, shift) >= 1 && V() == old(V()) / Pow(2, shift)
    {
      hide Val, At, Pow, Times, LowBits, ShrWord, ShlWord, Or;
      ghost var x, w := pn[..], pn.Length;
      var a := new BaseUint.Copy(this);
      Clear();
      var k, s := shift / 32, shift % 32;
      for i := 0 to pn.Length
        invariant a.pn != pn && a.pn[..] == x && Valid()
        invariant i >= k && k < w ==> Unshifting(pn[..], x, k, s, i - k)
        invariant i < k || k >= w ==> forall j :: 0 <= j < w ==> pn[j] == 0
      {
        if i - k >= 0 {
          UnshiftWord(a.pn[i], i - k, k, s, x);
        }
      }
      ShiftRightDone(pn[..], x, shift);
      PowPositive(2, shift);
    }

    /** One word's contribution, in its own place and the one below. */
    method UnshiftWord(y: nat, m: nat, ghost k: nat, s: nat, ghost x: seq<int>)
      requires AreWords(x) && m + k < |x| && y == x[m + k] && s < 32 && pn.Length == |x| &&
                 Unshifting(pn[..], x, k, s, m)
      modifies pn
      ensures Unshifting(pn[..], x, k, s, m + 1)
    {
      hide Val, Pow, Times, LowBits, ShrWord, ShlWord, Or;
      ghost var before := pn[..];
      WordsOfShift(x, k, m, s);
      if m - 1 >= 0 && s != 0 {
        pn[m - 1] := Or(pn[m - 1], ShlWord(y, 32 - s));
      }
      pn[m] := Or(pn[m], ShrWord(y, s));
      UnshiftStep(x, k, m, s, before, pn[..]);
    }

    // ---- Comparison ----------------------------------------------------------------------------------------------

    method CompareTo(b: BaseUint) returns (r: int)
      requires Valid() && b.Valid() && b.pn.Length == pn.Length
      ensures (r < 0 <==> V() < b.V()) && (r == 0 <==> V() == b.V()) && (r > 0 <==> V() > b.V())
    {
      hide Val;
      var i := pn.Length;
      while i > 0
        invariant 0 <= i <= pn.Length && forall k :: i <= k < pn.Length ==> pn[k] == b.pn[k]
      {
        i := i - 1;
        SameAbove(pn[..], b.pn[..], i + 1);
        ValCompares(pn[..][..i + 1], b.pn[..][..i + 1]);
        ValCompares(b.pn[..][..i + 1], pn[..][..i + 1]);
        if pn[i] < b.pn[i] { return -1; }
        if pn[i] > b.pn[i] { return 1; }
      }
      assert pn[..] == b.pn[..];
      r := 0;
    }

    /** The number of bits without leading zeroes. */
    method Bits() returns (n: nat)
      requires Valid()
      ensures n <= 32 * pn.Length && V() < Pow(2, n) && (n > 0 ==> Pow(2, n - 1) <= V())
    {
      hide Val, Pow, Times;
      var pos := pn.Length;
      while pos > 0
        invariant 0 <= pos <= pn.Length && forall k :: pos <= k < pn.Length ==> pn[k] == 0
      {
        pos := pos - 1;
        if pn[pos] != 0 {
          var nbits := TopBit(pn[pos]);
          TopWordBits(pn[..], pos, nbits);
          return 32 * pos + nbits + 1;
        }
      }
      ValZeroes(pn[..]);
      Pow0();
      n := 0;
    }

    static method TopBit(x: nat) returns (nbits: nat)
      requires 0 < x < BASE
      ensures nbits < 32 && Pow(2, nbits) <= x < Pow(2, nbits + 1)
    {
      hide Pow;
      nbits := 31;
      Pow2Of32();
      while nbits > 0
        invariant nbits < 32 && x < Pow(2, nbits + 1)
      {
        BitSet(x, nbits);
        if ShrWord(x, nbits) % 2 == 1 { return; }
        nbits := nbits - 1;
      }
      Pow0();
    }

    // ---- Division ------------------------------------------------------------------------------------------------

    /** Sets a bit that is clear because all bits up to it are. */
    method SetBit(n: nat)
      requires Valid() && n < 32 * pn.Length && Clean(V(), n + 1)
      modifies pn
      ensures Valid() && V() == old(V()) + Pow(2, n) && Clean(V(), n)
    {
      hide Val, Pow, Clean, Or, ShlWord;
      ghost var before := pn[..];
      BitPlace(before, n);
      pn[n / 32] := Or(pn[n / 32], ShlWord(1, n % 32));
      WordChanged(before, pn[..], n / 32);
      CleanSum(Val(before), n);
    }

    /** Long division, bit by bit; false stands for the error on division by zero. */
    method Divide(b: BaseUint) returns (ok: bool)
      requires Valid() && b.Valid() && b.pn.Length == pn.Length
      modifies pn
      ensures Valid() && (ok <==> old(b.V()) != 0)
      ensures ok ==> V() == old(V()) / old(b.V())
      ensures !ok ==> V() == 0
    {
      hide Val, Pow, Times, Clean, Mod;
      ghost var A, D, w := V(), b.V(), pn.Length;
      ValBounded(pn[..]);
      ValBounded(b.pn[..]);
      var div := new BaseUint.Copy(b);
      var num := new BaseUint.Copy(this);
      Clear();
      var numBits := num.Bits();
      var divBits := div.Bits();
      if divBits == 0 {
        Pow0();
        return false;
      }
      PowPositive(2, divBits - 1);
      ok := true;
      if divBits > numBits {
        TooSmall(A, D, numBits, divBits);
        return;
      }
      var shift := numBits - divBits;
      Aligned(A, D, numBits, divBits, w);
      div.ShiftLeft(shift);
      CleanZero(shift + 1);
      while shift >= 0
        invariant -1 <= shift < 32 * w && div.pn != pn && num.pn != pn && div.pn != num.pn
        invariant div.pn.Length == num.pn.Length == w && Valid() && div.Valid() && num.Valid()
        invariant A == Times(V(), D) + num.V() && 0 <= num.V() < Times(D, Pow(2, shift + 1)) && Clean(V(), shift + 1)
        invariant shift >= 0 ==> div.V() == Times(D, Pow(2, shift))
      {
        ghost var q, r := V(), num.V();
        var cmp := num.CompareTo(div);
        DivisionStep(A, D, q, r, shift);
        CleanDown(q, shift);
        if cmp >= 0 {
          ValBounded(num.pn[..]);
          ValBounded(div.pn[..]);
          ModFits(num.V() - div.V(), w);
          num.Subtract(div);
          SetBit(shift);
        }
        div.ShiftRight(1);
        if shift > 0 { HalfOf(D, shift); }
        shift := shift - 1;
      }
      Pow0();
      TimesOne(D);
      QuotientOf(A, D, V(), num.V());
    }

    /** One word's contribution, in its own place and the next. */
    method ShiftWord(x: nat, j: nat, s: nat, ghost carry: int) returns (ghost carry': int)
      requires Valid() && j < pn.Length && x < BASE && s < 32 && pn[j] == carry && 0 <= carry < Pow(2, s)
      requires j + 1 < pn.Length ==> pn[j + 1] == 0
      modifies pn
      ensures Valid() && 0 <= carry' < Pow(2, s) && (j + 1 < pn.Length ==> pn[j + 1] == carry')
      ensures forall i :: 0 <= i < pn.Length && i != j && i != j + 1 ==> pn[i] == old(pn[i])
      ensures Val(pn[..j + 1]) + At(carry', j + 1) == Val(old(pn[..])[..j]) + At(carry + Times(x, Pow(2, s)), j)
    {
      hide Val, At, Pow, Times, Or, ShlWord, ShrWord;
      ghost var before := pn[..];
      carry' := ShrWord(x, 32 - s);
      WordShifted(x, s);
      JoinWords(carry, x, s);
      PowMonotone(2, s, 32);
      Pow2Of32();
      if j + 1 < pn.Length && s != 0 {
        pn[j + 1] := Or(pn[j + 1], ShrWord(x, 32 - s));
      }
      pn[j] := Or(pn[j], ShlWord(x, s));
      ValNext(pn[..], j);
      assert pn[..][..j] == before[..j] && pn[..][..j + 1] == pn[..j + 1];
      Carries(carry + Times(x, Pow(2, s)), j);
    }
  }

  lemma {:induction false} ShiftRightDone(d: seq<int>, x: seq<int>, shift: nat)
    requires AreWords(d) && AreWords(x) && |d| == |x|
    requires shift / 32 < |d| ==> Unshifting(d, x, shift / 32, shift % 32, |d| - shift / 32)
    requires shift / 32 >= |d| ==> forall j :: 0 <= j < |d| ==> d[j] == 0
    ensures 0 <= Val(d) && Pow(2, shift) >= 1 && Val(d) == Val(x) / Pow(2, shift)
  {
    hide Val, Pow, Times, LowBits;
    var k, s, w := shift / 32, shift % 32, |d|;
    ShiftFactor(shift);
    PowPositive(2, shift);
    PowPositive(2, s);
    ValBounded(x);
    ValBounded(d);
    if k < w {
      var m := w - k;
      LeadingZeroWords(d, m);
      assert x == x[..k] + x[k..] && x[k..k + m] == x[k..];
      ValConcat(x[..k], x[k..]);
      ValBounded(x[..k]);
      LowBound(x[k], s);
      TwoParts(Val(d), Pow(2, s), LowBits(x[k], s), Pow(BASE, k), Val(x[..k]));
      QuotientOf(Val(x), Pow(2, shift), Val(d), Times(LowBits(x[k], s), Pow(BASE, k)) + Val(x[..k]));
    } else {
      ValZeroes(d);
      PowMonotone(BASE, w, k);
      TimesLess(0, Pow(2, s), Pow(BASE, k));
      TimesOne(Pow(BASE, k));
      TimesOne(Pow(2, shift));
      QuotientOf(Val(x), Pow(2, shift), 0, Val(x));
    }
  }

  /** The highest possible bit is set exactly when the word is as large as that bit. */
  lemma {:induction false} BitSet(x: nat, n: nat)
    requires x < Pow(2, n + 1)
    ensures ShrWord(x, n) % 2 == 1 <==> Pow(2, n) <= x
  {
    hide Times;
    PowPositive(2, n);
    PowDoubles(n);
    var p := Pow(2, n);
    if p <= x { DivModUnique(x, p, 1, x - p); } else { DivModUnique(x, p, 0, x); }
  }

  lemma {:induction false} PowDoubles(n: nat)
    ensures Pow(2, n + 1) == 2 * Pow(2, n)
  {
    Twice(Pow(2, n));
  }

  /** The highest bit of the highest word that is not zero. */
  lemma {:induction false} TopWordBits(d: seq<int>, pos: nat, n: nat)
    requires AreWords(d) && pos < |d| && (forall k :: pos < k < |d| ==>
               d[k] == 0) && Pow(2, n) <= d[pos] < Pow(2, n + 1)
    ensures Pow(2, 32 * pos + n) <= Val(d) < Pow(2, 32 * pos + n + 1)
  {
    hide Val, Pow, Times;
    LeadingZeroWords(d, pos + 1);
    ValNext(d, pos);
    ValBounded(d[..pos]);
    PlaceOfBit(pos, n);
    PlaceOfBit(pos, n + 1);
    TimesMonotoneLeft(Pow(2, n), d[pos], Pow(BASE, pos));
    TimesLess(d[pos], Pow(2, n + 1), Pow(BASE, pos));
  }

  lemma {:induction false} PlaceOfBit(pos: nat, n: nat)
    ensures Pow(2, 32 * pos + n) == Times(Pow(2, n), Pow(BASE, pos))
  {
    hide Pow, Times;
    Pow2Of32();
    PowMultiplies(2, 32, pos);
    Closed(32, pos);
    PowAdds(2, n, 32 * pos);
  }

  lemma {:induction false} TimesMonotoneLeft(a: int, b: int, p: nat)
    requires a <= b
    ensures Times(a, p) <= Times(b, p)
  {
    assert b * p == a * p + (b - a) * p;
    assert (b - a) * p >= 0;
  }

  /** The low n bits are clear. */
  ghost predicate Clean(v: int, n: nat) {
    PowPositive(2, n);
    v % Pow(2, n) == 0
  }

  lemma {:induction false} CleanZero(n: nat)
    ensures Clean(0, n)
  {
    PowPositive(2, n);
  }

  lemma {:induction false} CleanTimes(v: int, n: nat) returns (k: int)
    requires Clean(v, n)
    ensures v == Times(k, Pow(2, n))
  {
    PowPositive(2, n);
    k := v / Pow(2, n);
  }

  lemma {:induction false} TimesClean(k: int, n: nat)
    ensures Clean(Times(k, Pow(2, n)), n)
  {
    PowPositive(2, n);
    DivModUnique(k * Pow(2, n), Pow(2, n), k, 0);
  }

  lemma {:induction false} CleanDown(v: int, n: nat)
    requires Clean(v, n + 1)
    ensures Clean(v, n)
  {
    hide Clean, Pow, Times;
    var k := CleanTimes(v, n + 1);
    PowDoubles(n);
    Regroup(k, Pow(2, n));
    TimesClean(2 * k, n);
  }

  lemma {:induction false} Regroup(k: int, p: int)
    ensures Times(k, 2 * p) == Times(2 * k, p)
  {
  }

  lemma {:induction false} CleanSum(v: int, n: nat)
    requires Clean(v, n + 1)
    ensures Clean(v + Pow(2, n), n)
  {
    hide Clean, Pow, Times;
    CleanDown(v, n);
    var k := CleanTimes(v, n);
    TimesDistributes(k, 1, Pow(2, n));
    TimesOne(Pow(2, n));
    TimesClean(k + 1, n);
  }

  lemma {:induction false} HalfOf(D: nat, shift: nat)
    requires shift > 0
    ensures Pow(2, 1) >= 1 && Times(D, Pow(2, shift)) / Pow(2, 1) == Times(D, Pow(2, shift - 1))
  {
    hide Times;
    PowDoubles(0);
    PowDoubles(shift - 1);
    var h := Times(D, Pow(2, shift - 1));
    Double(D, Pow(2, shift - 1));
    assert 2 * h / 2 == h;
  }

  lemma {:induction false} Double(d: int, p: int)
    ensures Times(d, 2 * p) == 2 * Times(d, p)
  {
  }

  lemma {:induction false} DivisionStep(A: int, D: nat, q: int, r: int, shift: nat)
    requires A == Times(q, D) + r && 0 <= r < Times(D, Pow(2, shift + 1))
    ensures var d := Times(D, Pow(2, shift));
            && (r >= d ==> A == Times(q + Pow(2, shift), D) + (r - d) && 0 <= r - d < d)
  {
    hide Times, Pow;
    PowDoubles(shift);
    Double(D, Pow(2, shift));
    TimesDistributes(q, Pow(2, shift), D);
    TimesCommutes(D, Pow(2, shift));
  }

  lemma {:induction false} TooSmall(A: int, D: int, numBits: nat, divBits: nat)
    requires 0 <= A < Pow(2, numBits) && numBits < divBits && Pow(2, divBits - 1) <= D
    ensures D > 0 && A / D == 0
  {
    PowMonotone(2, numBits, divBits - 1);
    DivModUnique(A, D, 0, A);
  }

  /** Shifted to the same length, the divisor does not overflow, and twice it exceeds the dividend. */
  lemma {:induction false} Aligned(A: int, D: int, numBits: nat, divBits: nat, w: nat)
    requires 1 <= divBits <= numBits <= 32 * w && 0 <= A < Pow(2, numBits) && Pow(2, divBits - 1) <= D < Pow(2, divBits)
    ensures var shift := numBits - divBits;
            && Mod(Times(D, Pow(2, shift)), w) == Times(D, Pow(2, shift)) && A < Times(D, Pow(2, shift + 1)) &&
                Times(0, D) == 0
  {
    hide Times, Pow, Mod;
    var shift := numBits - divBits;
    PowPositive(2, shift);
    PowAdds(2, divBits, shift);
    TimesLess(D, Pow(2, divBits), Pow(2, shift));
    PowMonotone(2, numBits, 32 * w);
    PlaceOfBit(w, 0);
    Pow0();
    TimesOne(Pow(BASE, w));
    TimesNonNegative(D, Pow(2, shift));
    ModFits(Times(D, Pow(2, shift)), w);
    PowAdds(2, divBits - 1, shift + 1);
    PowPositive(2, shift + 1);
    TimesMonotoneLeft(Pow(2, divBits - 1), D, Pow(2, shift + 1));
    TimesOne(D);
  }

  lemma {:induction false} WordChanged(d: seq<int>, d': seq<int>, i: nat)
    requires |d| == |d'| && i < |d| && forall k :: 0 <= k < |d| && k != i ==> d'[k] == d[k]
    ensures Val(d') == Val(d) + At(d'[i] - d[i], i)
  {
    hide Val, At;
    SameAbove(d, d', i + 1);
    ValNext(d, i);
    ValNext(d', i);
    assert d[..i] == d'[..i];
    AtAdds(d'[i] - d[i], d[i], i);
  }

  /** The bit's word has no bits up to it, so setting it adds its value. */
  lemma {:induction false} BitPlace(d: seq<int>, n: nat)
    requires AreWords(d) && n < 32 * |d| && Clean(Val(d), n + 1)
    ensures var x, b := d[n / 32], ShlWord(1, n % 32);
            b >= 0 && Or(x, b) == x + b < BASE && At(b, n / 32) == Pow(2, n)
  {
    hide Val, Pow, Times, Clean, ShlWord, Or;
    var i, s := n / 32, n % 32;
    var x := d[i];
    PlaceOfBit(i, s);
    OneBit(s);
    WordClean(d, n);
    var k := CleanTimes(x, s + 1);
    PowPositive(2, s + 1);
    NonNegativeFactor(k, Pow(2, s + 1), x);
    ShlIsTimes(k, s + 1);
    ShlIsTimes(1, s + 1);
    TimesOne(Pow(2, s + 1));
    PowDoubles(s);
    PowPositive(2, s);
    OrDisjoint(Pow(2, s), k, s + 1);
    FitsBelow(k, s, x);
  }

  lemma {:induction false} NonNegativeFactor(k: int, p: nat, x: nat)
    requires p >= 1 && x == Times(k, p)
    ensures k >= 0
  {
    if k < 0 { TimesLess(k, 0, p); }
  }

  lemma {:induction false} OneBit(s: nat)
    requires s < 32
    ensures ShlWord(1, s) == Pow(2, s) < BASE
  {
    hide Pow;
    PowMonotone(2, s + 1, 32);
    PowDoubles(s);
    PowPositive(2, s);
    Pow2Of32();
    TimesOne(Pow(2, s));
  }

  /** A multiple of 2^(s+1) below 2^32 leaves room for 2^s. */
  lemma {:induction false} FitsBelow(k: int, s: nat, x: int)
    requires s < 32 && x == Times(k, Pow(2, s + 1)) && 0 <= x < BASE
    ensures x + Pow(2, s) < BASE
  {
    hide Pow, Times;
    var p, q := Pow(2, s + 1), Pow(2, 31 - s);
    PowAdds(2, 31 - s, s + 1);
    Pow2Of32();
    PowPositive(2, s + 1);
    PowPositive(2, s);
    PowDoubles(s);
    if k >= q { TimesMonotoneLeft(q, k, p); }
    TimesLess(k, q, p);
  }

  lemma {:induction false} WordClean(d: seq<int>, n: nat)
    requires AreWords(d) && n < 32 * |d| && Clean(Val(d), n + 1)
    ensures Clean(d[n / 32], n % 32 + 1)
  {
    hide Val, Pow, Times, Clean;
    var i, s := n / 32, n % 32;
    var k := CleanTimes(Val(d), n + 1);
    PlaceOfBit(i, s + 1);
    var p, b := Pow(2, s + 1), Pow(BASE, i);
    assert d == d[..i] + d[i..];
    ValConcat(d[..i], d[i..]);
    ValBounded(d[..i]);
    TimesAssociates(k, p, b);
    OnlyHigh(Val(d[..i]), Val(d[i..]), Times(k, p), b);
    var rest := d[i + 1..];
    assert d[i..] == [d[i]] + rest;
    ValConcat([d[i]], rest);
    FirstWord(d[i], d, i);
    HighOut(d[i], Val(rest), k, s);
  }

  lemma {:induction false} OnlyHigh(low: int, high: int, k: int, b: nat)
    requires 0 <= low < b && low + Times(high, b) == Times(k, b)
    ensures low == 0 && high == k
  {
    assert low == (k - high) * b;
    Small(k - high, b);
  }

  lemma {:induction false} HighOut(x: int, rest: int, k: int, s: nat)
    requires s < 32 && x + Times(rest, Pow(BASE, 1)) == Times(k, Pow(2, s + 1))
    ensures Clean(x, s + 1)
  {
    hide Times, Clean, Pow;
    PowAdds(2, 31 - s, s + 1);
    Pow2Of32();
    BasePower();
    var p, q := Pow(2, s + 1), Pow(2, 31 - s);
    TimesAssociates(rest, q, p);
    TimesDistributes(k - Times(rest, q), Times(rest, q), p);
    TimesClean(k - Times(rest, q), s + 1);
  }

  lemma {:induction false} BasePower()
    ensures Pow(BASE, 1) == BASE
  {
    assert Pow(BASE, 0) == 1;
  }

  lemma {:induction false} TwoWords(d: seq<int>)
    requires AreWords(d) && |d| >= 2
    ensures Val(d) % U64 == d[0] + BASE * d[1]
    ensures (forall k :: 2 <= k < |d| ==> d[k] == 0) ==> Val(d) == d[0] + BASE * d[1]
  {
    hide Val, Times, Pow;
    assert d == d[..2] + d[2..];
    ValConcat(d[..2], d[2..]);
    ValNext(d, 1);
    ValNext(d, 0);
    assert d[..0] == [];
    BasePower();
    PowNext(2);
    NoWords();
    TimesOne(d[0]);
    Closed(d[1], BASE);
    Closed(BASE, BASE);
    Closed(Val(d[2..]), U64);
    if forall k :: 2 <= k < |d| ==> d[k] == 0 { ValZeroes(d[2..]); }
  }

  lemma {:induction false} NoWords()
    ensures Val([]) == 0 && Pow(BASE, 0) == 1
  {
  }

  lemma {:induction false} LowBound(x: nat, s: nat)
    ensures 0 <= LowBits(x, s) < Pow(2, s)
  {
    PowPositive(2, s);
  }

  lemma {:induction false} QuotientOf(a: int, d: nat, q: int, r: int)
    requires d >= 1 && a == Times(q, d) + r && 0 <= r < d
    ensures a / d == q && a % d == r
  {
    DivModUnique(a, d, q, r);
  }

  lemma {:induction false} TwoParts(v: int, p: nat, low: int, b: nat, below: int)
    requires 0 <= low < p && 0 <= below < b
    ensures below + Times(Times(p, v) + low, b) == Times(v, Times(p, b)) + Times(low, b) + below
    ensures 0 <= Times(low, b) + below < Times(p, b)
  {
    hide Times;
    TimesDistributes(Times(p, v), low, b);
    TimesCommutes(p, v);
    TimesAssociates(v, p, b);
    TimesLess(low, p, b);
    TimesNonNegative(low, b);
  }

  lemma {:induction false} LeadingZeroWords(d: seq<int>, m: nat)
    requires m <= |d| && forall j :: m <= j < |d| ==> d[j] == 0
    ensures Val(d) == Val(d[..m])
  {
    hide Val, Times, Pow;
    assert d == d[..m] + d[m..];
    ValConcat(d[..m], d[m..]);
    ValZeroes(d[m..]);
    TimesOne(Pow(BASE, m));
  }

  /** After m words of a right shift: the low bits of the first word are lost, the rest is in place. */
  ghost predicate Unshifting(d: seq<int>, x: seq<int>, k: nat, s: nat, m: nat)
    requires AreWords(x)
  {
    && |d| == |x| && m + k <= |d| && AreWords(d) && (forall j :: m <= j < |d| ==> d[j] == 0)
    && (m > 0 ==>
          && Times(Pow(2, s), Val(d[..m])) + LowBits(x[k], s) == Val(x[k..k + m])
          && d[m - 1] == ShrWord(x[k + m - 1], s))
  }

  lemma {:induction false} UnshiftStep(x: seq<int>, k: nat, m: nat, s: nat, d: seq<int>, d': seq<int>)
    requires AreWords(x) && Unshifting(d, x, k, s, m) && m + k < |x| && s < 32 && |d'| == |d|
    requires d'[m] == ShrWord(x[k + m], s) && forall j :: 0 <= j < |d| && j != m && j != m - 1 ==> d'[j] == d[j]
    requires m > 0 ==> d'[m - 1] == d[m - 1] + ShlWord(x[k + m], 32 - s)
    ensures Unshifting(d', x, k, s, m + 1)
  {
    hide Val, At, Times, Pow, LowBits, ShrWord, ShlWord;
    var y, p := x[k + m], Pow(2, s);
    WordShifted(y, 32 - s);
    WordsOfShift(x, k, m, s);
    ValNext(d', m);
    ValNext(x[k..k + m + 1], m);
    assert x[k..k + m + 1][..m] == x[k..k + m] && x[k..k + m + 1][..m + 1] == x[k..k + m + 1];
    TimesCommutes(p, ShrWord(y, s));
    if m == 0 {
      assert d'[..1] == [d'[0]];
      FirstWord(d'[0], x, k);
      assert d'[..0] == [] && x[k..k] == [];
    } else {
      ValNext(d', m - 1);
      ValNext(d, m - 1);
      assert d'[..m - 1] == d[..m - 1];
      AtAdds(d[m - 1], ShlWord(y, 32 - s), m - 1);
      Gathers(p, Val(d[..m]), ShlWord(y, 32 - s), LowBits(y, s), ShrWord(y, s), m);
    }
  }

  /** A word split at bit s and put back together one place lower. */
  lemma {:induction false} Gathers(p: int, v: int, hi: int, low: int, rest: int, m: nat)
    requires m > 0 && Times(p, hi) == Times(low, BASE)
    ensures Times(p, v + At(hi, m - 1) + At(rest, m)) == Times(p, v) + At(Times(rest, p) + low, m)
  {
    hide Times, Pow;
    TimesDistributes(v + At(hi, m - 1), At(rest, m), p);
    TimesDistributes(v, At(hi, m - 1), p);
    AtAdds(Times(rest, p), low, m);
    TimesCommutes(rest, p);
    AtScales(p, rest, m);
    AtScales(p, hi, m - 1);
    TimesAssociates(low, BASE, Pow(BASE, m - 1));
    TimesCommutes(BASE, Pow(BASE, m - 1));
    PowNext(m);
  }

  lemma {:induction false} PowNext(m: nat)
    requires m > 0
    ensures Pow(BASE, m) == Times(Pow(BASE, m - 1), BASE)
  {
  }

  lemma {:induction false} FirstWord(d: int, x: seq<int>, k: nat)
    requires k < |x|
    ensures Val([d]) == d && Val(x[k..k + 1]) == x[k] && At(d, 0) == d && At(x[k], 0) == x[k]
  {
    assert x[k..k + 1] == [x[k]];
    TimesOne(d);
    TimesOne(x[k]);
    assert [d][..0] == [] && [x[k]][..0] == [];
  }

  /** Both halves are words, and they do not overlap. */
  lemma {:induction false} WordsOfShift(x: seq<int>, k: nat, m: nat, s: nat)
    requires AreWords(x) && k + m < |x| && s < 32
    ensures var y := x[k + m];
            && 0 <= ShrWord(y, s) < BASE && 0 <= ShlWord(y, 32 - s) &&
                Times(Pow(2, s), ShlWord(y, 32 - s)) == Times(LowBits(y, s), BASE)
            && y == Times(ShrWord(y, s), Pow(2, s)) + LowBits(y, s)
            && (m > 0 ==> var z := ShrWord(x[k + m - 1], s);
                          z >= 0 && Or(z, ShlWord(y, 32 - s)) == z + ShlWord(y, 32 - s) < BASE)
            && Or(0, ShrWord(y, s)) == ShrWord(y, s) && (s == 0 ==> ShlWord(y, 32 - s) == 0)
  {
    hide Times, Pow, LowBits, ShrWord, ShlWord;
    var y := x[k + m];
    var r, q := LowBits(y, s), Pow(2, 32 - s);
    WordShifted(y, 32 - s);
    Halves(s);
    PowMonotone(2, 32 - s, 32);
    Pow2Of32();
    TimesCommutes(r, q);
    TimesAssociates(Pow(2, s), q, r);
    TimesCommutes(BASE, r);
    ShlIsTimes(r, 32 - s);
    ShlIsTimes(1, 32 - s);
    TimesOne(q);
    if m > 0 {
      WordShifted(x[k + m - 1], 32 - s);
      OrDisjoint(ShrWord(x[k + m - 1], s), r, 32 - s);
      TimesLess(r, Pow(2, s), q);
    }
    if s == 0 {
      Pow0();
      TimesOne(q);
    }
  }

  /** After m words: what is in place, and what was carried on. */
  ghost predicate Shifting(d: seq<int>, x: seq<int>, k: nat, s: nat, m: nat, carry: int) {
    && |d| == |x| && m + k <= |d| && 0 <= carry < Pow(2, s)
    && Val(d[..m + k]) + At(carry, m + k) == At(Times(Pow(2, s), Val(x[..m])), k)
    && (forall j :: m + k <= j < |d| ==> d[j] == if j == m + k then carry else 0)
  }

  lemma {:induction false} ShiftingCarry(d: seq<int>, x: seq<int>, k: nat, s: nat, m: nat, carry: int)
    requires Shifting(d, x, k, s, m, carry) && m + k < |d|
    ensures d[m + k] == carry && (m + k + 1 < |d| ==> d[m + k + 1] == 0)
  {
  }

  lemma {:induction false} ShiftStart(x: seq<int>, d: seq<int>, k: nat, s: nat)
    requires |d| == |x| && k <= |d| && forall j :: 0 <= j < |d| ==> d[j] == 0
    ensures Shifting(d, x, k, s, 0, 0)
  {
    hide Times;
    PowPositive(2, s);
    ValZeroes(d[..k]);
    TimesOne(Pow(2, s));
    NoCarry(k);
  }

  lemma {:induction false} ShiftStep(x: seq<int>, i: nat, k: nat, carry: int, p: int)
    requires i < |x|
    ensures At(Times(p, Val(x[..i])), k) - At(carry, i + k) + At(carry + Times(x[i], p), i + k) ==
              At(Times(p, Val(x[..i + 1])), k)
  {
    hide Val, At, Times;
    ValNext(x, i);
    TimesCommutes(x[i], p);
    AtAdds(carry, Times(p, x[i]), i + k);
    TimesDistributes(Val(x[..i]), At(x[i], i), p);
    AtAdds(Times(p, Val(x[..i])), Times(p, At(x[i], i)), k);
    MovedUp(p, x[i], i, k);
  }

  /** The bits carried into a word and the bits that stay there do not overlap. */
  lemma {:induction false} JoinWords(carry: nat, x: nat, s: nat)
    requires x < BASE && s < 32 && carry < Pow(2, s)
    ensures ShlWord(x, s) >= 0 && Or(carry, ShlWord(x, s)) == carry + ShlWord(x, s) < BASE
    ensures ShrWord(x, 32 - s) >= 0 && Or(0, ShrWord(x, 32 - s)) == ShrWord(x, 32 - s) && (s == 0 ==>
              ShrWord(x, 32 - s) == 0)
    ensures (carry + Times(x, Pow(2, s))) % BASE == carry + ShlWord(x, s) &&
              (carry + Times(x, Pow(2, s))) / BASE == ShrWord(x, 32 - s)
  {
    hide Pow, Times, ShlWord, ShrWord, LowBits;
    WordShifted(x, s);
    var p, q, r := Pow(2, s), Pow(2, 32 - s), LowBits(x, 32 - s);
    Halves(s);
    Pow0();
    ShlIsTimes(1, s);
    TimesOne(p);
    ShlIsTimes(r, s);
    OrDisjoint(carry, r, s);
    TimesLess(r, q, p);
    TimesCommutes(p, q);
    BaseDigit(ShrWord(x, 32 - s), carry + ShlWord(x, s));
  }

  lemma {:induction false} Pow0()
    ensures Pow(2, 0) == 1
  {
  }

  lemma {:induction false} BaseDigit(h: int, low: int)
    requires 0 <= low < BASE
    ensures (Times(h, BASE) + low) % BASE == low && (Times(h, BASE) + low) / BASE == h
  {
  }

  lemma {:induction false} ShiftLeftDone(d: seq<int>, x: seq<int>, shift: nat, m: nat, carry: int)
    requires AreWords(d) && |d| == |x|
    requires shift / 32 <= |d| ==> m + shift / 32 == |d| && Shifting(d, x, shift / 32, shift % 32, m, carry)
    requires shift / 32 > |d| ==> forall j :: 0 <= j < |d| ==> d[j] == 0
    ensures Val(d) == Mod(Times(Val(x), Pow(2, shift)), |d|)
  {
    hide Val, Pow, Times, Mod;
    var k, s, w := shift / 32, shift % 32, |d|;
    ShiftFactor(shift);
    TimesCommutes(Val(x), Pow(2, s));
    TimesAssociates(Val(x), Pow(2, s), Pow(BASE, k));
    ValBounded(d);
    if k <= w {
      ValWhole(d, w);
      var more := RowEnd(x, m, k, Pow(2, s), carry);
      CutOff(Val(d), more, At(Times(Pow(2, s), Val(x)), k), w);
    } else {
      ValZeroes(d);
      PowAdds(BASE, k - w, w);
      TimesAssociates(Times(Pow(2, s), Val(x)), Pow(BASE, k - w), Pow(BASE, w));
      CutOff(0, Times(Times(Pow(2, s), Val(x)), Pow(BASE, k - w)), At(Times(Pow(2, s), Val(x)), k), w);
    }
  }

  lemma {:induction false} ShiftFactor(shift: nat)
    ensures Pow(2, shift) == Times(Pow(2, shift % 32), Pow(BASE, shift / 32))
  {
    hide Pow, Times;
    Pow2Of32();
    PowMultiplies(2, 32, shift / 32);
    PowAdds(2, shift % 32, Times(32, shift / 32));
    Closed(32, shift / 32);
  }

  lemma {:induction false} RowStart(a: seq<int>, y: seq<int>, x: int, j: nat)
    requires j <= |a|
    ensures Val(a[..j]) + At(0, j) == Val(a[..j]) + At(Times(x, Val(y[..0])), j)
  {
    TimesOne(x);
    NoCarry(j);
  }

  lemma {:induction false} RowStep(a: seq<int>, y: seq<int>, i: nat, j: nat, carry: int, x: int)
    requires i < |y| && i + j < |a|
    ensures Val(a[..i + j]) + At(Times(x, Val(y[..i])), j) - At(carry, i + j) + At(carry + a[i + j] + x * y[i], i +
              j) ==
            Val(a[..i + j + 1]) + At(Times(x, Val(y[..i + 1])), j)
  {
    hide Val, At, Times;
    ValNext(a, i + j);
    ValNext(y, i);
    AtAdds(carry + a[i + j], Times(x, y[i]), i + j);
    AtAdds(carry, a[i + j], i + j);
    TimesDistributes(Val(y[..i]), At(y[i], i), x);
    AtAdds(Times(x, Val(y[..i])), Times(x, At(y[i], i)), j);
    MovedUp(x, y[i], i, j);
    Closed(x, y[i]);
  }

  lemma {:induction false} Closed(x: int, y: int)
    ensures Times(x, y) == x * y
  {
  }

  /** A product of a word at place i, moved up by j. */
  lemma {:induction false} MovedUp(x: int, y: int, i: nat, j: nat)
    ensures At(Times(x, At(y, i)), j) == At(Times(x, y), i + j)
  {
    hide Times, Pow;
    PowAdds(BASE, i, j);
    TimesAssociates(x, Times(y, Pow(BASE, i)), Pow(BASE, j));
    TimesAssociates(y, Pow(BASE, i), Pow(BASE, j));
    TimesAssociates(x, y, Pow(BASE, i + j));
  }

  /** The words of b that do not fit make a multiple of the modulus. */
  lemma {:induction false} RowEnd(y: seq<int>, i: nat, j: nat, x: int, carry: int) returns (more: int)
    requires i + j == |y|
    ensures At(Times(x, Val(y[..i])), j) - At(carry, i + j) + At(more, i + j) == At(Times(x, Val(y)), j)
  {
    hide Val, Times, Pow;
    assert y == y[..i] + y[i..];
    ValConcat(y[..i], y[i..]);
    var u := Val(y[i..]);
    more := carry + Times(x, u);
    AtAdds(carry, Times(x, u), i + j);
    TimesDistributes(Val(y[..i]), At(u, i), x);
    AtAdds(Times(x, Val(y[..i])), Times(x, At(u, i)), j);
    MovedUp(x, u, i, j);
  }

  lemma {:induction false} RowDone(x: seq<int>, y: seq<int>, j: nat, q: int, more: int, w: nat)
    requires j < |x|
    ensures Times(Val(x[..j]), Val(y)) - At(q, w) + At(Times(x[j], Val(y)), j) + At(q + more, w) - At(more, w) ==
              Times(Val(x[..j + 1]), Val(y))
  {
    hide Val, Times, Pow;
    ValNext(x, j);
    AtAdds(q, more, w);
    TimesDistributes(Val(x[..j]), At(x[j], j), Val(y));
    TimesAssociates(x[j], Val(y), Pow(BASE, j));
    TimesCommutes(Val(y), Pow(BASE, j));
    TimesAssociates(x[j], Pow(BASE, j), Val(y));
  }

  lemma {:induction false} One(x: seq<int>)
    ensures Val(x[..0]) + At(1, 0) == 1 && At(1, 0) == 1 && Val(x[..0]) == 0
  {
    TimesOne(Pow(BASE, 0));
  }

  lemma {:induction false} NoCarry(i: nat)
    ensures At(0, i) == 0
  {
    TimesOne(Pow(BASE, i));
  }

  lemma {:induction false} Modulus0()
    ensures Modulus(0) == 1
  {
  }

  lemma {:induction false} Complements(x: int, i: nat)
    ensures Modulus(i) + At(BASE - 1 - x, i) + At(x, i) == Modulus(i + 1)
  {
    hide Times;
    AtAdds(BASE - 1 - x, x, i);
    AtAdds(BASE - 1, 1, i);
    TimesOne(Pow(BASE, i));
    TimesCommutes(BASE, Pow(BASE, i));
  }

  /** Two words and a product of words fit 64 bits, and leave a carry of one word. */
  lemma {:induction false} FitsWord(carry: nat, a: nat, x: nat, y: nat)
    requires carry < BASE && a < BASE && x < BASE && y < BASE
    ensures 0 <= x * y && carry + a + x * y < U64 && (carry + a + x * y) / BASE < BASE
  {
    MulMonotone(x, BASE - 1, y);
    ProductOfWords(y);
    assert x * y <= (BASE - 1) * y;
  }

  lemma {:induction false} ProductOfWords(y: nat)
    requires y < BASE
    ensures (BASE - 1) * y <= (BASE - 1) * (BASE - 1)
  {
  }

  lemma {:induction false} ScaleStep(x: seq<int>, i: nat, carry: int, b: int)
    requires i < |x|
    ensures Times(b, Val(x[..i])) - At(carry, i) + At(carry + b * x[i], i) == Times(b, Val(x[..i + 1]))
  {
    hide Val;
    ValNext(x, i);
    AtAdds(carry, b * x[i], i);
    AtScales(b, x[i], i);
    TimesDistributes(Val(x[..i]), At(x[i], i), b);
  }

  lemma {:induction false} Finish(d: seq<int>, carry: int, x: seq<int>, y: seq<int>)
    requires AreWords(d) && |d| == |x| == |y| && Val(d[..|d|]) + At(carry, |d|) == Val(x[..|d|]) + Val(y[..|d|])
    ensures Val(d) == Mod(Val(x) + Val(y), |d|)
  {
    hide Val, At, Pow, Mod;
    ValWhole(d, |d|);
    ValWhole(x, |d|);
    ValWhole(y, |d|);
    ValBounded(d);
    CutOff(Val(d), carry, Val(x) + Val(y), |d|);
  }

  lemma {:induction false} Start(x: seq<int>, y: seq<int>)
    ensures Val(x[..0]) == 0 && Val(y[..0]) == 0 && At(0, 0) == 0
  {
    TimesOne(Pow(BASE, 0));
  }

  lemma {:induction false} AddStep(x: seq<int>, y: seq<int>, i: nat, carry: int)
    requires i < |x| && i < |y|
    ensures Val(x[..i]) + Val(y[..i]) - At(carry, i) + At(carry + x[i] + y[i], i) == Val(x[..i + 1]) + Val(y[..i + 1])
  {
    hide At, Val;
    ValNext(x, i);
    ValNext(y, i);
    AtAdds(carry + x[i], y[i], i);
    AtAdds(carry, x[i], i);
  }
}
