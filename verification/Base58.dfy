/**
 * Base58: bytes as digits of a number in base 58, with a '1' for every leading zero byte. Both
 * directions convert in a buffer whose size is estimated in advance.
 */
module Base58 {
  import opened Basics
  import opened Arithmetic
  import opened Radix

  // ---- The estimates -----------------------------------------------------------------------------------

  lemma Pow256()
    ensures Pow(256, 4) == 4294967296 && Pow(256, 5) == 1099511627776 && Pow(256, 8) == 18446744073709551616
  {
    assert Pow(256, 1) == 256 && Pow(256, 2) == 65536 && Pow(256, 3) == 16777216;
    assert Pow(256, 6) == 281474976710656 && Pow(256, 7) == 72057594037927936;
  }

  lemma Pow58()
    ensures Pow(58, 6) == 38068692544 && Pow(58, 8) == 128063081718016 && Pow(58, 11) == 24986644000165537792
  {
    assert Pow(58, 1) == 58 && Pow(58, 2) == 3364 && Pow(58, 3) == 195112 && Pow(58, 4) == 11316496 &&
        Pow(58, 5) == 656356768;
    assert Pow(58, 7) == 2207984167552 && Pow(58, 9) == 7427658739644928 && Pow(58, 10) == 430804206899405824;
  }

  lemma Doubled(b: nat, n: nat, p: nat)
    requires Pow(b, n) == p
    ensures Pow(b, 2 * n) == p * p
  {
    PowAdds(b, n, n);
  }

  lemma Joined(b: nat, m: nat, n: nat, p: nat, q: nat)
    requires Pow(b, m) == p && Pow(b, n) == q
    ensures Pow(b, m + n) == p * q
  {
    PowAdds(b, m, n);
  }

  /** 71 digits in base 58 fit 52 bytes. */
  lemma Fits71()
    ensures Pow(58, 71) <= Pow(256, 52)
  {
    hide Pow;
    Pow58();
    Doubled(58, 8, 128063081718016);
    Doubled(58, 16, 16400152899115243850138976256);
    Doubled(58, 32, 268965015114358137726910587140455987105619365599731777536);
    Joined(58, 64, 6,
      72342179355466901471258927612150153907721848234316445933056526044582001260898145151856420451025374266490194231296,
      38068692544);
    Pow1();
    Joined(58, 70, 1,
      0x42a80443deb070f6a6540e34ca0fd38892d9fc7d024451112c093c5a49ccf46cb49e6f8654c8fcb364966400000000000000000,
      58);
    Pow256();
    Doubled(256, 8, 18446744073709551616);
    Doubled(256, 16, 340282366920938463463374607431768211456);
    Joined(256, 32, 16, 115792089237316195423570985008687907853269984665640564039457584007913129639936,
        340282366920938463463374607431768211456);
    Joined(256, 48, 4,
      0x1000000000000000000000000000000000000000000000000000000000000000000000000000000000000000000000000,
      4294967296);
  }

  lemma Pow1()
    ensures Pow(58, 1) == 58
  {
    assert Pow(58, 0) == 1;
  }

  /** 1000 digits in base 58 fit 733 bytes. */
  lemma DecodeRatio()
    ensures Pow(58, 1000) <= Pow(256, 733)
  {
    hide Pow, Times;
    Fits71();
    Pow58();
    Pow256();
    Split(58, 71, 14, 6);
    Split(256, 52, 14, 5);
    PowBaseMonotone(Pow(58, 71), Pow(256, 52), 14);
    TimesMonotone(Pow(Pow(58, 71), 14), Pow(Pow(256, 52), 14), Pow(58, 6), Pow(256, 5));
  }

  /** 100 bytes fit 138 digits in base 58. */
  lemma EncodeRatio()
    ensures Pow(256, 100) <= Pow(58, 138)
  {
    hide Pow, Times;
    Pow58();
    Pow256();
    Split(256, 8, 12, 4);
    Split(58, 11, 12, 6);
    PowBaseMonotone(Pow(256, 8), Pow(58, 11), 12);
    TimesMonotone(Pow(Pow(256, 8), 12), Pow(Pow(58, 11), 12), Pow(256, 4), Pow(58, 6));
  }

  lemma Split(b: nat, m: nat, k: nat, r: nat)
    ensures m * k >= 0 && Pow(b, m * k + r) == Times(Pow(Pow(b, m), k), Pow(b, r))
  {
    PowMultiplies(b, m, k);
    PowAdds(b, m * k, r);
  }

  lemma TimesMonotone(a: nat, a': nat, b: nat, b': nat)
    requires a <= a' && b <= b'
    ensures Times(a, b) <= Times(a', b')
  {
    MulMonotone(a, a', b);
    MulMonotone(b, b', a');
    TimesCommutes(b, a');
    TimesCommutes(b', a');
  }

  // ---- The alphabet ---------------------------------------------------------------------------------------

  /** Digits and letters in their order, without "0", "I", "O" and "l". */
  function CharOf(d: int): char
    requires 0 <= d < 58
  {
    (if d < 9 then d + '1' as int
     else if d < 17 then d - 9 + 'A' as int
     else if d < 22 then d - 17 + 'J' as int
     else if d < 33 then d - 22 + 'P' as int
     else if d < 44 then d - 33 + 'a' as int
     else d - 44 + 'm' as int) as char
  }

  function DigitOf(c: char): (d: int)
    ensures -1 <= d < 58
  {
    if '1' <= c <= '9' then c as int - '1' as int
    else if 'A' <= c <= 'H' then c as int - 'A' as int + 9
    else if 'J' <= c <= 'N' then c as int - 'J' as int + 17
    else if 'P' <= c <= 'Z' then c as int - 'P' as int + 22
    else if 'a' <= c <= 'k' then c as int - 'a' as int + 33
    else if 'm' <= c <= 'z' then c as int - 'm' as int + 44
    else -1
  }

  const CAPITALS := "123456789ABCDEFGHJKLMNPQRSTUVWXYZ"
  const SMALL := "abcdefghijkmnopqrstuvwxyz"
  const ALPHABET := CAPITALS + SMALL

  /** The digits are the letters of one string, in order. */
  lemma AlphabetIs(d: int)
    requires 0 <= d < 58
    ensures |ALPHABET| == 58 && CharOf(d) == ALPHABET[d]
  {
    assert |CAPITALS| == 33 && |SMALL| == 25;
    if d < 33 { CapitalsAre(d); } else { SmallAre(d - 33); }
  }

  lemma CapitalsAre(d: int)
    requires 0 <= d < 33
    ensures CharOf(d) == CAPITALS[d]
  {
  }

  lemma SmallAre(d: int)
    requires 0 <= d < 25
    ensures CharOf(d + 33) == SMALL[d]
  {
  }

  predicate IsSpace(c: char) { c == ' ' || c as int == 12 || c == '\n' || c == '\r' || c == '\t' || c as int == 11 }

  lemma CharRoundTrip(d: int)
    requires 0 <= d < 58
    ensures DigitOf(CharOf(d)) == d && !IsSpace(CharOf(d)) && (CharOf(d) == '1' <==> d == 0)
  {
  }

  lemma DigitRoundTrip(c: char)
    requires DigitOf(c) != -1
    ensures CharOf(DigitOf(c)) == c && !IsSpace(c) && c != '\0' && (DigitOf(c) == 0 <==> c == '1')
  {
  }

  // ---- Multiplying a buffer in place -------------------------------------------------------------------------

  /** The last `length` digits hold the number, and the first of them is not zero. */
  ghost predicate Trimmed(d: seq<int>, length: nat) {
    && length <= |d| && (forall k :: 0 <= k < |d| - length ==> d[k] == 0)
    && (length > 0 ==> d[|d| - length] != 0)
  }

  /** One digit of the product: what is written, and what is carried. */
  lemma CarryStep(old': int, ch: int, mul: int, base: nat, p: int, digit: int, carry: int, new': int)
    requires base >= 2 && 0 <= carry + mul * digit && new' + Times(carry, p) == Times(mul, old') + ch
    ensures var c := carry + mul * digit;
            Times(c % base, p) + new' + Times(c / base, Times(p, base)) == Times(mul, Times(digit, p) + old') + ch
  {
    var c := carry + mul * digit;
    var q, r := c / base, c % base;
    assert c == q * base + r;
    assert q * (p * base) == (q * base) * p;
    assert r * p + (q * base) * p == c * p;
    assert c * p == carry * p + mul * digit * p;
    assert mul * (digit * p + old') == mul * (digit * p) + mul * old';
    assert mul * digit * p == mul * (digit * p);
  }

  lemma ValueCons(x: int, d: seq<int>, b: nat)
    ensures Value([x] + d, b) == Times(x, Pow(b, |d|)) + Value(d, b)
  {
    ValueConcat([x], d, b);
    assert Value([x], b) == Times(Value([], b), b) + x;
  }

  lemma LeadingZeroes(d: seq<int>, n: nat, b: nat)
    requires n <= |d| && forall k :: 0 <= k < |d| - n ==> d[k] == 0
    ensures Value(d, b) == Value(d[|d| - n..], b)
  {
    var k := |d| - n;
    assert d == d[..k] + d[k..];
    ValueConcat(d[..k], d[k..], b);
    ZeroesValue(d[..k], b);
    TimesOne(Pow(b, n));
  }

  /** A product is at least as long as what is multiplied. */
  lemma StaysLong(old': seq<int>, new': seq<int>, base: nat, mul: nat, ch: nat)
    requires base >= 2 && mul >= 1 && AreDigits(old', base) && AreDigits(new', base) && |old'| == |new'| > 0 &&
               old'[0] != 0
    requires Value(new', base) == Times(mul, Value(old', base)) + ch
    ensures new'[0] != 0
  {
    hide Value, Pow;
    var n := |new'| - 1;
    NotZero(old', base);
    ValueNonNegative(old', base);
    MulAtLeast(mul, Value(old', base));
    assert new' == [new'[0]] + new'[1..];
    ValueCons(new'[0], new'[1..], base);
    ValueBounded(new'[1..], base);
    TimesOne(Pow(base, n));
  }

  /** buf := buf * mul + ch, from the last digit on, as far as there are digits or a carry. */
  method MulAdd(buf: array<int>, length: nat, mul: nat, base: nat, ch: nat) returns (n: nat)
    requires base >= 2 && mul >= 1 && AreDigits(buf[..], base) && Trimmed(buf[..], length)
    requires Times(mul, Value(buf[..], base)) + ch < Pow(base, buf.Length)
    modifies buf
    ensures AreDigits(buf[..], base) && Trimmed(buf[..], n) && length <= n
    ensures Value(buf[..], base) == Times(mul, old(Value(buf[..], base))) + ch
  {
    hide Value, Pow;
    ghost var d := buf[..];
    var size := buf.Length;
    var carry := ch;
    n := 0;
    ZeroDigits(d, size, base, mul, ch);
    while (carry != 0 || n < length) && n < size
      invariant 0 <= n <= size && carry >= 0 && AreDigits(buf[..], base) && buf[..size - n] == d[..size - n]
      invariant Value(buf[size - n..], base) + Times(carry, Pow(base, n)) == Times(mul, Value(d[size - n..], base)) + ch
      invariant n > length ==> carry != 0 || buf[size - n] != 0
    {
      var k := size - 1 - n;
      assert buf[..size - n][k] == d[..size - n][k];
      carry, n := OneDigit(buf, k, carry, n, mul, base, d, ch);
      assert n > length ==> carry != 0 || buf[k] != 0;
    }
    Finish(d, buf[..], n, length, mul, base, ch, carry);
    assert carry == 0;
  }

  lemma ZeroDigits(d: seq<int>, size: nat, base: nat, mul: nat, ch: nat)
    requires |d| == size
    ensures Value(d[size..], base) + Times(ch, Pow(base, 0)) == Times(mul, Value(d[size..], base)) + ch
  {
    assert d[size..] == [];
    TimesOne(ch);
    TimesOne(mul);
  }

  method OneDigit(buf: array<int>, k: nat, carry: nat, n: nat, mul: nat, base: nat, ghost d: seq<int>, ghost ch: int)
      returns (carry': nat, n': nat)
    requires base >= 2 && k < buf.Length == |d| && n == buf.Length - 1 - k && AreDigits(buf[..], base) && buf[k] == d[k]
    requires Value(buf[k + 1..], base) + Times(carry, Pow(base, n)) == Times(mul, Value(d[k + 1..], base)) + ch
    modifies buf
    ensures n' == n + 1 && AreDigits(buf[..], base) && forall j :: 0 <= j < k ==> buf[j] == old(buf[j])
    ensures Value(buf[k..], base) + Times(carry', Pow(base, n')) == Times(mul, Value(d[k..], base)) + ch
    ensures carry != 0 ==> carry' != 0 || buf[k] != 0
  {
    hide Value;
    ghost var rest := buf[k + 1..];
    MulNonNegative(mul, buf[k]);
    var c := carry + mul * buf[k];
    DivBounds(c, base);
    CarryStep(Value(d[k + 1..], base), ch, mul, base, Pow(base, n), buf[k], carry, Value(rest, base));
    buf[k] := c % base;
    carry' := c / base;
    n' := n + 1;
    assert buf[k..] == [buf[k]] + rest && d[k..] == [d[k]] + d[k + 1..];
    ValueCons(buf[k], rest, base);
    ValueCons(d[k], d[k + 1..], base);
    if c % base == 0 && c / base == 0 { assert c == c / base * base + c % base; }
  }

  lemma MulNonNegative(a: nat, b: nat)
    ensures a * b >= 0
  {
  }

  lemma NoCarry(v: nat, carry: nat, p: nat)
    requires v + Times(carry, p) < p
    ensures carry == 0
  {
    if carry != 0 { MulAtLeast(carry, p); }
  }

  lemma HeadsAgree(d: seq<int>, d': seq<int>, k: nat, length: nat)
    requires |d| == |d'| && k <= |d| && d'[..k] == d[..k] && Trimmed(d, length) && (k == 0 || k <= |d| - length)
    ensures forall j :: 0 <= j < k ==> d[j] == 0 && d'[j] == 0
  {
    forall j | 0 <= j < k ensures d[j] == 0 && d'[j] == 0 { assert d'[j] == d'[..k][j] == d[..k][j]; }
  }

  lemma LastCarry(d: seq<int>, d': seq<int>, n: nat, mul: nat, base: nat, ch: nat, carry: nat)
    requires base >= 2 && |d| == |d'| && n <= |d| && AreDigits(d', base) && (n == |d| || carry == 0)
    requires forall j :: 0 <= j < |d| - n ==> d[j] == 0 && d'[j] == 0
    requires Value(d'[|d| - n..], base) + Times(carry, Pow(base, n)) == Times(mul, Value(d[|d| - n..], base)) + ch
    requires Times(mul, Value(d, base)) + ch < Pow(base, |d|)
    ensures carry == 0 && Value(d', base) == Times(mul, Value(d, base)) + ch
    ensures Value(d'[|d| - n..], base) == Times(mul, Value(d[|d| - n..], base)) + ch
  {
    hide Value, Pow, Times;
    var k := |d| - n;
    LeadingZeroes(d, n, base);
    LeadingZeroes(d', n, base);
    ValueNonNegative(d'[k..], base);
    if n == |d| { NoCarry(Value(d'[k..], base), carry, Pow(base, n)); }
    TimesOne(Pow(base, n));
  }

  lemma Finish(d: seq<int>, d': seq<int>, n: nat, length: nat, mul: nat, base: nat, ch: nat, carry: nat)
    requires base >= 2 && mul >= 1 && |d| == |d'| && n <= |d| && AreDigits(d, base) && AreDigits(d', base) &&
               Trimmed(d, length)
    requires d'[..|d| - n] == d[..|d| - n] && (n == |d| || (carry == 0 && n >= length))
    requires Value(d'[|d| - n..], base) + Times(carry, Pow(base, n)) == Times(mul, Value(d[|d| - n..], base)) + ch
    requires Times(mul, Value(d, base)) + ch < Pow(base, |d|)
    requires n > length ==> carry != 0 || d'[|d| - n] != 0
    ensures carry == 0 && Trimmed(d', n) && length <= n && Value(d', base) == Times(mul, Value(d, base)) + ch
  {
    hide Value, Pow, Times, AreDigits;
    HeadsAgree(d, d', |d| - n, length);
    LastCarry(d, d', n, mul, base, ch, carry);
    if n == length && n > 0 { LengthKept(d, d', n, mul, base, ch); }
  }

  lemma LengthKept(d: seq<int>, d': seq<int>, n: nat, mul: nat, base: nat, ch: nat)
    requires base >= 2 && mul >= 1 && |d| == |d'| && 0 < n <= |d| && AreDigits(d, base) && AreDigits(d', base)
    requires Value(d'[|d| - n..], base) == Times(mul, Value(d[|d| - n..], base)) + ch && d[|d| - n] != 0
    ensures d'[|d| - n] != 0
  {
    hide Value, Times;
    StaysLong(d[|d| - n..], d'[|d| - n..], base, mul, ch);
  }

  // ---- Encoding ---------------------------------------------------------------------------------------------

  /** How many zeroes the bytes begin with. */
  function Zeroes(v: seq<int>): (z: nat)
    ensures z <= |v| && (forall i :: 0 <= i < z ==> v[i] == 0) && (z < |v| ==> v[z] != 0)
  {
    if v == [] || v[0] != 0 then 0 else 1 + Zeroes(v[1..])
  }

  function Chars(d: seq<int>): (s: string)
    requires AreDigits(d, 58)
    ensures |s| == |d| && forall i :: 0 <= i < |d| ==> s[i] == CharOf(d[i])
  {
    seq(|d|, i requires 0 <= i < |d| => CharOf(d[i]))
  }

  function Repeat<T>(x: T, n: nat): (s: seq<T>)
    ensures |s| == n && forall i :: 0 <= i < n ==> s[i] == x
  {
    seq(n, _ => x)
  }

  /** The digits in base 58 of the number that the bytes after the zeroes spell. */
  ghost function Number(v: seq<int>): (d: seq<int>)
    requires AreDigits(v, 256)
    ensures AreDigits(d, 58)
  {
    var r := v[Zeroes(v)..];
    ValueNonNegative(r, 256);
    DigitsAreDigits(Value(r, 256), 58);
    Digits(Value(r, 256), 58)
  }

  ghost function Encoded(v: seq<int>): string
    requires AreDigits(v, 256)
  {
    Repeat('1', Zeroes(v)) + Chars(Number(v))
  }

  /** Every prefix of n digits in base m is a number that the estimated buffer holds. */
  lemma Room(r: seq<int>, k: nat, m: nat, base: nat, num: nat, den: nat, n: nat)
    requires m >= 1 && base >= 1 && den >= 1 && Pow(m, den) <= Pow(base, num) && AreDigits(r, m) && k < |r| <= n
    ensures Estimate(n, num, den) >= 0 && Value(r[..k + 1], m) < Pow(base, Estimate(n, num, den))
    ensures Value(r[..k + 1], m) == Times(m, Value(r[..k], m)) + r[k]
  {
    EstimateHolds(m, base, num, den, n);
    ValueBounded(r[..k + 1], m);
    PowMonotone(m, k + 1, n);
    assert r[..k + 1][..k] == r[..k];
    TimesCommutes(m, Value(r[..k], m));
  }

  /** What a trimmed buffer shows is the number without leading zeroes. */
  lemma Shown(d: seq<int>, length: nat, base: nat)
    requires base >= 2 && AreDigits(d, base) && Trimmed(d, length)
    ensures Value(d, base) >= 0 && d[|d| - length..] == Digits(Value(d, base), base)
  {
    LeadingZeroes(d, length, base);
    DigitsOfValue(d[|d| - length..], base);
  }

  /** Converts digits in base m to a fresh buffer of digits in base b. */
  method Convert(r: seq<int>, m: nat, base: nat, num: nat, den: nat) returns (d: seq<int>)
    requires m >= 1 && base >= 2 && den >= 1 && Pow(m, den) <= Pow(base, num) && AreDigits(r, m)
    ensures Value(r, m) >= 0 && d == Digits(Value(r, m), base)
  {
    hide Value, Pow, Digits, Times;
    EstimateEnough(|r|, num, den);
    var size := Estimate(|r|, num, den);
    var buf := new int[size](_ => 0);
    ZeroesValue(buf[..], base);
    EmptyValue(r, m);
    var length := 0;
    for k := 0 to |r|
      invariant AreDigits(buf[..], base) && Trimmed(buf[..], length) && Value(buf[..], base) == Value(r[..k], m)
    {
      Room(r, k, m, base, num, den, |r|);
      length := MulAdd(buf, length, m, base, r[k]);
    }
    assert r[..|r|] == r;
    Shown(buf[..], length, base);
    d := buf[size - length..];
    assert d == buf[..][size - length..];
  }

  lemma EmptyValue(r: seq<int>, m: nat)
    ensures Value(r[..0], m) == 0
  {
  }

  method EncodeBase58(input: seq<int>) returns (str: string)
    requires AreDigits(input, 256)
    ensures str == Encoded(input)
  {
    hide Value, Pow, Digits;
    var zeroes := 0;
    while zeroes < |input| && input[zeroes] == 0
      invariant zeroes <= Zeroes(input)
    {
      zeroes := zeroes + 1;
    }
    EncodeRatio();
    var d := Convert(input[zeroes..], 256, 58, 138, 100);
    assert d == Number(input);
    str := Repeat('1', zeroes);
    for i := 0 to |d|
      invariant AreDigits(d, 58) && str == Repeat('1', zeroes) + Chars(d[..i])
    {
      assert Chars(d[..i + 1]) == Chars(d[..i]) + [CharOf(d[i])];
      str := str + [CharOf(d[i])];
    }
    assert d[..|d|] == d;
  }

  // ---- Decoding ---------------------------------------------------------------------------------------------

  /** The first position from i on that holds no space. */
  function PastSpaces(s: string, i: nat): (j: nat)
    requires i <= |s|
    ensures i <= j <= |s| && (forall k :: i <= k < j ==> IsSpace(s[k])) && (j < |s| ==> !IsSpace(s[j]))
    decreases |s| - i
  {
    if i < |s| && IsSpace(s[i]) then PastSpaces(s, i + 1) else i
  }

  function PastOnes(s: string, i: nat): (j: nat)
    requires i <= |s|
    ensures i <= j <= |s| && (forall k :: i <= k < j ==> s[k] == '1') && (j < |s| ==> s[j] != '1')
    decreases |s| - i
  {
    if i < |s| && s[i] == '1' then PastOnes(s, i + 1) else i
  }

  function PastWord(s: string, i: nat): (j: nat)
    requires i <= |s|
    ensures i <= j <= |s| && (forall k :: i <= k < j ==> !IsSpace(s[k])) && (j < |s| ==> IsSpace(s[j]))
    decreases |s| - i
  {
    if i < |s| && !IsSpace(s[i]) then PastWord(s, i + 1) else i
  }

  predicate IsWord(s: string) { forall i :: 0 <= i < |s| ==> DigitOf(s[i]) != -1 }

  function DigitsOf(s: string): (d: seq<int>)
    requires IsWord(s)
    ensures |d| == |s| && AreDigits(d, 58) && forall i :: 0 <= i < |s| ==> d[i] == DigitOf(s[i])
  {
    seq(|s|, i requires 0 <= i < |s| => DigitOf(s[i]))
  }

  ghost function Bytes(word: string): (v: seq<int>)
    requires IsWord(word)
    ensures AreDigits(v, 256)
  {
    ValueNonNegative(DigitsOf(word), 58);
    DigitsAreDigits(Value(DigitsOf(word), 58), 256);
    Digits(Value(DigitsOf(word), 58), 256)
  }

  /** Where the leading ones begin, where they end, and where the word ends. */
  function Parts(s: string): (p: (nat, nat, nat))
    ensures p.0 <= p.1 <= p.2 <= |s|
  {
    var a := PastSpaces(s, 0);
    var b := PastOnes(s, a);
    (a, b, PastWord(s, b))
  }

  /** A word between spaces, with room for its bytes. */
  ghost function Decoded(s: string, maxRetLen: int): Option<seq<int>> {
    var (a, b, c) := Parts(s);
    if '\0' in s || PastSpaces(s, c) < |s| || !IsWord(s[b..c]) then None
    else if (b > a && b - a > maxRetLen) || (c > b && b - a + |Bytes(s[b..c])| > maxRetLen) then None
    else Some(Repeat(0, b - a) + Bytes(s[b..c]))
  }

  // ---- The laws ------------------------------------------------------------------------------------------------

  lemma ZeroesOf(z: nat, r: seq<int>)
    requires r == [] || r[0] != 0
    ensures Zeroes(Repeat(0, z) + r) == z && (Repeat(0, z) + r)[z..] == r
  {
    var v := Repeat(0, z) + r;
    assert r != [] ==> v[z] == r[0];
  }

  lemma DigitsOfChars(d: seq<int>)
    requires AreDigits(d, 58)
    ensures IsWord(Chars(d)) && DigitsOf(Chars(d)) == d && forall i :: 0 <= i < |d| ==>
              !IsSpace(Chars(d)[i]) && Chars(d)[i] != '\0'
    ensures forall i :: 0 <= i < |d| ==> (Chars(d)[i] == '1' <==> d[i] == 0)
  {
    hide CharOf, DigitOf, IsSpace;
    forall i | 0 <= i < |d|
      ensures DigitOf(Chars(d)[i]) == d[i] && !IsSpace(Chars(d)[i]) && Chars(d)[i] != '\0' && (Chars(d)[i] == '1' <==>
                d[i] == 0)
    {
      CharRoundTrip(d[i]);
      DigitRoundTrip(Chars(d)[i]);
    }
  }

  lemma CharsOfDigits(s: string)
    requires IsWord(s)
    ensures Chars(DigitsOf(s)) == s
  {
    hide CharOf, DigitOf;
    forall i | 0 <= i < |s| ensures CharOf(DigitOf(s[i])) == s[i] { DigitRoundTrip(s[i]); }
  }

  /** The parts of a text that consists of ones and a word that does not begin with one. */
  lemma PartsOf(z: nat, w: string)
    requires forall i :: 0 <= i < |w| ==> !IsSpace(w[i])
    requires w == "" || w[0] != '1'
    ensures var s := Repeat('1', z) + w; Parts(s) == (0, z, |s|) && s[z..|s|] == w
  {
    var s := Repeat('1', z) + w;
    assert forall i :: 0 <= i < |s| ==> !IsSpace(s[i]);
    assert w != "" ==> s[z] == w[0];
    assert PastSpaces(s, 0) == 0;
    assert PastOnes(s, 0) == z;
    assert PastWord(s, z) == |s|;
  }

  /** Ones and a word that does not begin with one. */
  lemma DecodedWord(z: nat, w: string, maxRetLen: int)
    requires IsWord(w) && (forall i :: 0 <= i < |w| ==> !IsSpace(w[i]) && w[i] != '\0') && (w == "" || w[0] != '1')
    ensures Decoded(Repeat('1', z) + w, maxRetLen) ==
            if (z > 0 && z > maxRetLen) || (w != "" && z + |Bytes(w)| > maxRetLen) then None
            else Some(Repeat(0, z) + Bytes(w))
  {
    hide IsSpace, Bytes;
    var s := Repeat('1', z) + w;
    PartsOf(z, w);
    assert forall i :: 0 <= i < |s| ==> s[i] != '\0';
    assert s[z..|s|] == w;
  }

  /** Decoding what was encoded gives the bytes back exactly when there is room for them. */
  lemma RoundTrip(v: seq<int>, maxRetLen: int)
    requires AreDigits(v, 256)
    ensures Decoded(Encoded(v), maxRetLen) == Some(v) <==> |v| <= maxRetLen || v == []
  {
    hide CharOf, DigitOf, IsSpace, Value, Digits, Decoded;
    var z := Zeroes(v);
    var r := v[z..];
    var d := Number(v);
    DigitsOfChars(d);
    ValueNonNegative(r, 256);
    DigitsAreDigits(Value(r, 256), 58);
    EmptyDigits(Value(r, 256));
    DecodedWord(z, Chars(d), maxRetLen);
    ValueOfDigits(Value(r, 256), 58);
    DigitsOfValue(r, 256);
    assert v == Repeat(0, z) + r;
    LongEnough(r, d);
  }

  lemma EmptyDigits(n: nat)
    ensures Digits(n, 58) == [] <==> n == 0
  {
  }

  lemma LongEnough(r: seq<int>, d: seq<int>)
    requires AreDigits(r, 256) && (r == [] || r[0] != 0) && Value(r, 256) >= 0 && d == Digits(Value(r, 256), 58)
    ensures r == [] <==> d == []
  {
    if r != [] {
      NotZero(r, 256);
      PowPositive(256, |r| - 1);
    }
  }

  /** Encoding what was decoded gives the word back. */
  lemma Canonical(s: string, maxRetLen: int)
    requires Decoded(s, maxRetLen).Some?
    ensures AreDigits(Decoded(s, maxRetLen).value, 256) &&
              Encoded(Decoded(s, maxRetLen).value) == s[Parts(s).0..Parts(s).2]
  {
    hide CharOf, DigitOf, IsSpace, Value, Digits;
    var (a, b, c) := Parts(s);
    var w := s[b..c];
    var d := DigitsOf(w);
    var r := Bytes(w);
    ValueNonNegative(d, 58);
    FirstDigit(w);
    DigitsOfValue(d, 58);
    DigitsAreDigits(Value(d, 58), 256);
    NoDigits(Value(d, 58));
    ZeroesOf(b - a, r);
    ValueOfDigits(Value(d, 58), 256);
    CharsOfDigits(w);
    assert s[a..c] == Repeat('1', b - a) + w;
  }

  lemma NoDigits(n: nat)
    ensures n == 0 ==> Digits(n, 256) == []
  {
  }

  lemma FirstDigit(w: string)
    requires IsWord(w) && (w == "" || w[0] != '1')
    ensures DigitsOf(w) == [] || DigitsOf(w)[0] != 0
  {
    if w != "" { DigitRoundTrip(w[0]); }
  }

  /** Without spaces, the word is the whole text. */
  lemma WithoutSpaces(s: string)
    requires forall i :: 0 <= i < |s| ==> !IsSpace(s[i])
    ensures s[Parts(s).0..Parts(s).2] == s
  {
    assert Parts(s).0 == 0 && Parts(s).2 == |s|;
  }

  // ---- The decoder -----------------------------------------------------------------------------------------------

  /** The bytes of a longer word are not fewer. */
  lemma BytesGrow(w: string, k: nat)
    requires IsWord(w) && k <= |w|
    ensures IsWord(w[..k]) && |Bytes(w[..k])| <= |Bytes(w)|
  {
    hide DigitOf, Value, Digits;
    assert DigitsOf(w)[..k] == DigitsOf(w[..k]);
    PrefixSmaller(DigitsOf(w), k, 58);
    DigitsLonger(Value(DigitsOf(w[..k]), 58), Value(DigitsOf(w), 58), 256);
  }

  method DecodeBase58(str: string, maxRetLen: int) returns (r: Option<seq<int>>)
    ensures r == Decoded(str, maxRetLen)
  {
    hide DigitOf, IsSpace, Bytes;
    if '\0' in str { return None; }
    var a := 0;
    while a < |str| && IsSpace(str[a])
      invariant 0 <= a <= PastSpaces(str, 0)
    {
      a := a + 1;
    }
    assert a == PastSpaces(str, 0);
    var b, zeroes := a, 0;
    while b < |str| && str[b] == '1'
      invariant a <= b <= PastOnes(str, a) && zeroes == b - a && (zeroes > 0 ==> zeroes <= maxRetLen)
    {
      zeroes := zeroes + 1;
      if zeroes > maxRetLen { return None; }
      b := b + 1;
    }
    assert b == PastOnes(str, a);
    var ok, c, bytes := ConvertWord(str, b, zeroes, maxRetLen);
    if !ok { return None; }
    var e := c;
    while e < |str| && IsSpace(str[e])
      invariant c <= e <= PastSpaces(str, c)
    {
      e := e + 1;
    }
    assert e == PastSpaces(str, c);
    if e < |str| { return None; }
    r := Some(Repeat(0, zeroes) + bytes);
  }

  /** The characters up to the next space, multiplied into a buffer of estimated size. */
  method ConvertWord(str: string, b: nat, zeroes: nat, maxRetLen: int) returns (ok: bool, p: nat, bytes: seq<int>)
    requires b <= |str|
    ensures var c := PastWord(str, b);
            && (ok <==> IsWord(str[b..c]) && (c > b ==> zeroes + |Bytes(str[b..c])| <= maxRetLen))
            && (ok ==> p == c && bytes == Bytes(str[b..c]))
  {
    hide DigitOf, IsSpace, Value, Digits, Pow, Times;
    DecodeRatio();
    EstimateEnough(|str| - b, 733, 1000);
    var size := Estimate(|str| - b, 733, 1000);
    var buf := new int[size](_ => 0);
    ZeroesValue(buf[..], 256);
    EmptyWord(str, b);
    var length := 0;
    ghost var c := PastWord(str, b);
    p, bytes := b, [];
    while p < |str| && !IsSpace(str[p])
      invariant b <= p <= c && IsWord(str[b..p]) && AreDigits(buf[..], 256) && Trimmed(buf[..], length)
      invariant Value(buf[..], 256) == Value(DigitsOf(str[b..p]), 58) && (p > b ==> length + zeroes <= maxRetLen)
    {
      var carry := DigitOf(str[p]);
      if carry == -1 {
        assert str[b..c][p - b] == str[p];
        return false, p, [];
      }
      OneMore(str, b, p, |str| - b);
      length := MulAdd(buf, length, 58, 256, carry);
      p := p + 1;
      Shown(buf[..], length, 256);
      if length + zeroes > maxRetLen {
        TooLong(str[b..c], str[b..p], length);
        return false, p, [];
      }
    }
    ok := true;
    Shown(buf[..], length, 256);
    bytes := buf[size - length..];
    assert bytes == buf[..][size - length..];
  }

  lemma EmptyWord(str: string, b: nat)
    requires b <= |str|
    ensures IsWord(str[b..b]) && Value(DigitsOf(str[b..b]), 58) == 0
  {
  }

  lemma OneMore(str: string, b: nat, p: nat, n: nat)
    requires b <= p < |str| && IsWord(str[b..p]) && DigitOf(str[p]) != -1 && n == |str| - b
    ensures IsWord(str[b..p + 1]) && Estimate(n, 733, 1000) >= 0
    ensures Value(DigitsOf(str[b..p + 1]), 58) == Times(58, Value(DigitsOf(str[b..p]), 58)) + DigitOf(str[p])
    ensures Value(DigitsOf(str[b..p + 1]), 58) < Pow(256, Estimate(n, 733, 1000))
  {
    hide DigitOf, Value, Pow, Times;
    var w := str[b..p + 1];
    assert w == str[b..p] + [str[p]];
    var d := DigitsOf(w);
    assert d[..p - b] == DigitsOf(str[b..p]) && d[..p - b + 1] == d;
    DecodeRatio();
    Room(d, p - b, 58, 256, 733, 1000, n);
  }

  lemma TooLong(w: string, v: string, length: nat)
    requires |v| <= |w| && v == w[..|v|] && IsWord(v) && length == |Bytes(v)|
    ensures IsWord(w) ==> |Bytes(w)| >= length
  {
    if IsWord(w) { BytesGrow(w, |v|); }
  }

  // ---- A known encoding ------------------------------------------------------------------------------------------

  lemma FourDigits(a: int, b: int, c: int, d: int)
    ensures Value([a, b, c, d], 58) == 195112 * a + 3364 * b + 58 * c + d
    ensures Value([a, b, c], 256) == 65536 * a + 256 * b + c
  {
    assert [a, b, c, d][..3] == [a, b, c] && [a, b, c][..2] == [a, b] && [a, b][..1] == [a] && [a][..0] == [];
    assert Value([a], 58) == a && Value([a], 256) == a;
    assert Value([a, b], 58) == 58 * a + b && Value([a, b], 256) == 256 * a + b;
    assert Value([a, b, c], 58) == 58 * (58 * a + b) + c;
  }

  /** The bytes 98, 98, 98 are the digits 33, 2, 39, 28. */
  lemma KnownEncoding()
    ensures Encoded([98, 98, 98]) == "a3gV" && Encoded([0, 98, 98, 98]) == "1a3gV"
  {
    hide Value, Digits;
    FourDigits(98, 98, 98, 0);
    FourDigits(33, 2, 39, 28);
    DigitsOfValue([33, 2, 39, 28], 58);
    assert Zeroes([98, 98, 98]) == 0 && [98, 98, 98][0..] == [98, 98, 98];
    assert [0, 98, 98, 98][1..] == [98, 98, 98];
    assert Zeroes([0, 98, 98, 98]) == 1;
  }
}
