/**
 * Cash addresses as text: a prefix, a colon, and the symbols of the payload and its checksum in a
 * 32-letter alphabet; all of one case.
 */
module CashAddrText {
  import opened Bitwise
  import opened CashAddr

  // ---- The alphabet ------------------------------------------------------------------------------------

  function Charset(v: Sym): char {
    match v
    case 0 => 'q'
    case 1 => 'p'
    case 2 => 'z'
    case 3 => 'r'
    case 4 => 'y'
    case 5 => '9'
    case 6 => 'x'
    case 7 => '8'
    case 8 => 'g'
    case 9 => 'f'
    case 10 => '2'
    case 11 => 't'
    case 12 => 'v'
    case 13 => 'd'
    case 14 => 'w'
    case 15 => '0'
    case 16 => 's'
    case 17 => '3'
    case 18 => 'j'
    case 19 => 'n'
    case 20 => '5'
    case 21 => '4'
    case 22 => 'k'
    case 23 => 'h'
    case 24 => 'c'
    case 25 => 'e'
    case 26 => '6'
    case 27 => 'm'
    case 28 => 'u'
    case 29 => 'a'
    case 30 => '7'
    case 31 => 'l'
  }

  function CharsetRev(c: char): (v: int)
    ensures -1 <= v < 32
  {
    match c
    case 'q' => 0 case 'Q' => 0
    case 'p' => 1 case 'P' => 1
    case 'z' => 2 case 'Z' => 2
    case 'r' => 3 case 'R' => 3
    case 'y' => 4 case 'Y' => 4
    case '9' => 5
    case 'x' => 6 case 'X' => 6
    case '8' => 7
    case 'g' => 8 case 'G' => 8
    case 'f' => 9 case 'F' => 9
    case '2' => 10
    case 't' => 11 case 'T' => 11
    case 'v' => 12 case 'V' => 12
    case 'd' => 13 case 'D' => 13
    case 'w' => 14 case 'W' => 14
    case '0' => 15
    case 's' => 16 case 'S' => 16
    case '3' => 17
    case 'j' => 18 case 'J' => 18
    case 'n' => 19 case 'N' => 19
    case '5' => 20
    case '4' => 21
    case 'k' => 22 case 'K' => 22
    case 'h' => 23 case 'H' => 23
    case 'c' => 24 case 'C' => 24
    case 'e' => 25 case 'E' => 25
    case '6' => 26
    case 'm' => 27 case 'M' => 27
    case 'u' => 28 case 'U' => 28
    case 'a' => 29 case 'A' => 29
    case '7' => 30
    case 'l' => 31 case 'L' => 31
    case _ => -1
  }

  /** Sets bit 5 of the character code. */
  function LowerCase(c: char): char
    requires c as int < 256
  {
    if c as int / 32 % 2 == 0 then (c as int + 32) as char else c
  }

  predicate IsLower(c: char) { 'a' <= c <= 'z' }
  predicate IsUpper(c: char) { 'A' <= c <= 'Z' }
  predicate IsDigit(c: char) { '0' <= c <= '9' }

  lemma CharsetRoundTrip(v: Sym)
    ensures CharsetRev(Charset(v)) == v && (IsLower(Charset(v)) || IsDigit(Charset(v)))
  {
  }

  lemma RevRoundTrip(c: char)
    requires CharsetRev(c) != -1
    ensures c as int < 128 && (IsLower(c) || IsUpper(c) || IsDigit(c)) && Charset(CharsetRev(c)) == LowerCase(c)
  {
  }

  // ---- What a string stands for --------------------------------------------------------------------------

  /** Every character is a byte. */
  predicate IsBytes(s: string) { forall i :: 0 <= i < |s| ==> s[i] as int < 256 }

  function LowerAll(s: string): (r: string)
    requires IsBytes(s)
    ensures |r| == |s| && forall i :: 0 <= i < |s| ==> r[i] == LowerCase(s[i])
  {
    seq(|s|, i requires 0 <= i < |s| => LowerCase(s[i]))
  }

  function Text(v: seq<Sym>): (r: string)
    ensures |r| == |v| && forall i :: 0 <= i < |v| ==> r[i] == Charset(v[i])
  {
    seq(|v|, i requires 0 <= i < |v| => Charset(v[i]))
  }

  predicate IsText(s: string) { forall i :: 0 <= i < |s| ==> CharsetRev(s[i]) != -1 }

  function Symbols(s: string): (v: seq<Sym>)
    requires IsText(s)
    ensures |v| == |s| && forall i :: 0 <= i < |s| ==> v[i] == CharsetRev(s[i])
  {
    seq(|s|, i requires 0 <= i < |s| => CharsetRev(s[i]))
  }

  /** The prefix contributes its five low bits per letter, and a zero. */
  function Expanded(prefix: string): (v: seq<Sym>)
    ensures |v| == |prefix| + 1 && v[|prefix|] == 0 && forall i :: 0 <= i < |prefix| ==> v[i] == prefix[i] as int % 32
  {
    seq(|prefix|, i requires 0 <= i < |prefix| => prefix[i] as int % 32) + [0]
  }

  function Encoded(prefix: string, payload: seq<Sym>): string {
    prefix + ":" + Text(payload + Checksum(Expanded(prefix) + payload))
  }

  /** A colon separates a non-empty prefix without digits from the rest, and there is at most one. */
  predicate ColonFine(s: string, i: nat)
    requires i < |s|
  {
    s[i] == ':' ==> i > 0 && forall j :: 0 <= j < i ==> s[j] != ':' && !IsDigit(s[j])
  }

  predicate Acceptable(s: string) {
    forall i :: 0 <= i < |s| ==> (IsLower(s[i]) || IsUpper(s[i]) || IsDigit(s[i]) || s[i] == ':') && ColonFine(s, i)
  }

  predicate Mixed(s: string) {
    (exists i :: 0 <= i < |s| && IsLower(s[i])) && exists i :: 0 <= i < |s| && IsUpper(s[i])
  }

  /** The position of the colon, or 0 if there is none. */
  function Colon(s: string): (i: nat)
    ensures i <= |s|
  {
    if exists i :: 0 <= i < |s| && s[i] == ':' then First(s, 0) else 0
  }

  function First(s: string, from: nat): (i: nat)
    requires from <= |s|
    ensures from <= i <= |s|
    ensures forall j :: from <= j < i ==> s[j] != ':'
    ensures i < |s| ==> s[i] == ':'
    decreases |s| - from
  {
    if from == |s| || s[from] == ':' then from else First(s, from + 1)
  }

  /** TooShort: the checksum verifies, but there are not eight symbols to cut off; the result is undefined. */
  datatype Outcome = Invalid | TooShort | Decoded(prefix: string, payload: seq<Sym>)

  function Judged(prefix: string, body: string): Outcome {
    if !IsText(body) then Invalid
    else if PolyMod(Expanded(prefix) + Symbols(body)) != 0 then Invalid
    else if |body| < 8 then TooShort
    else Decoded(prefix, Symbols(body)[..|body| - 8])
  }

  function Meaning(s: string, defaultPrefix: string): Outcome {
    if !Acceptable(s) || Mixed(s) then Invalid
    else
      assert IsBytes(s);
      var n := Colon(s);
      if n == 0 then Judged(defaultPrefix, s) else Judged(LowerAll(s[..n]), if n < |s| then s[n + 1..] else "")
  }

  // ---- The laws --------------------------------------------------------------------------------------------

  predicate LowerLetters(s: string) { forall i :: 0 <= i < |s| ==> IsLower(s[i]) }

  lemma SymbolsOfText(v: seq<Sym>)
    ensures IsText(Text(v)) && Symbols(Text(v)) == v
  {
    hide Charset, CharsetRev;
    forall i | 0 <= i < |v| ensures CharsetRev(Text(v)[i]) == v[i] { CharsetRoundTrip(v[i]); }
  }

  lemma TextOfSymbols(s: string)
    requires IsText(s)
    ensures IsBytes(s) && Text(Symbols(s)) == LowerAll(s)
  {
    hide Charset, CharsetRev, LowerCase;
    forall i | 0 <= i < |s| ensures s[i] as int < 256 &&
        Charset(CharsetRev(s[i])) == LowerCase(s[i]) { RevRoundTrip(s[i]); }
  }

  /** Prefix, colon and a payload's text are acceptable if the prefix is letters, and there is one. */
  lemma EncodedAcceptable(prefix: string, v: seq<Sym>)
    requires prefix != "" && LowerLetters(prefix)
    ensures var s := prefix + ":" + Text(v);
            Acceptable(s) && !Mixed(s) && Colon(s) == |prefix| && s[..|prefix|] == prefix &&
                s[|prefix| + 1..] == Text(v)
  {
    hide Charset, CharsetRev;
    var s := prefix + ":" + Text(v);
    var n := |prefix|;
    forall i | 0 <= i < |s| ensures (IsLower(s[i]) || IsDigit(s[i]) || s[i] == ':') && (s[i] == ':' ==>
        i == n) && (i < n ==> s[i] == prefix[i]) {
      if i > n { CharsetRoundTrip(v[i - n - 1]); }
    }
    assert s[n] == ':';
    assert s[n + 1..] == Text(v);
  }

  lemma LowerLettersStay(s: string)
    requires LowerLetters(s)
    ensures IsBytes(s) && LowerAll(s) == s
  {
  }

  /** Letters of both cases are refused, and so is any other character, and a colon that is not the only one. */
  lemma Refused(s: string, defaultPrefix: string, i: nat, j: nat)
    requires i < |s| && j < |s|
    ensures IsLower(s[i]) && IsUpper(s[j]) ==> Meaning(s, defaultPrefix) == Invalid
    ensures !IsLower(s[i]) && !IsUpper(s[i]) && !IsDigit(s[i]) && s[i] != ':' ==> Meaning(s, defaultPrefix) == Invalid
    ensures i < j && s[j] == ':' && (s[i] == ':' || IsDigit(s[i])) ==> Meaning(s, defaultPrefix) == Invalid
    ensures s[0] == ':' ==> Meaning(s, defaultPrefix) == Invalid
  {
    hide Judged, LowerCase;
    if s[j] == ':' && i < j { assert ColonFine(s, j) ==> s[i] != ':' && !IsDigit(s[i]); }
    if s[0] == ':' { assert !ColonFine(s, 0); }
  }

  lemma UpperRev(c: char)
    requires IsUpper(c)
    ensures CharsetRev(LowerCase(c)) == CharsetRev(c) && IsLower(LowerCase(c))
  {
  }

  predicate Plain(c: char) { IsLower(c) || IsUpper(c) || IsDigit(c) || c == ':' }

  lemma LowerRev(c: char)
    requires Plain(c)
    ensures c as int < 256 && CharsetRev(LowerCase(c)) == CharsetRev(c) && (LowerCase(c) == ':' <==> c == ':')
  {
    hide CharsetRev;
    if IsUpper(c) { UpperRev(c); } else { assert LowerCase(c) == c; }
  }

  ghost predicate SameButCase(s: string, t: string)
    requires IsBytes(s) && IsBytes(t)
  {
    |s| == |t| && forall i :: 0 <= i < |s| ==> LowerCase(s[i]) == LowerCase(t[i])
  }

  lemma BodiesSame(prefix: string, s: string, t: string)
    requires IsBytes(s) && IsBytes(t) && SameButCase(s, t)
    requires (forall i :: 0 <= i < |s| ==> Plain(s[i])) && forall i :: 0 <= i < |t| ==> Plain(t[i])
    ensures Judged(prefix, s) == Judged(prefix, t)
  {
    hide CharsetRev, LowerCase, PolyMod;
    forall i | 0 <= i < |s| ensures CharsetRev(s[i]) == CharsetRev(t[i]) {
      LowerRev(s[i]);
      LowerRev(t[i]);
    }
    if IsText(s) { assert Symbols(s) == Symbols(t); }
  }

  lemma {:induction false} FirstSame(s: string, t: string, from: nat)
    requires |s| == |t| && from <= |s| && forall i :: 0 <= i < |s| ==> (s[i] == ':' <==> t[i] == ':')
    ensures First(s, from) == First(t, from)
    decreases |s| - from
  {
    if from < |s| && s[from] != ':' { FirstSame(s, t, from + 1); }
  }

  /** Acceptable strings of one case each mean the same if they differ in case only. */
  lemma CaseIgnored(s: string, t: string, defaultPrefix: string)
    requires Acceptable(s) && Acceptable(t) && !Mixed(s) && !Mixed(t) && IsBytes(s) && IsBytes(t) && SameButCase(s, t)
    ensures Meaning(s, defaultPrefix) == Meaning(t, defaultPrefix)
  {
    hide LowerCase, Judged, Mixed;
    forall i | 0 <= i < |s| ensures (s[i] == ':' <==> t[i] == ':') && Plain(s[i]) && Plain(t[i]) {
      LowerRev(s[i]);
      LowerRev(t[i]);
    }
    FirstSame(s, t, 0);
    assert Colon(s) == Colon(t);
    var n := Colon(s);
    if n == 0 {
      BodiesSame(defaultPrefix, s, t);
    } else {
      assert LowerAll(s[..n]) == LowerAll(t[..n]);
      if n < |s| { BodiesSame(LowerAll(s[..n]), s[n + 1..], t[n + 1..]); }
    }
  }

  /** Decoding what was encoded gives it back exactly when the prefix is a non-empty word of lower-case letters. */
  lemma RoundTrip(prefix: string, payload: seq<Sym>, defaultPrefix: string)
    ensures Meaning(Encoded(prefix, payload), defaultPrefix) == Decoded(prefix, payload) <==>
              prefix != "" && LowerLetters(prefix)
  {
    hide Charset, CharsetRev, PolyMod, Checksum;
    var e := Expanded(prefix) + payload;
    var v := payload + Checksum(e);
    var s := Encoded(prefix, payload);
    if prefix != "" && LowerLetters(prefix) {
      EncodedAcceptable(prefix, v);
      LowerLettersStay(prefix);
      SymbolsOfText(v);
      ChecksumVerifies(e, Checksum(e));
      assert Expanded(prefix) + v == e + Checksum(e);
      assert v[..|v| - 8] == payload;
    } else if Meaning(s, defaultPrefix) == Decoded(prefix, payload) {
      HasColon(prefix, v);
      PrefixOfMeaning(s, defaultPrefix);
    }
  }

  lemma HasColon(prefix: string, v: seq<Sym>)
    ensures var s := prefix + ":" + Text(v); exists i :: 0 <= i < |s| && s[i] == ':'
  {
    var s := prefix + ":" + Text(v);
    assert s[|prefix|] == ':';
  }

  /** A string with a colon decodes only to a prefix of lower-case letters. */
  lemma PrefixOfMeaning(s: string, defaultPrefix: string)
    requires Meaning(s, defaultPrefix).Decoded? && exists i :: 0 <= i < |s| && s[i] == ':'
    ensures Meaning(s, defaultPrefix).prefix != "" && LowerLetters(Meaning(s, defaultPrefix).prefix)
  {
    hide PolyMod, CharsetRev;
    var n := Colon(s);
    assert s[n] == ':' && ColonFine(s, n);
    forall i | 0 <= i < n ensures IsLower(LowerCase(s[i])) { assert ColonFine(s, n) && (IsLower(s[i]) ||
        IsUpper(s[i])); }
  }

  /** Encoding what was decoded gives the string back in lower case, with its prefix. */
  lemma Canonical(s: string, defaultPrefix: string)
    requires Meaning(s, defaultPrefix).Decoded?
    ensures var d := Meaning(s, defaultPrefix);
            && IsBytes(s)
            && Encoded(d.prefix, d.payload) ==
                 if exists i :: 0 <= i < |s| && s[i] == ':' then LowerAll(s) else d.prefix + ":" + LowerAll(s)
  {
    hide PolyMod, Checksum, Charset, CharsetRev, LowerCase, Encoded;
    var d := Meaning(s, defaultPrefix);
    var n := Colon(s);
    if exists i :: 0 <= i < |s| && s[i] == ':' {
      assert s[n] == ':' && ColonFine(s, n);
      var body := s[n + 1..];
      BodyCanonical(d.prefix, body);
      LowerSplits(s, n);
    } else {
      BodyCanonical(d.prefix, s);
    }
  }

  lemma LowerSplits(s: string, n: nat)
    requires IsBytes(s) && n < |s| && s[n] == ':'
    ensures LowerAll(s) == LowerAll(s[..n]) + ":" + LowerAll(s[n + 1..])
  {
    assert LowerCase(':') == ':';
  }

  lemma BodyCanonical(prefix: string, body: string)
    requires Judged(prefix, body).Decoded?
    ensures IsBytes(body) && Encoded(prefix, Judged(prefix, body).payload) == prefix + ":" + LowerAll(body)
  {
    hide PolyMod, Checksum, Charset, CharsetRev, LowerCase;
    var v := Symbols(body);
    var payload := v[..|v| - 8];
    var k := v[|v| - 8..];
    assert v == payload + k;
    var e := Expanded(prefix) + payload;
    assert Expanded(prefix) + v == e + k;
    ChecksumVerifies(e, k);
    TextOfSymbols(body);
  }

  // ---- The loops -----------------------------------------------------------------------------------------------

  method ComputePolyMod(v: seq<Sym>) returns (r: nat)
    ensures r == PolyMod(v) && r < LIMIT
  {
    hide Xor, Step;
    var c := 1;
    for i := 0 to |v|
      invariant c == Fold(1, v[..i])
    {
      assert v[..i + 1][..i] == v[..i];
      c := ComputeStep(c, v[i]);
    }
    assert v[..|v|] == v;
    FoldBounded(1, v);
    XorBounded(c, 1);
    r := Xor(c, 1);
  }

  method ComputeStep(c: nat, d: Sym) returns (r: nat)
    ensures r == Step(c, d)
  {
    hide Xor;
    var c0 := c / TOP;
    r := Xor(32 * (c % TOP), d);
    ghost var b := r;
    XorZero(r);
    if HasBit(c0, 1) { r := Xor(r, 0x98f2bc8e61); }
    XorZero(r);
    if HasBit(c0, 2) { r := Xor(r, 0x79b76d99e2); }
    XorZero(r);
    if HasBit(c0, 4) { r := Xor(r, 0xf33e5fb3c4); }
    XorZero(r);
    if HasBit(c0, 8) { r := Xor(r, 0xae2eabe2a8); }
    XorZero(r);
    if HasBit(c0, 16) { r := Xor(r, 0x1e4f43e470); }
    OneByOne(b, Term(c0, 1, 0x98f2bc8e61), Term(c0, 2, 0x79b76d99e2), Term(c0, 4, 0xf33e5fb3c4), Term(c0, 8,
        0xae2eabe2a8), Term(c0, 16, 0x1e4f43e470));
  }

  lemma OneByOne(b: nat, t0: nat, t1: nat, t2: nat, t3: nat, t4: nat)
    ensures Xor(Xor(Xor(Xor(Xor(b, t0), t1), t2), t3), t4) == Xor(b, Xor(Xor(Xor(Xor(t0, t1), t2), t3), t4))
  {
    hide Xor;
    XorAssociates(b, t0, t1);
    XorAssociates(b, Xor(t0, t1), t2);
    XorAssociates(b, Xor(Xor(t0, t1), t2), t3);
    XorAssociates(b, Xor(Xor(Xor(t0, t1), t2), t3), t4);
  }

  method CreateChecksum(prefix: string, payload: seq<Sym>) returns (ret: seq<Sym>)
    ensures ret == Checksum(Expanded(prefix) + payload)
  {
    hide PolyMod;
    var enc := Expanded(prefix) + payload + Zeros(8);
    var mod := ComputePolyMod(enc);
    ret := [];
    for i := 0 to 8
      invariant |ret| == i && forall j :: 0 <= j < i ==> ret[j] == Groups(mod, 8)[j]
    {
      GroupAt(mod, 8, i);
      ret := ret + [Shr5(mod, 7 - i) % 32];
    }
  }

  method Encode(prefix: string, payload: seq<Sym>) returns (ret: string)
    ensures ret == Encoded(prefix, payload)
  {
    hide Checksum, Charset;
    var checksum := CreateChecksum(prefix, payload);
    var combined := payload + checksum;
    ret := prefix + ":";
    for i := 0 to |combined|
      invariant ret == prefix + ":" + Text(combined[..i])
    {
      assert Text(combined[..i + 1]) == Text(combined[..i]) + [Charset(combined[i])];
      ret := ret + [Charset(combined[i])];
    }
    assert combined[..|combined|] == combined;
  }

  lemma AcceptableBytes(s: string)
    requires Acceptable(s)
    ensures IsBytes(s)
  {
  }

  /** The sanity checks on the characters; `prefixSize` is the position of the colon. */
  method Scan(str: string) returns (ok: bool, prefixSize: nat)
    ensures ok <==> Acceptable(str) && !Mixed(str)
    ensures ok ==> prefixSize == Colon(str)
  {
    var lower, upper, hasNumber := false, false, false;
    prefixSize := 0;
    var i := 0;
    while i < |str|
      invariant 0 <= i <= |str| && prefixSize < |str| + 1
      invariant forall j :: 0 <= j < i ==>
                  (IsLower(str[j]) || IsUpper(str[j]) || IsDigit(str[j]) || str[j] == ':') && ColonFine(str, j)
      invariant lower <==> exists j :: 0 <= j < i && IsLower(str[j])
      invariant upper <==> exists j :: 0 <= j < i && IsUpper(str[j])
      invariant hasNumber <==> exists j :: 0 <= j < i && IsDigit(str[j])
      invariant if prefixSize == 0 then forall j :: 0 <= j < i ==> str[j] != ':'
                else prefixSize < i && str[prefixSize] == ':'
    {
      var c := str[i];
      if IsLower(c) {
        lower := true;
      } else if IsUpper(c) {
        upper := true;
      } else if IsDigit(c) {
        hasNumber := true;
      } else if c == ':' {
        if hasNumber || i == 0 || prefixSize != 0 {
          assert !ColonFine(str, i);
          return false, 0;
        }
        prefixSize := i;
      } else {
        return false, 0;
      }
      i := i + 1;
    }
    ok := !(upper && lower);
    if prefixSize != 0 { assert ColonFine(str, prefixSize); }
  }

  method Decode(str: string, defaultPrefix: string) returns (r: Outcome)
    ensures r == Meaning(str, defaultPrefix)
  {
    hide PolyMod, CharsetRev, Mixed, Acceptable, LowerCase;
    var ok, prefixSize := Scan(str);
    if !ok { return Invalid; }
    AcceptableBytes(str);
    var prefix, body := defaultPrefix, str;
    if prefixSize != 0 {
      prefix, body := LowerAll(str[..prefixSize]), if prefixSize < |str| then str[prefixSize + 1..] else "";
    }
    var values: seq<Sym> := [];
    for i := 0 to |body|
      invariant IsText(body[..i]) && values == Symbols(body[..i])
    {
      if CharsetRev(body[i]) == -1 { return Invalid; }
      assert body[..i + 1] == body[..i] + [body[i]];
      values := values + [CharsetRev(body[i])];
    }
    assert body[..|body|] == body;
    var mod := ComputePolyMod(Expanded(prefix) + values);
    if mod != 0 { return Invalid; }
    if |values| < 8 { return TooShort; }
    return Decoded(prefix, values[..|values| - 8]);
  }
}
