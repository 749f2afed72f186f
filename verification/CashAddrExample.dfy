/**
 * The alphabet as one string, and a known address: the payload of all 32 symbols in their order, under the prefix
 * "bitcoincash", with its checksum.
 */
module CashAddrExample {
  import opened Bitwise
  import opened CashAddr
  import opened CashAddrText
  import opened CashAddrWords

  const CHARSET := "qpzry9x8gf2tvdw0s3jn54khce6mua7l"

  /** The symbols are the letters of one string, in order. */
  lemma CharsetIs(v: Sym)
    ensures |CHARSET| == 32 && Charset(v) == CHARSET[v]
  {
  }

  /** All symbols in their order. */
  function InOrder(n: nat): (v: seq<Sym>)
    requires n <= 32
    ensures |v| == n && forall i :: 0 <= i < n ==> v[i] == i
  {
    seq(n, i requires 0 <= i < n => i)
  }

  lemma CharsetText()
    ensures Text(InOrder(32)) == CHARSET
  {
    hide Charset;
    forall i | 0 <= i < 32 ensures Charset(InOrder(32)[i]) == CHARSET[i] { CharsetIs(i); }
  }

  lemma PrefixWords()
    ensures Words(0x1, 2, 9, 20, 3) == 0x112683 && Words(0x112683, 15, 9, 14, 3) == 0x8a9a8b2ba2
    ensures Words(0x8a9a8b2ba2, 1, 19, 8, 0) == 0xf669cd6d15
  {
  }

  lemma LowWords()
    ensures Words(0xf669cd6d15, 0, 1, 2, 3) == 0x61113cfe96 && Words(0x61113cfe96, 4, 5, 6, 7) == 0xed7e401a24
    ensures Words(0xed7e401a24, 8, 9, 10, 11) == 0x8e8b5a6f65 && Words(0x8e8b5a6f65, 12, 13, 14, 15) == 0xf7a73c2fb7
  {
  }

  lemma HighWords()
    ensures Words(0xf7a73c2fb7, 16, 17, 18, 19) == 0xadf698e10d && Words(0xadf698e10d, 20, 21, 22, 23) == 0x74e108c548
    ensures Words(0x74e108c548, 24, 25, 26, 27) == 0x76acc0dd4 && Words(0x76acc0dd4, 28, 29, 30, 31) == 0x6a8ba8b839
  {
  }

  lemma TailWords()
    ensures Words(0x6a8ba8b839, 24, 14, 10, 15) == 0xed443b9d7c && Words(0xed443b9d7c, 29, 4, 4, 19) == 0x1
  {
  }

  lemma PrefixLeaves(v: seq<Sym>)
    requires |v| >= 12 && v[..12] == [2, 9, 20, 3, 15, 9, 14, 3, 1, 19, 8, 0]
    ensures Leaves(v, 12, 0xf669cd6d15)
  {
    hide Leaves, Words;
    Start(v);
    PrefixWords();
    var p := v[..12];
    assert p[0] == v[0] && p[1] == v[1] && p[2] == v[2] && p[3] == v[3] && p[4] == v[4] && p[5] == v[5];
    assert p[6] == v[6] && p[7] == v[7] && p[8] == v[8] && p[9] == v[9] && p[10] == v[10] && p[11] == v[11];
    Four(v, 0, 0x1, 2, 9, 20, 3, 0x112683);
    Four(v, 4, 0x112683, 15, 9, 14, 3, 0x8a9a8b2ba2);
    Four(v, 8, 0x8a9a8b2ba2, 1, 19, 8, 0, 0xf669cd6d15);
  }

  lemma SymbolsLeave(v: seq<Sym>)
    requires Leaves(v, 12, 0xf669cd6d15) && |v| >= 44 && forall i :: 12 <= i < 44 ==> v[i] == i - 12
    ensures Leaves(v, 44, 0x6a8ba8b839)
  {
    hide Leaves, Words;
    LowWords();
    HighWords();
    Consecutive(v, 0);
    Four(v, 12, 0xf669cd6d15, 0, 1, 2, 3, 0x61113cfe96);
    Consecutive(v, 4);
    Four(v, 16, 0x61113cfe96, 4, 5, 6, 7, 0xed7e401a24);
    Consecutive(v, 8);
    Four(v, 20, 0xed7e401a24, 8, 9, 10, 11, 0x8e8b5a6f65);
    Consecutive(v, 12);
    Four(v, 24, 0x8e8b5a6f65, 12, 13, 14, 15, 0xf7a73c2fb7);
    Consecutive(v, 16);
    Four(v, 28, 0xf7a73c2fb7, 16, 17, 18, 19, 0xadf698e10d);
    Consecutive(v, 20);
    Four(v, 32, 0xadf698e10d, 20, 21, 22, 23, 0x74e108c548);
    Consecutive(v, 24);
    Four(v, 36, 0x74e108c548, 24, 25, 26, 27, 0x76acc0dd4);
    Consecutive(v, 28);
    Four(v, 40, 0x76acc0dd4, 28, 29, 30, 31, 0x6a8ba8b839);
  }

  lemma Consecutive(v: seq<Sym>, k: nat)
    requires |v| >= 44 && (forall i :: 12 <= i < 44 ==> v[i] == i - 12) && k <= 28
    ensures v[12 + k] == k && v[13 + k] == k + 1 && v[14 + k] == k + 2 && v[15 + k] == k + 3
  {
  }

  const TAIL: seq<Sym> := [24, 14, 10, 15, 29, 4, 4, 19]

  /** The checksum of the payload of all symbols. */
  lemma ChecksumOfAll()
    ensures Checksum(Expanded("bitcoincash") + InOrder(32)) == TAIL
  {
    hide Leaves, Words, PolyMod, Checksum, Expanded;
    var u, v := Expanded("bitcoincash") + InOrder(32), Expanded("bitcoincash") + InOrder(32) + TAIL;
    PrefixSpelled();
    assert v[..12] == Expanded("bitcoincash");
    PrefixLeaves(v);
    SymbolsLeave(v);
    TailWords();
    assert v[44] == TAIL[0] && v[45] == TAIL[1] && v[46] == TAIL[2] && v[47] == TAIL[3];
    Four(v, 44, 0x6a8ba8b839, 24, 14, 10, 15, 0xed443b9d7c);
    assert v[48] == TAIL[4] && v[49] == TAIL[5] && v[50] == TAIL[6] && v[51] == TAIL[7];
    Four(v, 48, 0xed443b9d7c, 29, 4, 4, 19, 0x1);
    Verifies(v);
    ChecksumVerifies(u, TAIL);
  }

  lemma PrefixSpelled()
    ensures Expanded("bitcoincash") == [2, 9, 20, 3, 15, 9, 14, 3, 1, 19, 8, 0]
  {
    var v: seq<Sym> := [2, 9, 20, 3, 15, 9, 14, 3, 1, 19, 8];
    assert forall i :: 0 <= i < 11 ==> "bitcoincash"[i] as int % 32 == v[i];
    assert Expanded("bitcoincash") == v + [0];
  }

  lemma TailText()
    ensures Text(TAIL) == "cw20ayyn"
  {
  }

  lemma TextJoined(v: seq<Sym>, w: seq<Sym>)
    ensures Text(v + w) == Text(v) + Text(w)
  {
    hide Charset;
  }

  const ADDRESS := "bitcoincash" + ":" + (CHARSET + "cw20ayyn")

  lemma AllEncoded()
    ensures Encoded("bitcoincash", InOrder(32)) == ADDRESS
  {
    hide Checksum, Charset, Expanded, InOrder, Text;
    ChecksumOfAll();
    CharsetText();
    TailText();
    TextJoined(InOrder(32), TAIL);
  }

  /** All symbols in their order, with their checksum: encoded and decoded. */
  lemma KnownAddress()
    ensures Encoded("bitcoincash", InOrder(32)) == ADDRESS
    ensures Meaning(ADDRESS, "") == Decoded("bitcoincash", InOrder(32))
  {
    hide Meaning, Encoded, InOrder;
    AllEncoded();
    RoundTrip("bitcoincash", InOrder(32), "");
  }
}
