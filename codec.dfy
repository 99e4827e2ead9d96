/**
 * The text form of an identifier. The 96 bits of the twelve bytes, most
 * significant bit first and followed by four zero padding bits, are cut into
 * twenty 5-bit groups; each group is written as one symbol of the base32hex
 * alphabet of section 7 of RFC 4648, in lower case and without `=` padding.
 */
module Codec {
  import opened Numbers
  import opened Wrappers

  /** The base32hex alphabet, in ascending symbol order. */
  const Alphabet: string := "0123456789abcdefghijklmnopqrstuv"

  const EncodedLength: nat := 20

  /** Place values of the bits of a byte, most significant first. */
  function ByteWeight(k: nat): nat {
    if k == 0 then 128 else if k == 1 then 64 else if k == 2 then 32 else if k == 3 then 16
    else if k == 4 then 8 else if k == 5 then 4 else if k == 6 then 2 else 1
  }

  /** Place values of the bits of a 5-bit group, most significant first. */
  function GroupWeight(q: nat): nat {
    if q == 0 then 16 else if q == 1 then 8 else if q == 2 then 4 else if q == 3 then 2 else 1
  }

  /** Why a string is not the text form of an identifier. */
  datatype ParseFailure =
    | WrongLength         // not exactly twenty characters
    | InvalidCharacter    // a character outside the alphabet
    | NonzeroPadding      // the four bits after the 96th are not zero

  predicate IsSymbol(c: char) {
    '0' <= c <= '9' || 'a' <= c <= 'v'
  }

  /** The symbols are exactly the characters of the alphabet. */
  lemma SymbolsAreAlphabet(c: char)
    ensures IsSymbol(c) <==> c in Alphabet
  {
    if IsSymbol(c) {
      assert Alphabet[SymbolValue(c)] == c;
    }
  }

  /** The 5-bit value a symbol stands for. */
  function SymbolValue(c: char): (v: nat)
    requires IsSymbol(c)
    ensures v < 32 && Alphabet[v] == c
  {
    if c <= '9' then c as int - '0' as int else c as int - 'a' as int + 10
  }

  /** Every symbol of the alphabet is a symbol, and stands for its own position. */
  lemma SymbolValueOfAlphabet(v: nat)
    requires v < 32
    ensures IsSymbol(Alphabet[v]) && SymbolValue(Alphabet[v]) == v
  {
  }

  /** Bit k (0 = most significant) of a byte. */
  function ByteBit(b: Byte, k: nat): (bit: nat)
    requires k < 8
    ensures bit < 2
  {
    b / ByteWeight(k) % 2
  }

  /** Bit p of the 100-bit stream: the 96 bits of the identifier, then four zeros. */
  function StreamBit(id: Bytes12, p: nat): (bit: nat)
    ensures bit < 2
  {
    if p < 96 then ByteBit(id[p / 8], p % 8) else 0
  }

  /** The value of the i-th 5-bit group of the stream. */
  function Group(id: Bytes12, i: nat): (g: nat)
    requires i < EncodedLength
    ensures g < 32
  {
    16 * StreamBit(id, 5 * i) + 8 * StreamBit(id, 5 * i + 1) + 4 * StreamBit(id, 5 * i + 2)
      + 2 * StreamBit(id, 5 * i + 3) + StreamBit(id, 5 * i + 4)
  }

  /** The values of the twenty 5-bit groups. */
  function Groups(id: Bytes12): (vs: seq<nat>)
    ensures |vs| == EncodedLength
  {
    seq(EncodedLength, i requires 0 <= i < EncodedLength => Group(id, i))
  }

  /** The symbols of a sequence of group values. */
  function Symbols(vs: seq<nat>): (s: string)
    requires forall i :: 0 <= i < |vs| ==> vs[i] < 32
    ensures |s| == |vs|
    ensures forall i :: 0 <= i < |s| ==> s[i] in Alphabet
  {
    seq(|vs|, i requires 0 <= i < |vs| => Alphabet[vs[i]])
  }

  /** `toHexString`: twenty symbols, one per 5-bit group. */
  function Encode(id: Bytes12): (s: string)
    ensures |s| == EncodedLength
  {
    Symbols(Groups(id))
  }

  /** The character codes of a string. */
  function Codes(s: string): (cs: seq<int>)
    ensures |cs| == |s|
  {
    seq(|s|, i requires 0 <= i < |s| => s[i] as int)
  }

  /** The code of the symbol at position v: digits, then the letters from 'a'. */
  lemma AlphabetCode(v: nat)
    requires v < 32
    ensures Alphabet[v] as int == if v < 10 then '0' as int + v else 'a' as int + v - 10
  {
  }

  /**
   * Comparing the codes of the symbols of two equally long sequences of
   * group values is comparing the values themselves.
   */
  lemma SymbolsOrder(vs: seq<nat>, ws: seq<nat>)
    requires |vs| == |ws|
    requires forall i :: 0 <= i < |vs| ==> vs[i] < 32
    requires forall i :: 0 <= i < |ws| ==> ws[i] < 32
    ensures LexCompare(Codes(Symbols(vs)), Codes(Symbols(ws))) == LexCompare(vs, ws)
  {
    var cv, cw := Codes(Symbols(vs)), Codes(Symbols(ws));
    forall i | 0 <= i < |vs|
      ensures (cv[i] < cw[i] <==> vs[i] < ws[i]) && (cv[i] == cw[i] <==> vs[i] == ws[i])
    {
      AlphabetCode(vs[i]);
      AlphabetCode(ws[i]);
    }
    LexCompareOfMonotone(cv, cw, vs, ws);
  }

  /** The group values a string of symbols stands for. */
  function Values(s: string): (vs: seq<nat>)
    requires forall i :: 0 <= i < |s| ==> IsSymbol(s[i])
    ensures |vs| == |s|
    ensures forall i :: 0 <= i < |s| ==> vs[i] < 32 && Alphabet[vs[i]] == s[i]
  {
    seq(|s|, i requires 0 <= i < |s| => SymbolValue(s[i]))
  }

  /** Bit p of the stream that a sequence of group values spells. */
  function ValuesBit(vs: seq<nat>, p: nat): (bit: nat)
    requires |vs| == EncodedLength && p < 5 * EncodedLength
    ensures bit < 2
  {
    vs[p / 5] / GroupWeight(p % 5) % 2
  }

  /** Byte j reassembled from bits 8j .. 8j+7 of the stream that vs spells. */
  function DecodedByte(vs: seq<nat>, j: nat): (b: Byte)
    requires |vs| == EncodedLength && j < 12
  {
    128 * ValuesBit(vs, 8 * j) + 64 * ValuesBit(vs, 8 * j + 1) + 32 * ValuesBit(vs, 8 * j + 2)
      + 16 * ValuesBit(vs, 8 * j + 3) + 8 * ValuesBit(vs, 8 * j + 4) + 4 * ValuesBit(vs, 8 * j + 5)
      + 2 * ValuesBit(vs, 8 * j + 6) + ValuesBit(vs, 8 * j + 7)
  }

  /** The twelve bytes that twenty group values spell, padding dropped. */
  function Reassemble(vs: seq<nat>): (id: Bytes12)
    requires |vs| == EncodedLength
  {
    seq(12, j requires 0 <= j < 12 => DecodedByte(vs, j))
  }

  /**
   * The parsing half of `Xid(String)`. Strict: besides a wrong length and a
   * character outside the alphabet (upper case included), it rejects a last
   * symbol whose four padding bits are not zero, so that every accepted
   * string is the encoding of exactly one identifier.
   */
  function Decode(s: string): (r: Result<Bytes12, ParseFailure>)
    ensures r == Err(WrongLength) <==> |s| != EncodedLength
    ensures r == Err(InvalidCharacter) <==> |s| == EncodedLength && exists i :: 0 <= i < |s| && s[i] !in Alphabet
    ensures r.Ok? ==> forall i :: 0 <= i < |s| ==> s[i] in Alphabet
  {
    if |s| != EncodedLength then Err(WrongLength)
    else if exists i :: 0 <= i < |s| && !IsSymbol(s[i]) then
      assert forall i :: 0 <= i < |s| ==> (IsSymbol(s[i]) <==> s[i] in Alphabet) by {
        forall i | 0 <= i < |s| { SymbolsAreAlphabet(s[i]); }
      }
      Err(InvalidCharacter)
    else
      var vs := Values(s);
      if vs[EncodedLength - 1] % 16 != 0 then Err(NonzeroPadding)
      else Ok(Reassemble(vs))
  }

  /**
   * Decoding the symbols of twenty group values: refused when the padding
   * bits are not zero, and otherwise the bytes the groups reassemble to.
   */
  lemma DecodeSymbols(vs: seq<nat>)
    requires |vs| == EncodedLength && forall i :: 0 <= i < |vs| ==> vs[i] < 32
    ensures Decode(Symbols(vs)) == if vs[EncodedLength - 1] % 16 == 0 then Ok(Reassemble(vs)) else Err(NonzeroPadding)
  {
    var s := Symbols(vs);
    forall i | 0 <= i < |s|
      ensures IsSymbol(s[i]) && SymbolValue(s[i]) == vs[i]
    {
      SymbolValueOfAlphabet(vs[i]);
    }
    assert Values(s) == vs;
  }

  /** A 5-bit value is the weighted sum of its bits. */
  lemma GroupOfBits(x0: nat, x1: nat, x2: nat, x3: nat, x4: nat)
    requires x0 < 2 && x1 < 2 && x2 < 2 && x3 < 2 && x4 < 2
    ensures var g := 16 * x0 + 8 * x1 + 4 * x2 + 2 * x3 + x4;
      g / 16 % 2 == x0 && g / 8 % 2 == x1 && g / 4 % 2 == x2 && g / 2 % 2 == x3 && g % 2 == x4
  {
    var g := 16 * x0 + 8 * x1 + 4 * x2 + 2 * x3 + x4;
    assert g / 16 == x0;
    assert g / 8 == 2 * x0 + x1;
    assert g / 4 == 4 * x0 + 2 * x1 + x2;
    assert g / 2 == 8 * x0 + 4 * x1 + 2 * x2 + x3;
  }

  /** A byte is the weighted sum of its bits, and each bit is recovered from the sum. */
  lemma ByteOfBits(x0: nat, x1: nat, x2: nat, x3: nat, x4: nat, x5: nat, x6: nat, x7: nat)
    requires x0 < 2 && x1 < 2 && x2 < 2 && x3 < 2 && x4 < 2 && x5 < 2 && x6 < 2 && x7 < 2
    ensures var b := 128 * x0 + 64 * x1 + 32 * x2 + 16 * x3 + 8 * x4 + 4 * x5 + 2 * x6 + x7;
      b / 128 % 2 == x0 && b / 64 % 2 == x1 && b / 32 % 2 == x2 && b / 16 % 2 == x3
      && b / 8 % 2 == x4 && b / 4 % 2 == x5 && b / 2 % 2 == x6 && b % 2 == x7
  {
    var b := 128 * x0 + 64 * x1 + 32 * x2 + 16 * x3 + 8 * x4 + 4 * x5 + 2 * x6 + x7;
    assert b / 128 == x0;
    assert b / 64 == 2 * x0 + x1;
    assert b / 32 == 4 * x0 + 2 * x1 + x2;
    assert b / 16 == 8 * x0 + 4 * x1 + 2 * x2 + x3;
    assert b / 8 == 16 * x0 + 8 * x1 + 4 * x2 + 2 * x3 + x4;
    assert b / 4 == 32 * x0 + 16 * x1 + 8 * x2 + 4 * x3 + 2 * x4 + x5;
    assert b / 2 == 64 * x0 + 32 * x1 + 16 * x2 + 8 * x3 + 4 * x4 + 2 * x5 + x6;
  }

  lemma BitsOfByte(b: Byte)
    ensures b == 128 * ByteBit(b, 0) + 64 * ByteBit(b, 1) + 32 * ByteBit(b, 2) + 16 * ByteBit(b, 3)
      + 8 * ByteBit(b, 4) + 4 * ByteBit(b, 5) + 2 * ByteBit(b, 6) + ByteBit(b, 7)
  {
    DivisionBits(b);
  }

  lemma DivisionBits(b: Byte)
    ensures b == 128 * (b / 128 % 2) + 64 * (b / 64 % 2) + 32 * (b / 32 % 2) + 16 * (b / 16 % 2)
      + 8 * (b / 8 % 2) + 4 * (b / 4 % 2) + 2 * (b / 2 % 2) + b % 2
  {
    HalfQuotient(b, 64);
    HalfQuotient(b, 32);
    HalfQuotient(b, 16);
    HalfQuotient(b, 8);
    HalfQuotient(b, 4);
    HalfQuotient(b, 2);
    HalfQuotient(b, 1);
  }

  /** Dividing by w is dividing by 2w, doubled, plus the bit of weight w. */
  lemma HalfQuotient(b: nat, w: nat)
    requires w > 0
    ensures b / w == 2 * (b / (2 * w)) + b / w % 2
  {
    var q, r := b / w, b % w;
    var h, e := q / 2, q % 2;
    assert b == (h * 2 + e) * w + r;
    assert (h * 2 + e) * w == h * (2 * w) + e * w;
    assert e * w < 2 * w;
    DivModUnique(b, 2 * w, h, e * w + r);
  }

  lemma BitsOfGroup(g: nat)
    requires g < 32
    ensures g == 16 * (g / 16 % 2) + 8 * (g / 8 % 2) + 4 * (g / 4 % 2) + 2 * (g / 2 % 2) + g % 2
  {
    assert g / 8 == 2 * (g / 16) + g / 8 % 2;
    assert g / 4 == 2 * (g / 8) + g / 4 % 2;
    assert g / 2 == 2 * (g / 4) + g / 2 % 2;
  }

  /** Bit p of the stream is bit p % 5 of group p / 5. */
  lemma GroupBit(id: Bytes12, p: nat)
    requires p < 5 * EncodedLength
    ensures Group(id, p / 5) / GroupWeight(p % 5) % 2 == StreamBit(id, p)
  {
    var i := p / 5;
    GroupOfBits(StreamBit(id, 5 * i), StreamBit(id, 5 * i + 1), StreamBit(id, 5 * i + 2),
                StreamBit(id, 5 * i + 3), StreamBit(id, 5 * i + 4));
  }

  /** Bit 8j + k of the stream is bit k of byte j. */
  lemma StreamBitOfByte(id: Bytes12, j: nat, k: nat)
    requires j < 12 && k < 8
    ensures StreamBit(id, 8 * j + k) == ByteBit(id[j], k)
  {
    assert (8 * j + k) / 8 == j && (8 * j + k) % 8 == k;
  }

  /** Byte j is recovered from any group values that spell the stream's bits 8j .. 8j+7. */
  lemma DecodedByteOfStream(id: Bytes12, vs: seq<nat>, j: nat)
    requires |vs| == EncodedLength && j < 12
    requires forall p :: 0 <= p < 96 ==> ValuesBit(vs, p) == StreamBit(id, p)
    ensures DecodedByte(vs, j) == id[j]
  {
    BitsOfByte(id[j]);
    StreamBitOfByte(id, j, 0);
    StreamBitOfByte(id, j, 1);
    StreamBitOfByte(id, j, 2);
    StreamBitOfByte(id, j, 3);
    StreamBitOfByte(id, j, 4);
    StreamBitOfByte(id, j, 5);
    StreamBitOfByte(id, j, 6);
    StreamBitOfByte(id, j, 7);
  }

  /** Bit k of a weighted sum of eight bits is the k-th of them. */
  lemma BitOfByteSum(x0: nat, x1: nat, x2: nat, x3: nat, x4: nat, x5: nat, x6: nat, x7: nat, k: nat)
    requires x0 < 2 && x1 < 2 && x2 < 2 && x3 < 2 && x4 < 2 && x5 < 2 && x6 < 2 && x7 < 2 && k < 8
    ensures ByteBit(128 * x0 + 64 * x1 + 32 * x2 + 16 * x3 + 8 * x4 + 4 * x5 + 2 * x6 + x7, k)
         == [x0, x1, x2, x3, x4, x5, x6, x7][k]
  {
    ByteOfBits(x0, x1, x2, x3, x4, x5, x6, x7);
  }

  /** Bit k of reassembled byte j is bit 8j + k of the symbols' stream. */
  lemma BitOfDecodedByte(vs: seq<nat>, j: nat, k: nat)
    requires |vs| == EncodedLength && j < 12 && k < 8
    ensures ByteBit(DecodedByte(vs, j), k) == ValuesBit(vs, 8 * j + k)
  {
    BitOfByteSum(ValuesBit(vs, 8 * j), ValuesBit(vs, 8 * j + 1), ValuesBit(vs, 8 * j + 2),
                 ValuesBit(vs, 8 * j + 3), ValuesBit(vs, 8 * j + 4), ValuesBit(vs, 8 * j + 5),
                 ValuesBit(vs, 8 * j + 6), ValuesBit(vs, 8 * j + 7), k);
  }

  /** Bit p of the stream of a decoded identifier is bit p of the symbols' stream. */
  lemma StreamOfDecodedBytes(vs: seq<nat>, id: Bytes12, p: nat)
    requires |vs| == EncodedLength && p < 96
    requires forall j :: 0 <= j < 12 ==> id[j] == DecodedByte(vs, j)
    ensures StreamBit(id, p) == ValuesBit(vs, p)
  {
    var j, k := p / 8, p % 8;
    assert p == 8 * j + k;
    assert id[j] == DecodedByte(vs, j);
    StreamBitOfByte(id, j, k);
    BitOfDecodedByte(vs, j, k);
  }

  /** Bit 5i + q of the stream a sequence of group values spells is bit q of value i. */
  lemma ValuesBitOfGroup(vs: seq<nat>, i: nat, q: nat)
    requires |vs| == EncodedLength && i < EncodedLength && q < 5
    ensures ValuesBit(vs, 5 * i + q) == vs[i] / GroupWeight(q) % 2
  {
    assert (5 * i + q) / 5 == i && (5 * i + q) % 5 == q;
  }

  /** The last group ends in the four zero padding bits. */
  lemma LastGroupPadding(id: Bytes12)
    ensures Group(id, EncodedLength - 1) % 16 == 0
  {
    var x := StreamBit(id, 95);
    assert Group(id, EncodedLength - 1) == 16 * x;
  }

  /** Group i is value i of any group values that spell the stream's bits. */
  lemma GroupOfStream(id: Bytes12, vs: seq<nat>, i: nat)
    requires |vs| == EncodedLength && i < EncodedLength && vs[i] < 32
    requires forall p :: 0 <= p < 5 * EncodedLength ==> StreamBit(id, p) == ValuesBit(vs, p)
    ensures Group(id, i) == vs[i]
  {
    var g := vs[i];
    BitsOfGroup(g);
    ValuesBitOfGroup(vs, i, 0);
    ValuesBitOfGroup(vs, i, 1);
    ValuesBitOfGroup(vs, i, 2);
    ValuesBitOfGroup(vs, i, 3);
    ValuesBitOfGroup(vs, i, 4);
    assert StreamBit(id, 5 * i) == g / 16 % 2;
    assert StreamBit(id, 5 * i + 1) == g / 8 % 2;
    assert StreamBit(id, 5 * i + 2) == g / 4 % 2;
    assert StreamBit(id, 5 * i + 3) == g / 2 % 2;
    assert StreamBit(id, 5 * i + 4) == g % 2;
  }

  /** The bits of the group values of an identifier are the bits of its stream. */
  lemma StreamOfGroups(id: Bytes12)
    ensures forall p :: 0 <= p < 96 ==> ValuesBit(Groups(id), p) == StreamBit(id, p)
  {
    forall p | 0 <= p < 96
      ensures ValuesBit(Groups(id), p) == StreamBit(id, p)
    {
      GroupBit(id, p);
    }
  }

  /** Reassembling the group values of an identifier gives back the identifier. */
  lemma ReassembleGroups(id: Bytes12)
    ensures Reassemble(Groups(id)) == id
  {
    var vs := Groups(id);
    StreamOfGroups(id);
    forall j | 0 <= j < 12
      ensures Reassemble(vs)[j] == id[j]
    {
      DecodedByteOfStream(id, vs, j);
    }
  }

  /** The symbols of an encoding stand for the identifier's group values. */
  lemma ValuesOfEncoding(id: Bytes12)
    ensures forall i :: 0 <= i < EncodedLength ==> IsSymbol(Encode(id)[i])
    ensures Values(Encode(id)) == Groups(id)
  {
    var s := Encode(id);
    forall i | 0 <= i < |s|
      ensures IsSymbol(s[i]) && SymbolValue(s[i]) == Group(id, i)
    {
      SymbolValueOfAlphabet(Group(id, i));
    }
  }

  /** Decoding the encoding of an identifier gives back that identifier. */
  lemma DecodeEncode(id: Bytes12)
    ensures Decode(Encode(id)) == Ok(id)
  {
    ValuesOfEncoding(id);
    LastGroupPadding(id);
    ReassembleGroups(id);
  }

  /** The stream of reassembled bytes is the stream the group values spell. */
  lemma StreamOfReassembled(vs: seq<nat>)
    requires |vs| == EncodedLength && (forall i :: 0 <= i < |vs| ==> vs[i] < 32)
    requires vs[EncodedLength - 1] % 16 == 0
    ensures forall p :: 0 <= p < 5 * EncodedLength ==> StreamBit(Reassemble(vs), p) == ValuesBit(vs, p)
  {
    var id := Reassemble(vs);
    var last := vs[EncodedLength - 1];
    assert last == 0 || last == 16;
    forall p | 0 <= p < 5 * EncodedLength
      ensures StreamBit(id, p) == ValuesBit(vs, p)
    {
      if p < 96 {
        StreamOfDecodedBytes(vs, id, p);
      } else {
        assert p / 5 == EncodedLength - 1 && 1 <= p % 5;
      }
    }
  }

  /** Group values with zero padding are the groups of the bytes they reassemble to. */
  lemma GroupsOfReassembled(vs: seq<nat>)
    requires |vs| == EncodedLength && (forall i :: 0 <= i < |vs| ==> vs[i] < 32)
    requires vs[EncodedLength - 1] % 16 == 0
    ensures Groups(Reassemble(vs)) == vs
  {
    var id := Reassemble(vs);
    StreamOfReassembled(vs);
    forall i | 0 <= i < EncodedLength
      ensures Groups(id)[i] == vs[i]
    {
      GroupOfStream(id, vs, i);
    }
  }

  /** A string that decodes to an identifier is that identifier's encoding. */
  lemma EncodeDecode(s: string, id: Bytes12)
    requires Decode(s) == Ok(id)
    ensures Encode(id) == s
  {
    var vs := Values(s);
    GroupsOfReassembled(vs);
    assert Groups(id) == vs;
  }

  /** The number the first n bits of the stream spell, most significant first. */
  function StreamPrefix(id: Bytes12, n: nat): nat {
    if n == 0 then 0 else 2 * StreamPrefix(id, n - 1) + StreamBit(id, n - 1)
  }

  /** Eight more bits of the stream append byte j. */
  lemma PrefixOfByte(id: Bytes12, j: nat)
    requires j < 12
    ensures StreamPrefix(id, 8 * j + 8) == 256 * StreamPrefix(id, 8 * j) + id[j]
  {
    BitsOfByteInStream(id, j);
    PrefixEightMore(id, 8 * j);
  }

  /** Byte j is the weighted sum of stream bits 8j .. 8j+7. */
  lemma BitsOfByteInStream(id: Bytes12, j: nat)
    requires j < 12
    ensures id[j] == 128 * StreamBit(id, 8 * j) + 64 * StreamBit(id, 8 * j + 1) + 32 * StreamBit(id, 8 * j + 2)
      + 16 * StreamBit(id, 8 * j + 3) + 8 * StreamBit(id, 8 * j + 4) + 4 * StreamBit(id, 8 * j + 5)
      + 2 * StreamBit(id, 8 * j + 6) + StreamBit(id, 8 * j + 7)
  {
    BitsOfByte(id[j]);
    StreamBitOfByte(id, j, 0);
    StreamBitOfByte(id, j, 1);
    StreamBitOfByte(id, j, 2);
    StreamBitOfByte(id, j, 3);
    StreamBitOfByte(id, j, 4);
    StreamBitOfByte(id, j, 5);
    StreamBitOfByte(id, j, 6);
    StreamBitOfByte(id, j, 7);
  }

  /** Eight more bits of the stream, most significant first. */
  lemma PrefixEightMore(id: Bytes12, n: nat)
    ensures StreamPrefix(id, n + 8) == 256 * StreamPrefix(id, n) + 128 * StreamBit(id, n) + 64 * StreamBit(id, n + 1)
      + 32 * StreamBit(id, n + 2) + 16 * StreamBit(id, n + 3) + 8 * StreamBit(id, n + 4) + 4 * StreamBit(id, n + 5)
      + 2 * StreamBit(id, n + 6) + StreamBit(id, n + 7)
  {
    assert StreamPrefix(id, n + 8) == 2 * StreamPrefix(id, n + 7) + StreamBit(id, n + 7);
    assert StreamPrefix(id, n + 7) == 2 * StreamPrefix(id, n + 6) + StreamBit(id, n + 6);
    assert StreamPrefix(id, n + 6) == 2 * StreamPrefix(id, n + 5) + StreamBit(id, n + 5);
    assert StreamPrefix(id, n + 5) == 2 * StreamPrefix(id, n + 4) + StreamBit(id, n + 4);
    assert StreamPrefix(id, n + 4) == 2 * StreamPrefix(id, n + 3) + StreamBit(id, n + 3);
    assert StreamPrefix(id, n + 3) == 2 * StreamPrefix(id, n + 2) + StreamBit(id, n + 2);
    assert StreamPrefix(id, n + 2) == 2 * StreamPrefix(id, n + 1) + StreamBit(id, n + 1);
    assert StreamPrefix(id, n + 1) == 2 * StreamPrefix(id, n) + StreamBit(id, n);
  }

  /** The first 8j bits of the stream spell the big-endian value of the first j bytes. */
  lemma {:induction false} PrefixOfBytes(id: Bytes12, j: nat)
    requires j <= 12
    ensures StreamPrefix(id, 8 * j) == Value(id[..j], 256)
  {
    if j > 0 {
      PrefixOfBytes(id, j - 1);
      PrefixOfByte(id, j - 1);
      assert id[..j][..j - 1] == id[..j - 1];
    }
  }

  /** Five more bits of the stream append group i. */
  lemma PrefixOfGroup(id: Bytes12, i: nat)
    requires i < EncodedLength
    ensures StreamPrefix(id, 5 * i + 5) == 32 * StreamPrefix(id, 5 * i) + Group(id, i)
  {
    PrefixFiveMore(id, 5 * i);
  }

  /** Five more bits of the stream, most significant first. */
  lemma PrefixFiveMore(id: Bytes12, n: nat)
    ensures StreamPrefix(id, n + 5) == 32 * StreamPrefix(id, n) + 16 * StreamBit(id, n) + 8 * StreamBit(id, n + 1)
      + 4 * StreamBit(id, n + 2) + 2 * StreamBit(id, n + 3) + StreamBit(id, n + 4)
  {
    assert StreamPrefix(id, n + 5) == 2 * StreamPrefix(id, n + 4) + StreamBit(id, n + 4);
    assert StreamPrefix(id, n + 4) == 2 * StreamPrefix(id, n + 3) + StreamBit(id, n + 3);
    assert StreamPrefix(id, n + 3) == 2 * StreamPrefix(id, n + 2) + StreamBit(id, n + 2);
    assert StreamPrefix(id, n + 2) == 2 * StreamPrefix(id, n + 1) + StreamBit(id, n + 1);
    assert StreamPrefix(id, n + 1) == 2 * StreamPrefix(id, n) + StreamBit(id, n);
  }

  /** The first 5i bits of the stream spell the base-32 value of the first i groups. */
  lemma PrefixOfGroups(id: Bytes12, i: nat)
    requires i <= EncodedLength
    ensures IsDigits(Groups(id)[..i], 32)
    ensures StreamPrefix(id, 5 * i) == Value(Groups(id)[..i], 32)
  {
    var gs := Groups(id);
    var ps := seq(EncodedLength + 1, k requires 0 <= k <= EncodedLength => StreamPrefix(id, 5 * k));
    forall k | 0 <= k < EncodedLength
      ensures 0 <= gs[k] < 32 && ps[k + 1] == 32 * ps[k] + gs[k]
    {
      PrefixOfGroup(id, k);
    }
    NumeralOfSteps(ps, gs, 32, i);
  }

  /**
   * The group values are the 20-digit base-32 numeral of the identifier's
   * 96-bit value shifted left by the four padding bits.
   */
  lemma GroupsAreNumeral(id: Bytes12)
    ensures 16 * Value(id, 256) < Pow(32, EncodedLength)
    ensures Groups(id) == Digits(16 * Value(id, 256), 32, EncodedLength)
  {
    PrefixOfBytes(id, 12);
    PrefixOfGroups(id, EncodedLength);
    assert id[..12] == id && Groups(id)[..EncodedLength] == Groups(id);
    PrefixOfPadding(id);
    DigitsOfValue(Groups(id), 32);
  }

  /** The text form is the symbols of the 20-digit base-32 numeral of the padded stream. */
  lemma EncodeIsNumeral(id: Bytes12)
    ensures 16 * Value(id, 256) < Pow(32, EncodedLength)
    ensures Encode(id) == Symbols(Digits(16 * Value(id, 256), 32, EncodedLength))
  {
    GroupsAreNumeral(id);
  }

  /** The text forms of two identifiers compare, symbol code by symbol code, as their 96-bit values `a` and `b` do. */
  lemma EncodeOrder(p: Bytes12, q: Bytes12, a: nat, b: nat)
    requires a == Value(p, 256) && b == Value(q, 256)
    ensures LexCompare(Codes(Encode(p)), Codes(Encode(q))) == Sign(a - b)
  {
    EncodeIsNumeral(p);
    EncodeIsNumeral(q);
    NumeralTextOrder(Encode(p), Encode(q), a, b);
  }

  /** The symbols of two shifted numerals compare as the numbers do. */
  lemma NumeralTextOrder(s: string, t: string, a: nat, b: nat)
    requires 16 * a < Pow(32, EncodedLength) && 16 * b < Pow(32, EncodedLength)
    requires s == Symbols(Digits(16 * a, 32, EncodedLength)) && t == Symbols(Digits(16 * b, 32, EncodedLength))
    ensures LexCompare(Codes(s), Codes(t)) == Sign(a - b)
  {
    var da, db := Digits(16 * a, 32, EncodedLength), Digits(16 * b, 32, EncodedLength);
    SymbolsOrder(da, db);
    NumeralOrder(da, db, 32, EncodedLength, 16 * a, 16 * b);
  }

  /** The four padding bits shift the 96 bits of the identifier left by four places. */
  lemma PrefixOfPadding(id: Bytes12)
    ensures StreamPrefix(id, 100) == 16 * StreamPrefix(id, 96)
  {
    assert StreamPrefix(id, 100) == 2 * StreamPrefix(id, 99);
    assert StreamPrefix(id, 99) == 2 * StreamPrefix(id, 98);
    assert StreamPrefix(id, 98) == 2 * StreamPrefix(id, 97);
    assert StreamPrefix(id, 97) == 2 * StreamPrefix(id, 96);
  }
}
