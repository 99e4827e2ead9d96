/**
 * The concrete cases of the test suite, each stated about the model: the
 * sample byte arrays written as Java `byte` literals, the dates, the text
 * forms and the generator runs.
 */
module Samples {
  import opened Numbers
  import opened Wrappers
  import opened Xids
  import Codec
  import Buffers
  import Generators

  /** A Java `byte[]` literal: each signed value as the byte it denotes. */
  function JavaBytes(vs: seq<int>): (b: seq<Byte>)
    requires forall i :: 0 <= i < |vs| ==> -128 <= vs[i] < 128
    ensures |b| == |vs|
    ensures forall i :: 0 <= i < |vs| ==> ToJavaByte(b[i]) == vs[i]
  {
    seq(|vs|, i requires 0 <= i < |vs| => FromJavaByte(vs[i]))
  }

  /** `{81, 6, -4, -102, -68, -126, 55, 85, -127, 54, -46, -119}` as unsigned bytes. */
  const Sample: Bytes12 := [81, 6, 252, 154, 188, 130, 55, 85, 129, 54, 210, 137]

  /** The bytes `0x4d 0x88 0xe1 0x5b 0x60 0xf4 0x86 0xe4 0x28 0x41 0x2d 0xc9` of the text-form vector. */
  const Vector: Bytes12 := [0x4d, 0x88, 0xe1, 0x5b, 0x60, 0xf4, 0x86, 0xe4, 0x28, 0x41, 0x2d, 0xc9]

  const VectorText: string := "9m4e2mr0ui3e8a215n4g"

  const Zeros: Bytes12 := [0, 0, 0, 0, 0, 0, 0, 0, 0, 0, 0, 0]

  lemma SampleIsJavaLiteral()
    ensures JavaBytes([81, 6, -4, -102, -68, -126, 55, 85, -127, 54, -46, -119]) == Sample
  {
    var b := JavaBytes([81, 6, -4, -102, -68, -126, 55, 85, -127, 54, -46, -119]);
    assert b[2] == 252 && b[3] == 154 && b[4] == 188 && b[5] == 130;
    assert b[8] == 129 && b[10] == 210 && b[11] == 137;
  }

  /** `testToBytes`: the bytes given are the bytes read back, and the bytes a 12-byte buffer receives. */
  method ToBytesSample() returns (fromArray: seq<Byte>, fromBuffer: seq<Byte>)
    ensures fromArray == Sample && fromBuffer == Sample
  {
    var x := FromBytes(Some(Sample));
    fromArray := ToByteArray(x.value);
    fromBuffer := Buffers.PutIntoFreshBuffer(x.value);
  }

  /** `testFromBytes`, first half: the timestamp of the sample is 0x5106FC9A. */
  lemma TimestampSample()
    ensures FromBytes(Some(Sample)).Ok?
    ensures GetTimestamp(FromBytes(Some(Sample)).value) == 0x5106FC9A
  {
  }

  /** `testFromBytes`, second half: the same timestamp when read through a buffer wrapped around the bytes. */
  method TimestampFromBufferSample() returns (t: Int32)
    ensures t == 0x5106FC9A
  {
    var a := new Byte[12](i requires 0 <= i < 12 => Sample[i]);
    assert a[..] == Sample;
    var r := Buffers.ReadFromWrapped(a);
    TimestampSample();
    t := GetTimestamp(r.value);
  }

  /** `testLengthValidation`: a null array and arrays of 11 and 13 bytes are refused, with these messages. */
  lemma LengthValidationSample()
    ensures FromBytes(None) == Err(IllegalArgument("bytes can not be null"))
    ensures FromBytes(Some(seq(11, _ => 0))) == Err(IllegalArgument("state should be: bytes has length of 12"))
    ensures FromBytes(Some(seq(13, _ => 0))) == Err(IllegalArgument("state should be: bytes has length of 12"))
  {
  }

  /** `testGetSmallestWithDate`: the bytes of the smallest identifier of 1588467737760 ms, and its date. */
  lemma SmallestWithDateSample(ms: int)
    requires ms == 1588467737760
    ensures SmallestWithDate(ms).bytes == JavaBytes([94, -82, 24, 25, 0, 0, 0, 0, 0, 0, 0, 0])
    ensures GetDate(SmallestWithDate(ms)) == 1588467737000
  {
    SmallestBytesSample(ms);
    SmallestDateSample(ms);
  }

  lemma SmallestBytesSample(ms: int)
    requires ms == 1588467737760
    ensures SmallestWithDate(ms).bytes == JavaBytes([94, -82, 24, 25, 0, 0, 0, 0, 0, 0, 0, 0])
  {
    SampleSeconds(ms);
    JoinHead(SmallestWithDate(ms), [94, 174, 24, 25]);
    SmallestIsJavaLiteral();
  }

  /** Every date within the sample's second, 1588467737760 among them, has the smallest identifier dated 1588467737000. */
  lemma SmallestDateSample(ms: int)
    requires 1588467737000 <= ms < 1588467738000
    ensures GetDate(SmallestWithDate(ms)) == 1588467737000
  {
    SmallestDate(ms);
    DivisionSample(ms);
  }

  lemma DivisionSample(ms: int)
    requires 1588467737000 <= ms < 1588467738000
    ensures ms / 1000 * 1000 == 1588467737000
  {
    DivModUnique(ms, 1000, 1588467737, ms - 1588467737000);
  }

  lemma JoinHead(x: Xid, head: seq<Byte>)
    requires x.bytes[..4] == head && x.bytes[4..] == [0, 0, 0, 0, 0, 0, 0, 0]
    ensures x.bytes == head + [0, 0, 0, 0, 0, 0, 0, 0]
  {
    assert x.bytes == x.bytes[..4] + x.bytes[4..];
  }

  lemma SampleSeconds(ms: int)
    requires ms == 1588467737760
    ensures ByteString(TruncDiv(ms, 1000) % TwoTo32, 4) == [94, 174, 24, 25]
  {
    assert TruncDiv(ms, 1000) % TwoTo32 == 0x5eae_1819;
    assert ByteString(0x5eae_1819, 4) == [94, 174, 24, 25];
  }

  lemma SmallestIsJavaLiteral()
    ensures JavaBytes([94, -82, 24, 25, 0, 0, 0, 0, 0, 0, 0, 0]) == [94, 174, 24, 25, 0, 0, 0, 0, 0, 0, 0, 0]
  {
    var b := JavaBytes([94, -82, 24, 25, 0, 0, 0, 0, 0, 0, 0, 0]);
    assert b[1] == 174;
  }

  /**
   * `testGetSmallestWithDate`, last line: an identifier issued for a date
   * compares above the smallest identifier of that date unless its machine,
   * process and counter fields are all zero.
   */
  lemma SmallestBelowIssued(machine: Bytes3, process: Bytes2, ms: int, counter: nat)
    requires counter < TwoTo24
    requires machine != [0, 0, 0] || process != [0, 0] || counter != 0
    ensures CompareTo(SmallestWithDate(ms), Generators.Issue(machine, process, ms, counter)) == -1
  {
    var x := Generators.Issue(machine, process, ms, counter);
    Generators.IssueFields(machine, process, ms, counter);
    Unsigned32Injective(GetTimestamp(x), GetTimestamp(SmallestWithDate(ms)));
    LayoutFields(Seconds(ms), [0, 0, 0], [0, 0], 0);
    SmallestIsLeast(ms, x);
    TailNonzero(x, machine, process, counter);
  }

  lemma TailNonzero(x: Xid, machine: Bytes3, process: Bytes2, counter: nat)
    requires x.bytes[4..7] == machine && x.bytes[7..9] == process && Counter(x) == counter
    requires machine != [0, 0, 0] || process != [0, 0] || counter != 0
    ensures x.bytes[4..] != [0, 0, 0, 0, 0, 0, 0, 0]
  {
    if x.bytes[4..] == [0, 0, 0, 0, 0, 0, 0, 0] {
      assert x.bytes[4..7] == x.bytes[4..][..3] && x.bytes[7..9] == x.bytes[4..][3..5];
      assert x.bytes[9..] == [0, 0, 0];
      ZeroCounter(x.bytes[9..]);
    }
  }

  lemma ZeroCounter(s: seq<Byte>)
    requires s == [0, 0, 0]
    ensures Value(s, 256) == 0
  {
    assert ByteString(0, 3) == [0, 0, 0];
  }

  /** `testGetTimeZero` and the three tests after it: the date of each extreme timestamp, in milliseconds. */
  lemma GetTimeSamples(machine: Bytes3, process: Bytes2)
    ensures GetDate(FromTimestamp(0, machine, process, 0).value) == 0
    ensures GetDate(FromTimestamp(0x7FFF_FFFF, machine, process, 0).value) == 0x7FFF_FFFF * 1000
    ensures GetDate(FromTimestamp(Signed32(0x8000_0000), machine, process, 0).value) == 0x8000_0000 * 1000
    ensures GetDate(FromTimestamp(Signed32(0xFFFF_FFFF), machine, process, 0).value) == 0xFFFF_FFFF * 1000
  {
    assert Signed32(0x8000_0000) == -0x8000_0000;
    assert Signed32(0xFFFF_FFFF) == -1;
  }

  /**
   * `testCompareTo`: identifiers of one date with counters 0 and 1, and one
   * of a date ten seconds later with counter 0, for any date between 1970
   * and 2106.
   */
  lemma CompareToSample(ms: int, machine: Bytes3, process: Bytes2)
    requires 0 <= ms && ms + 10000 < TwoTo32 * 1000
    ensures var first, second, third := FromDate(ms, machine, process, 0).value,
                                        FromDate(ms, machine, process, 1).value,
                                        FromDate(ms + 10000, machine, process, 0).value;
      CompareTo(first, first) == 0
      && CompareTo(first, second) == -1 && CompareTo(first, third) == -1
      && CompareTo(second, first) == 1 && CompareTo(third, first) == 1
  {
    var first, second, third := FromDate(ms, machine, process, 0).value,
                                FromDate(ms, machine, process, 1).value,
                                FromDate(ms + 10000, machine, process, 0).value;
    CompareReflexive(first);
    SameLeadingFields(first, second);
    CounterDecides(first, second);
    CompareAntisymmetric(first, second);
    assert TimestampField(third) == (ms + 10000) / 1000 == ms / 1000 + 10;
    TimestampDecides(first, third);
    CompareAntisymmetric(first, third);
  }

  /** `testToHexString`, first line: twelve zero bytes. */
  lemma ZerosText()
    ensures ToHexString(Xid(Zeros)) == "00000000000000000000"
  {
    ZerosValue();
    ZerosGroups(Zeros);
    ZerosSymbols();
  }

  lemma ZerosValue()
    ensures Value(Zeros, 256) == 0
  {
    assert ByteString(0, 12) == Zeros;
  }

  lemma ZerosGroups(id: Bytes12)
    requires Value(id, 256) == 0
    ensures Codec.Groups(id) == [0, 0, 0, 0, 0, 0, 0, 0, 0, 0, 0, 0, 0, 0, 0, 0, 0, 0, 0, 0]
  {
    var zs := [0, 0, 0, 0, 0, 0, 0, 0, 0, 0];
    TenZeroDigits();
    GroupsOfHalves(id, 0, 0, zs, zs);
  }

  lemma TenZeroDigits()
    ensures Digits(0, 32, 10) == [0, 0, 0, 0, 0, 0, 0, 0, 0, 0]
  {
  }

  lemma ZerosSymbols()
    ensures Codec.Symbols([0, 0, 0, 0, 0, 0, 0, 0, 0, 0, 0, 0, 0, 0, 0, 0, 0, 0, 0, 0]) == "00000000000000000000"
  {
  }

  /** `testToHexString`, second line. */
  lemma VectorToText()
    ensures ToHexString(Xid(Vector)) == VectorText
  {
    VectorValue();
    VectorGroups(Vector);
    VectorSymbols();
  }

  /** `testFromHexString`: the text of the vector reads back as its bytes. */
  lemma VectorFromText()
    ensures FromHexString(VectorText) == Ok(Xid(Vector))
    ensures ToByteArray(FromHexString(VectorText).value) == Vector
  {
    VectorToText();
    HexRoundTrip(Xid(Vector));
  }

  /** `new Xid(String)` refuses the vector's text in upper case. */
  lemma UpperCaseRejected()
    ensures FromHexString("9M4E2MR0UI3E8A215N4G") == Err(InvalidText(Codec.InvalidCharacter))
  {
    assert !Codec.IsSymbol("9M4E2MR0UI3E8A215N4G"[1]);
  }

  /** `new Xid(String)` refuses the vector's text with a last symbol whose padding bits are not zero. */
  lemma NonzeroPaddingRejected()
    ensures FromHexString("9m4e2mr0ui3e8a215n4h") == Err(InvalidText(Codec.NonzeroPadding))
  {
    PaddedSymbols();
    Codec.DecodeSymbols([9, 22, 4, 14, 2, 22, 27, 0, 30, 18, 3, 14, 8, 10, 2, 1, 5, 23, 4, 17]);
  }

  lemma PaddedSymbols()
    ensures Codec.Symbols([9, 22, 4, 14, 2, 22, 27, 0, 30, 18, 3, 14, 8, 10, 2, 1, 5, 23, 4, 17]) == "9m4e2mr0ui3e8a215n4h"
  {
  }

  /** `new Xid(String)` refuses a text one symbol short. */
  lemma ShortTextRejected()
    ensures FromHexString("9m4e2mr0ui3e8a215n4") == Err(InvalidText(Codec.WrongLength))
  {
  }

  lemma VectorValue()
    ensures Value(Vector, 256) == 0x4d88e15b60f486e428412dc9
  {
    VectorDigits();
    ValueOfDigits(0x4d88e15b60f486e428412dc9, 256, 12);
  }

  lemma VectorDigits()
    ensures Digits(0x4d88e15b60f486e428412dc9, 256, 12) == Vector
  {
  }

  lemma PowThirtyTwoTen()
    ensures Pow(32, 10) == 0x4_0000_0000_0000
  {
  }

  /** The vector's 100 bits, as 20 five-bit groups: the first ten, then the last ten. */
  lemma VectorGroups(id: Bytes12)
    requires Value(id, 256) == 0x4d88e15b60f486e428412dc9
    ensures Codec.Groups(id) == [9, 22, 4, 14, 2, 22, 27, 0, 30, 18, 3, 14, 8, 10, 2, 1, 5, 23, 4, 16]
  {
    var hs, ls := [9, 22, 4, 14, 2, 22, 27, 0, 30, 18], [3, 14, 8, 10, 2, 1, 5, 23, 4, 16];
    VectorHalves(id);
    HighGroups();
    LowGroups();
    GroupsOfHalves(id, 341001167012818, 121231962725520, hs, ls);
  }

  /** The vector's value, shifted left by the four padding bits, split into two 50-bit halves. */
  lemma VectorHalves(id: Bytes12)
    requires Value(id, 256) == 0x4d88e15b60f486e428412dc9
    ensures 341001167012818 < Pow(32, 10) && 121231962725520 < Pow(32, 10)
    ensures 16 * Value(id, 256) == 341001167012818 * Pow(32, 10) + 121231962725520
  {
    PowThirtyTwoTen();
  }

  /**
   * The groups of an identifier whose 100-bit stream is the numeral
   * hi * 32^10 + lo: the ten digits hs of hi, then the ten digits ls of lo.
   */
  lemma GroupsOfHalves(id: Bytes12, hi: nat, lo: nat, hs: seq<int>, ls: seq<int>)
    requires hi < Pow(32, 10) && lo < Pow(32, 10)
    requires 16 * Value(id, 256) == hi * Pow(32, 10) + lo
    requires Digits(hi, 32, 10) == hs && Digits(lo, 32, 10) == ls
    ensures Codec.Groups(id) == hs + ls
  {
    Codec.GroupsAreNumeral(id);
    DigitsSplit(16 * Value(id, 256), 32, 10, 10, hi, lo);
  }

  lemma HighGroups()
    ensures 341001167012818 < Pow(32, 10)
    ensures Digits(341001167012818, 32, 10) == [9, 22, 4, 14, 2, 22, 27, 0, 30, 18]
  {
    assert Digits(10162626, 32, 5) == [9, 22, 4, 14, 2];
    assert Digits(23954386, 32, 5) == [22, 27, 0, 30, 18];
    TenDigits(341001167012818, 10162626, 23954386, [9, 22, 4, 14, 2], [22, 27, 0, 30, 18]);
  }

  lemma LowGroups()
    ensures 121231962725520 < Pow(32, 10)
    ensures Digits(121231962725520, 32, 10) == [3, 14, 8, 10, 2, 1, 5, 23, 4, 16]
  {
    assert Digits(3612994, 32, 5) == [3, 14, 8, 10, 2];
    assert Digits(1236112, 32, 5) == [1, 5, 23, 4, 16];
    TenDigits(121231962725520, 3612994, 1236112, [3, 14, 8, 10, 2], [1, 5, 23, 4, 16]);
  }

  /** A ten-digit base-32 numeral is the five digits of its high part, then the five of its low part. */
  lemma TenDigits(v: nat, q: nat, r: nat, hs: seq<int>, ls: seq<int>)
    requires q < Pow(32, 5) && r < Pow(32, 5) && v == q * Pow(32, 5) + r
    requires Digits(q, 32, 5) == hs && Digits(r, 32, 5) == ls
    ensures v < Pow(32, 10) && Digits(v, 32, 10) == hs + ls
  {
    PowThirtyTwoTen();
    assert Pow(32, 5) == 0x200_0000;
    DigitsSplit(v, 32, 5, 5, q, r);
  }

  lemma VectorSymbols()
    ensures Codec.Symbols([9, 22, 4, 14, 2, 22, 27, 0, 30, 18, 3, 14, 8, 10, 2, 1, 5, 23, 4, 16]) == VectorText
  {
  }

  /**
   * `testIntervals`: ten calls within one second, the counter not wrapping,
   * give equal timestamps and increasing identifiers.
   */
  method IntervalsSample(g: Generators.Generator, clocks: seq<int>) returns (ids: seq<Xid>)
    requires g.Valid() && g.counter + 10 <= TwoTo24 && |clocks| == 10
    requires forall i :: 0 <= i < 10 ==> TruncDiv(clocks[i], 1000) == TruncDiv(clocks[0], 1000)
    modifies g
    ensures |ids| == 10
    ensures forall i :: 1 <= i < 10 ==>
      GetTimestamp(ids[i]) - GetTimestamp(ids[i - 1]) == 0 && CompareTo(ids[i], ids[i - 1]) > 0
  {
    ghost var c0 := g.counter;
    ids := Generators.Intervals(g, clocks);
    Generators.IntervalsHold(g.machine, g.process, c0, clocks);
  }

  /** `testNoCollisions`: a million calls, whatever the clock reads, issue no text form twice. */
  method NoCollisionsSample(g: Generators.Generator, clocks: seq<int>) returns (ok: bool)
    requires g.Valid() && |clocks| == 1000000
    modifies g
    ensures ok
  {
    ok := Generators.HasNoCollisions(g, clocks);
  }
}
