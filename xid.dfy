/**
 * The identifier value type: twelve bytes laid out as a 4-byte big-endian
 * timestamp in seconds, a 3-byte machine identifier, a 2-byte process
 * identifier and a 3-byte counter. Two identifiers are equal exactly when
 * their bytes are.
 */
module Xids {
  import opened Numbers
  import opened Wrappers
  import Codec

  type Bytes3 = s: seq<Byte> | |s| == 3 witness [0, 0, 0]
  type Bytes2 = s: seq<Byte> | |s| == 2 witness [0, 0]

  datatype Xid = Xid(bytes: Bytes12)

  /** The exceptions the constructors throw. */
  datatype Error =
    | IllegalArgument(message: string)         // IllegalArgumentException with this message
    | InvalidText(failure: Codec.ParseFailure) // a string that is not the text form of an identifier

  const NullBytesMessage: string := "bytes can not be null"
  const LengthMessage: string := "state should be: bytes has length of 12"
  const CounterMessage: string := "The counter must be between 0 and 16777215 (it must fit in three bytes)."

  /** `new Xid(byte[])`; `None` stands for a null array. */
  function FromBytes(b: Option<seq<Byte>>): (r: Result<Xid, Error>)
    ensures r.Ok? <==> b.Some? && |b.value| == 12
    ensures r.Ok? ==> r.value.bytes == b.value
    ensures b.None? ==> r == Err(IllegalArgument(NullBytesMessage))
    ensures b.Some? && |b.value| != 12 ==> r == Err(IllegalArgument(LengthMessage))
  {
    match b
    case None => Err(IllegalArgument(NullBytesMessage))
    case Some(s) => if |s| != 12 then Err(IllegalArgument(LengthMessage)) else Ok(Xid(s))
  }

  /** `toByteArray`: a copy of the twelve bytes. */
  function ToByteArray(x: Xid): (b: seq<Byte>)
    ensures FromBytes(Some(b)) == Ok(x)
  {
    x.bytes
  }

  /** Constructing from twelve bytes and reading them back gives the same bytes. */
  lemma ByteArrayRoundTrip(b: seq<Byte>)
    requires |b| == 12
    ensures FromBytes(Some(b)).Ok? && ToByteArray(FromBytes(Some(b)).value) == b
  {
  }

  /** The 32-bit value of bytes 0..3, most significant first. */
  function TimestampField(x: Xid): (u: nat)
    ensures u < TwoTo32
  {
    Value(x.bytes[..4], 256)
  }

  /** The machine, process and counter fields together: the value of bytes 4..11. */
  function TailField(x: Xid): (v: nat)
    ensures v < Pow(256, 8)
  {
    Value(x.bytes[4..], 256)
  }

  /** The counter field: the value of bytes 9..11. */
  function Counter(x: Xid): (c: nat)
    ensures c < TwoTo24
  {
    assert Pow(256, 3) == TwoTo24;
    Value(x.bytes[9..], 256)
  }

  /** An identifier's value is its timestamp field followed by the other eight bytes. */
  lemma ValueOfFields(x: Xid)
    ensures Value(x.bytes, 256) == TimestampField(x) * Pow(256, 8) + TailField(x)
  {
    ValueAppend(x.bytes[..4], x.bytes[4..], 256);
    assert x.bytes[..4] + x.bytes[4..] == x.bytes;
  }

  /** An identifier's value is its first nine bytes followed by the counter field. */
  lemma ValueOfCounter(x: Xid)
    ensures Value(x.bytes, 256) == Value(x.bytes[..9], 256) * TwoTo24 + Counter(x)
  {
    assert Pow(256, 3) == TwoTo24;
    ValueAppend(x.bytes[..9], x.bytes[9..], 256);
    assert x.bytes[..9] + x.bytes[9..] == x.bytes;
  }

  /** `getTimestamp`: bytes 0..3 assembled into a Java int, so the top bit is the sign. */
  function GetTimestamp(x: Xid): (t: Int32)
    ensures Unsigned32(t) == TimestampField(x)
  {
    var b0: int, b1: int, b2: int, b3: int := x.bytes[0], x.bytes[1], x.bytes[2], x.bytes[3];
    ValueOfFour(x.bytes[..4]);
    Signed32(b0 * 0x100_0000 + b1 * 0x1_0000 + b2 * 0x100 + b3)
  }

  /** `getDate().getTime()`: the timestamp field read as unsigned seconds, in milliseconds. */
  function GetDate(x: Xid): (ms: nat)
    ensures ms % 1000 == 0 && ms / 1000 == TimestampField(x)
  {
    Unsigned32(GetTimestamp(x)) * 1000
  }

  /** Java's `(int) (date.getTime() / 1000)`: the whole seconds of a date, cut to 32 bits. */
  function Seconds(ms: int): (t: Int32)
    ensures 0 <= ms < TwoTo32 * 1000 ==> Unsigned32(t) == ms / 1000
  {
    Signed32(TruncDiv(ms, 1000))
  }

  /**
   * The identifier with the given fields, each integer field cut into bytes
   * most significant first, as `(byte) (v >> 24)`, `(byte) (v >> 16)`, ... do.
   */
  function Layout(timestamp: Int32, machine: Bytes3, process: Bytes2, counter: nat): Xid
    requires counter < TwoTo24
  {
    var u := Unsigned32(timestamp);
    Xid([u / 0x100_0000 % 256, u / 0x1_0000 % 256, u / 0x100 % 256, u % 256,
         machine[0], machine[1], machine[2], process[0], process[1],
         counter / 0x1_0000 % 256, counter / 0x100 % 256, counter % 256])
  }

  /** The fields of a laid-out identifier read back as the values they were built from. */
  lemma LayoutFields(timestamp: Int32, machine: Bytes3, process: Bytes2, counter: nat)
    requires counter < TwoTo24
    ensures var x := Layout(timestamp, machine, process, counter);
      GetTimestamp(x) == timestamp && Counter(x) == counter
      && x.bytes[4..7] == machine && x.bytes[7..9] == process
  {
    var x := Layout(timestamp, machine, process, counter);
    var u := Unsigned32(timestamp);
    ValueOfFour(x.bytes[..4]);
    ValueOfThree(x.bytes[9..]);
    SplitFour(u);
    SplitThree(counter);
    Unsigned32Injective(GetTimestamp(x), timestamp);
  }

  lemma SplitFour(u: nat)
    requires u < TwoTo32
    ensures (u / 0x100_0000 % 256) * 0x100_0000 + (u / 0x1_0000 % 256) * 0x1_0000 + (u / 0x100 % 256) * 0x100 + u % 256 == u
  {
    var a, b, c := u / 0x100, u / 0x1_0000, u / 0x100_0000;
    assert b == a / 256;
    assert c == b / 256;
    assert c < 256;
  }

  lemma SplitThree(c: nat)
    requires c < TwoTo24
    ensures (c / 0x1_0000 % 256) * 0x1_0000 + (c / 0x100 % 256) * 0x100 + c % 256 == c
  {
    var a, b := c / 0x100, c / 0x1_0000;
    assert b == a / 256;
  }

  /** Identifiers with the same timestamp, machine and process fields agree on bytes 0..8. */
  lemma SameLeadingFields(x: Xid, y: Xid)
    requires GetTimestamp(x) == GetTimestamp(y)
    requires x.bytes[4..7] == y.bytes[4..7] && x.bytes[7..9] == y.bytes[7..9]
    ensures x.bytes[..9] == y.bytes[..9]
  {
    ValueInjective(x.bytes[..4], y.bytes[..4], 256);
    assert x.bytes[..9] == x.bytes[..4] + x.bytes[4..7] + x.bytes[7..9];
    assert y.bytes[..9] == y.bytes[..4] + y.bytes[4..7] + y.bytes[7..9];
  }

  /**
   * `new Xid(int timestamp, int counter)` of a process whose machine and
   * process identifiers are given: the counter must fit in three bytes.
   */
  function FromTimestamp(timestamp: Int32, machine: Bytes3, process: Bytes2, counter: int): (r: Result<Xid, Error>)
    ensures r.Ok? <==> 0 <= counter < TwoTo24
    ensures r.Err? ==> r.error == IllegalArgument(CounterMessage)
    ensures r.Ok? ==> GetTimestamp(r.value) == timestamp && Counter(r.value) == counter
    ensures r.Ok? ==> r.value.bytes[4..7] == machine && r.value.bytes[7..9] == process
  {
    if 0 <= counter < TwoTo24 then
      LayoutFields(timestamp, machine, process, counter);
      Ok(Layout(timestamp, machine, process, counter))
    else Err(IllegalArgument(CounterMessage))
  }

  /** `new Xid(Date date, int counter)`: the date's whole seconds as the timestamp. */
  function FromDate(ms: int, machine: Bytes3, process: Bytes2, counter: int): (r: Result<Xid, Error>)
    ensures r.Ok? <==> 0 <= counter < TwoTo24
    ensures r.Err? ==> r.error == IllegalArgument(CounterMessage)
    ensures r.Ok? ==> TimestampField(r.value) == TruncDiv(ms, 1000) % TwoTo32
    ensures r.Ok? ==> Counter(r.value) == counter
    ensures r.Ok? ==> r.value.bytes[4..7] == machine && r.value.bytes[7..9] == process
  {
    FromTimestamp(Seconds(ms), machine, process, counter)
  }

  /** For a date between 1970 and 2106 the identifier's date is that date cut to whole seconds. */
  lemma DateOfFromDate(ms: int, machine: Bytes3, process: Bytes2, counter: int)
    requires 0 <= ms < TwoTo32 * 1000 && 0 <= counter < TwoTo24
    ensures GetDate(FromDate(ms, machine, process, counter).value) == ms / 1000 * 1000
  {
  }

  /** `getSmallestWithDate`: the date's seconds, then eight zero bytes. */
  function SmallestWithDate(ms: int): (x: Xid)
    ensures x.bytes[..4] == ByteString(TruncDiv(ms, 1000) % TwoTo32, 4)
    ensures x.bytes[4..] == [0, 0, 0, 0, 0, 0, 0, 0]
  {
    var x := Layout(Seconds(ms), [0, 0, 0], [0, 0], 0);
    LayoutFields(Seconds(ms), [0, 0, 0], [0, 0], 0);
    ValueInjective(x.bytes[..4], ByteString(TruncDiv(ms, 1000) % TwoTo32, 4), 256);
    ZeroTail(x);
    x
  }

  /** Zero machine, process and counter fields make bytes 4..11 zero. */
  lemma ZeroTail(x: Xid)
    requires x.bytes[4..7] == [0, 0, 0] && x.bytes[7..9] == [0, 0] && Counter(x) == 0
    ensures x.bytes[4..] == [0, 0, 0, 0, 0, 0, 0, 0]
  {
    var c := x.bytes[9..];
    ValueOfThree(c);
    assert c == [0, 0, 0];
    assert x.bytes[4..] == x.bytes[4..7] + x.bytes[7..9] + c;
  }

  /** `compareTo`: the bytes compared as unsigned values, the first difference deciding. */
  function CompareTo(x: Xid, y: Xid): (r: int)
    ensures -1 <= r <= 1
  {
    LexCompare(x.bytes, y.bytes)
  }

  /** `toHexString`: the 20-symbol text form. */
  function ToHexString(x: Xid): (s: string)
    ensures |s| == Codec.EncodedLength
    ensures forall i :: 0 <= i < |s| ==> s[i] in Codec.Alphabet
  {
    Codec.Encode(x.bytes)
  }

  /** `new Xid(String)`. */
  function FromHexString(s: string): (r: Result<Xid, Error>)
    ensures r == Err(InvalidText(Codec.WrongLength)) <==> |s| != Codec.EncodedLength
    ensures r == Err(InvalidText(Codec.InvalidCharacter)) <==> |s| == Codec.EncodedLength && exists i :: 0 <= i < |s| && s[i] !in Codec.Alphabet
    ensures r.Ok? ==> forall i :: 0 <= i < |s| ==> s[i] in Codec.Alphabet
  {
    match Codec.Decode(s)
    case Ok(b) => Ok(Xid(b))
    case Err(f) => Err(InvalidText(f))
  }

  /** `compareTo` orders identifiers by their 96-bit unsigned value. */
  lemma CompareIsValueOrder(x: Xid, y: Xid)
    ensures CompareTo(x, y) == Sign(Value(x.bytes, 256) - Value(y.bytes, 256))
  {
    LexCompareIsValueOrder(x.bytes, y.bytes, 256);
  }

  lemma CompareReflexive(x: Xid)
    ensures CompareTo(x, x) == 0
  {
    CompareIsValueOrder(x, x);
  }

  /** Swapping the arguments negates the result. */
  lemma CompareAntisymmetric(x: Xid, y: Xid)
    ensures CompareTo(y, x) == -CompareTo(x, y)
  {
    CompareIsValueOrder(x, y);
    CompareIsValueOrder(y, x);
  }

  /** `compareTo` is 0 exactly for equal identifiers. */
  lemma CompareZeroIsEquality(x: Xid, y: Xid)
    ensures CompareTo(x, y) == 0 <==> x == y
  {
    CompareIsValueOrder(x, y);
    if CompareTo(x, y) == 0 {
      ValueInjective(x.bytes, y.bytes, 256);
    }
  }

  lemma CompareTransitive(x: Xid, y: Xid, z: Xid)
    requires CompareTo(x, y) <= 0 && CompareTo(y, z) <= 0
    ensures CompareTo(x, z) <= 0
    ensures CompareTo(x, y) == -1 || CompareTo(y, z) == -1 ==> CompareTo(x, z) == -1
  {
    CompareIsValueOrder(x, y);
    CompareIsValueOrder(y, z);
    CompareIsValueOrder(x, z);
  }

  /** An earlier timestamp field makes an identifier smaller, whatever the other fields. */
  lemma TimestampDecides(x: Xid, y: Xid)
    requires TimestampField(x) < TimestampField(y)
    ensures CompareTo(x, y) == -1
  {
    CompareIsValueOrder(x, y);
    ValueOfFields(x);
    ValueOfFields(y);
    LeadingDigitDecides(TimestampField(x), TimestampField(y), TailField(x), TailField(y), Pow(256, 8));
  }

  /** Identifiers that agree up to the counter are ordered by the counter. */
  lemma CounterDecides(x: Xid, y: Xid)
    requires x.bytes[..9] == y.bytes[..9] && Counter(x) < Counter(y)
    ensures CompareTo(x, y) == -1
  {
    CompareIsValueOrder(x, y);
    ValueOfCounter(x);
    ValueOfCounter(y);
  }

  /** For a date between 1970 and 2106 its smallest identifier carries the date cut to whole seconds. */
  lemma SmallestDate(ms: int)
    requires 0 <= ms < TwoTo32 * 1000
    ensures GetDate(SmallestWithDate(ms)) == ms / 1000 * 1000
  {
  }

  /**
   * The smallest identifier of a second is below or equal to every identifier
   * of that second, and strictly below each one whose bytes 4..11 are not all zero.
   */
  lemma SmallestIsLeast(ms: int, x: Xid)
    requires TimestampField(x) == TimestampField(SmallestWithDate(ms))
    ensures CompareTo(SmallestWithDate(ms), x) <= 0
    ensures CompareTo(SmallestWithDate(ms), x) == -1 <==> x.bytes[4..] != [0, 0, 0, 0, 0, 0, 0, 0]
  {
    var s := SmallestWithDate(ms);
    var zeros := [0, 0, 0, 0, 0, 0, 0, 0];
    ValueOfZeros();
    CompareIsValueOrder(s, x);
    ValueOfFields(s);
    ValueOfFields(x);
    if TailField(x) == 0 {
      ValueInjective(x.bytes[4..], zeros, 256);
    }
  }

  lemma ValueOfZeros()
    ensures Value([0, 0, 0, 0, 0, 0, 0, 0], 256) == 0
  {
    assert ByteString(0, 8) == [0, 0, 0, 0, 0, 0, 0, 0];
  }

  /** Reading back the text form gives back the identifier. */
  lemma HexRoundTrip(x: Xid)
    ensures FromHexString(ToHexString(x)) == Ok(x)
  {
    Codec.DecodeEncode(x.bytes);
  }

  /** A string accepted by `new Xid(String)` is the text form of what it builds. */
  lemma HexInverse(s: string, x: Xid)
    requires FromHexString(s) == Ok(x)
    ensures ToHexString(x) == s
  {
    Codec.EncodeDecode(s, x.bytes);
  }

  /** `new Xid(String)` accepts exactly the strings that are the text form of some identifier. */
  lemma HexAcceptsTextForms(s: string)
    ensures FromHexString(s).Ok? <==> exists x :: ToHexString(x) == s
  {
    if FromHexString(s).Ok? {
      HexInverse(s, FromHexString(s).value);
    }
    if x :| ToHexString(x) == s {
      HexRoundTrip(x);
    }
  }

  /** Different identifiers have different text forms. */
  lemma HexInjective(x: Xid, y: Xid)
    requires ToHexString(x) == ToHexString(y)
    ensures x == y
  {
    HexRoundTrip(x);
    HexRoundTrip(y);
  }

  /**
   * The text forms compare, symbol code by symbol code, exactly as the
   * identifiers do: the alphabet is listed in ascending code order.
   */
  lemma TextOrder(x: Xid, y: Xid)
    ensures LexCompare(Codec.Codes(ToHexString(x)), Codec.Codes(ToHexString(y))) == CompareTo(x, y)
  {
    Codec.EncodeOrder(x.bytes, y.bytes, Value(x.bytes, 256), Value(y.bytes, 256));
    CompareIsValueOrder(x, y);
  }
}
