# java-xid in Dafny

A model of the `Xid` identifier of java-xid, with proofs. An `Xid` holds
twelve bytes:

- a 4-byte big-endian timestamp in seconds;
- a 3-byte machine identifier;
- a 2-byte process identifier;
- a 3-byte counter.

Its text form is 20 symbols of the base32hex alphabet (section 7 of
RFC 4648, lower case, no `=` padding). A process-wide generator issues new
identifiers from the clock, its machine and process identifiers, and a counter
that advances modulo 2^24.

`Xid.java` is not part of this model. The behaviour is rebuilt from what
`src/test/java/com/github/shamil/XidTest.java` asserts, and every row below
cites the test lines it stands for. Where the tests leave a behaviour open,
the model makes a choice; each choice is listed under "## Left out".

The modules, one per file:

- `Numbers` (`numbers.dfy`): Java `byte`/`int` conversions, truncating
  division, and big-endian numerals (`Value`, `Digits`, `ByteString`,
  `LexCompare`).
- `Wrappers` (`wrappers.dfy`): `Option` (a `null` is `None`) and `Result`.
- `Codec` (`codec.dfy`): the 100-bit stream (96 identifier bits plus four zero
  padding bits), its 5-bit groups, `Encode` and a strict `Decode`.
- `Xids` (`xid.dfy`): the `Xid` value, its constructors and accessors,
  `compareTo`, `getSmallestWithDate` and the text form.
- `Buffers` (`buffer.dfy`): a `ByteBuffer` class over an `array`, with
  `putToByteBuffer` and `new Xid(ByteBuffer)`.
- `Generators` (`generator.dfy`): the `Generator` class, with constant machine
  and process identifiers and a mutable counter. It also holds the two loops
  of `testIntervals` and `hasNoCollisions`.
- `Samples` (`samples.dfy`): the concrete assertions of the test suite on
  fixed values, as lemmas or methods. The other tests are covered elsewhere:
  - `testBytesRoundTrip` (lines 70-82) by `Xids.ToByteArray` and `Xids.ByteArrayRoundTrip`;
  - `testHexStringConstructor` (lines 127-130) by `Xids.HexRoundTrip`;
  - `testDateCons` (lines 121-124) by `Generators.IssueDate`.

  `testTime` has no counterpart (see "## Left out").

## Model

| member | source | states |
|---|---|---|
| Xids.FromBytes | src/test/java/com/github/shamil/XidTest.java:49-67 | construction succeeds exactly for a present 12-byte array and keeps those bytes; `null` gives "bytes can not be null"; any other length gives "state should be: bytes has length of 12" |
| Xids.ToByteArray | src/test/java/com/github/shamil/XidTest.java:70-82 | the bytes read back rebuild an equal identifier |
| Xids.ByteArrayRoundTrip | src/test/java/com/github/shamil/XidTest.java:26-30 | for every 12-byte array, construct-then-`toByteArray` returns the same bytes |
| Xids.GetTimestamp | src/test/java/com/github/shamil/XidTest.java:38-46 | the Java int whose unsigned value is the big-endian value of bytes 0-3 |
| Xids.GetDate | src/test/java/com/github/shamil/XidTest.java:95-112 | a whole number of seconds in milliseconds, namely the unsigned timestamp field |
| Xids.Seconds | src/test/java/com/github/shamil/XidTest.java:121-124 | `(int) (ms / 1000)`; between 1970 and 2106 its unsigned value is ms / 1000 |
| Xids.LayoutFields | src/test/java/com/github/shamil/XidTest.java:95-112 | the identifier built from the fields reads back that timestamp, counter, machine and process |
| Xids.FromTimestamp | src/test/java/com/github/shamil/XidTest.java:95-112 | `new Xid(int, int)` succeeds exactly when the counter fits in three bytes and carries the given timestamp, counter, machine and process; otherwise it fails with the counter message |
| Xids.FromDate | src/test/java/com/github/shamil/XidTest.java:133-138 | `new Xid(Date, int)` succeeds exactly for a 3-byte counter and otherwise fails with the counter message; on success its timestamp field is the date's truncated seconds modulo 2^32, its counter is the given counter, and bytes 4-8 are the machine and process identifiers |
| Xids.DateOfFromDate | src/test/java/com/github/shamil/XidTest.java:133-138 | `new Xid(Date, int)`: for dates from 1970 to 2106 the identifier's date is the date cut to whole seconds |
| Xids.SmallestWithDate | src/test/java/com/github/shamil/XidTest.java:85-89 | the bytes are the 4-byte big-endian truncated seconds, then eight zeros |
| Xids.SmallestDate | src/test/java/com/github/shamil/XidTest.java:90 | the smallest identifier's date is the date cut to whole seconds |
| Xids.SmallestIsLeast | src/test/java/com/github/shamil/XidTest.java:91 | the smallest identifier of a second is at most every identifier of that second, and strictly below exactly those whose bytes 4-11 are not all zero |
| Xids.CompareTo | src/test/java/com/github/shamil/XidTest.java:133-144 | the result is -1, 0 or 1 |
| Xids.TextOrder | src/test/java/com/github/shamil/XidTest.java:133-151 | the text forms, compared character code by character code, are ordered exactly as `compareTo` orders the identifiers |
| Codec.SymbolsOrder | src/test/java/com/github/shamil/XidTest.java:146-151 | the alphabet is in ascending code order, so symbol strings compare as the group values they spell |
| Codec.EncodeOrder | src/test/java/com/github/shamil/XidTest.java:146-151 | the text forms of two identifiers compare as their 96-bit values |
| Xids.CompareIsValueOrder | src/test/java/com/github/shamil/XidTest.java:133-144 | `compareTo` is the sign of the difference of the two 96-bit unsigned values |
| Xids.CompareReflexive | src/test/java/com/github/shamil/XidTest.java:139 | `x.compareTo(x) == 0` |
| Xids.CompareAntisymmetric | src/test/java/com/github/shamil/XidTest.java:140-143 | swapping the arguments negates the result |
| Xids.CompareZeroIsEquality | src/test/java/com/github/shamil/XidTest.java:139 | the result is 0 exactly for equal identifiers |
| Xids.CompareTransitive | src/test/java/com/github/shamil/XidTest.java:133-144 | the order is transitive, and strictly so when either step is strict |
| Xids.TimestampDecides | src/test/java/com/github/shamil/XidTest.java:141 | a smaller timestamp field makes an identifier smaller, whatever the other fields |
| Xids.CounterDecides | src/test/java/com/github/shamil/XidTest.java:140 | identifiers equal up to the counter are ordered by the counter |
| Xids.ToHexString | src/test/java/com/github/shamil/XidTest.java:146-151 | 20 symbols, all from the alphabet |
| Xids.FromHexString | src/test/java/com/github/shamil/XidTest.java:153-158 | a string that is not 20 long is refused as such; a 20-character string with a character outside the alphabet is refused as an invalid character, and only such strings are; an accepted string uses only alphabet symbols |
| Xids.HexRoundTrip | src/test/java/com/github/shamil/XidTest.java:127-130 | `new Xid(x.toHexString())` equals x for every x |
| Xids.HexInverse | src/test/java/com/github/shamil/XidTest.java:153-158 | every accepted string is the text form of the identifier it builds |
| Xids.HexAcceptsTextForms | src/test/java/com/github/shamil/XidTest.java:153-158 | `new Xid(String)` accepts exactly the text forms of identifiers |
| Xids.HexInjective | src/test/java/com/github/shamil/XidTest.java:209-219 | distinct identifiers have distinct text forms |
| Codec.SymbolValue | src/test/java/com/github/shamil/XidTest.java:153-158 | the value of a symbol is its position in the alphabet |
| Codec.SymbolValueOfAlphabet | src/test/java/com/github/shamil/XidTest.java:153-158 | each position in the alphabet holds a symbol whose value is that position |
| Codec.Symbols | src/test/java/com/github/shamil/XidTest.java:146-151 | one alphabet symbol per group value |
| Codec.Decode | src/test/java/com/github/shamil/XidTest.java:153-158 | a wrong length is refused as such; a 20-character string with a character outside the alphabet is refused as an invalid character, and only such strings are; accepted strings use only alphabet symbols |
| Codec.LastGroupPadding | src/test/java/com/github/shamil/XidTest.java:146-151 | the last group ends in four zero padding bits |
| Codec.GroupsAreNumeral | src/test/java/com/github/shamil/XidTest.java:146-151 | the groups are the 20-digit base-32 numeral of 16 times the identifier's value, so the text form is most significant bit first |
| Codec.ValuesOfEncoding | src/test/java/com/github/shamil/XidTest.java:127-130 | every symbol of an encoding decodes back to its group |
| Codec.ReassembleGroups | src/test/java/com/github/shamil/XidTest.java:127-130 | reassembling the groups gives back the twelve bytes |
| Codec.GroupsOfReassembled | src/test/java/com/github/shamil/XidTest.java:153-158 | group values with zero padding come back as the groups of the bytes they reassemble to |
| Codec.DecodeEncode | src/test/java/com/github/shamil/XidTest.java:127-130 | decoding an encoding gives back the bytes |
| Codec.EncodeDecode | src/test/java/com/github/shamil/XidTest.java:153-158 | encoding what a string decodes to gives back the string |
| Numbers.FromJavaByte | src/test/java/com/github/shamil/XidTest.java:27 | the byte a signed Java byte literal denotes, which converts back to that literal |
| Numbers.Unsigned32 | src/test/java/com/github/shamil/XidTest.java:105-112 | a value below 2^32, congruent to the int modulo 2^32, and equal to it when it is not negative |
| Numbers.Signed32 | src/test/java/com/github/shamil/XidTest.java:105-112 | `(int) v`: congruent to v modulo 2^32 |
| Numbers.TruncDiv | src/test/java/com/github/shamil/XidTest.java:86-90 | the quotient rounded toward zero |
| Numbers.Digits | src/test/java/com/github/shamil/XidTest.java:85-89 | an n-digit numeral in the base |
| Numbers.ValueOfDigits | src/test/java/com/github/shamil/XidTest.java:85-89 | the numeral of v denotes v |
| Numbers.ByteString | src/test/java/com/github/shamil/XidTest.java:85-89 | n bytes, most significant first, whose value is v |
| Numbers.DigitsOfValue | src/test/java/com/github/shamil/XidTest.java:146-151 | a digit string is the numeral of its own value |
| Numbers.ValueInjective | src/test/java/com/github/shamil/XidTest.java:139 | equal-length numerals with one value are one string |
| Numbers.DigitsSplit | src/test/java/com/github/shamil/XidTest.java:146-151 | an (m+n)-digit numeral is the numeral of the high part followed by that of the low part |
| Numbers.LexCompare | src/test/java/com/github/shamil/XidTest.java:133-144 | the first differing digit decides: -1, 0 or 1 |
| Numbers.LexCompareIsValueOrder | src/test/java/com/github/shamil/XidTest.java:133-144 | comparing equal-length numerals digit by digit is the order of their values |
| Buffers.ByteBuffer.Allocate | src/test/java/com/github/shamil/XidTest.java:32 | a fresh buffer of n zero bytes at position 0 |
| Buffers.ByteBuffer.Wrap | src/test/java/com/github/shamil/XidTest.java:44 | a buffer over the array itself at position 0 |
| Buffers.PutToByteBuffer | src/test/java/com/github/shamil/XidTest.java:32-34 | with 12 bytes remaining, bytes position to position+11 become the identifier, the rest stays and the position advances by 12; otherwise it fails and nothing changes |
| Buffers.FromByteBuffer | src/test/java/com/github/shamil/XidTest.java:44-45 | with 12 bytes remaining, the identifier of the next 12 bytes, position advanced by 12; otherwise a failure and nothing changes |
| Buffers.PutIntoFreshBuffer | src/test/java/com/github/shamil/XidTest.java:32-34 | the array of a fresh 12-byte buffer, after the put, is the identifier's bytes |
| Buffers.ReadFromWrapped | src/test/java/com/github/shamil/XidTest.java:44-45 | over a 12-byte array, the same as `new Xid(byte[])` on it; refused exactly for arrays shorter than 12 |
| Generators.Issued | src/test/java/com/github/shamil/XidTest.java:186-189 | one identifier per call |
| Generators.Generator.constructor | src/test/java/com/github/shamil/XidTest.java:71 | a generator with the given machine and process, its counter the seed modulo 2^24 |
| Generators.Generator.Get | src/test/java/com/github/shamil/XidTest.java:188 | `Xid.get()`: the identifier of the clock reading and the current counter, which then advances modulo 2^24 |
| Generators.Generator.GetString | src/test/java/com/github/shamil/XidTest.java:212 | `Xid.string()`: the text form of the identifier `get()` would issue, with the same counter step |
| Generators.IssueFields | src/test/java/com/github/shamil/XidTest.java:184-202 | an issued identifier carries the clock's seconds, the generator's machine and process, and the counter value |
| Generators.IssuedAppend | src/test/java/com/github/shamil/XidTest.java:186-189 | one more call appends one more identifier |
| Generators.IssueTimestamps | src/test/java/com/github/shamil/XidTest.java:195-197 | readings within one second give equal timestamps, whatever the counters |
| Generators.IssuedTimestamps | src/test/java/com/github/shamil/XidTest.java:195-197 | calls within one second issue equal timestamps |
| Generators.IssueOrder | src/test/java/com/github/shamil/XidTest.java:199-200 | within one second a larger counter gives a larger identifier |
| Generators.IssuedIncreasing | src/test/java/com/github/shamil/XidTest.java:199-200 | within one second, and before the counter wraps, each identifier is greater than the previous one |
| Generators.WrapReversesOrder | src/test/java/com/github/shamil/XidTest.java:199-200 | for two clock readings in the same second, when the first call takes the last counter value 2^24-1 the second identifier, whose counter has wrapped to 0, is smaller than the first; so the assertion of line 200 depends on where the counter starts |
| Generators.IssueDate | src/test/java/com/github/shamil/XidTest.java:121-124 | `new Xid(Date)`: for dates from 1970 to 2106 the issued identifier's date is the date cut to whole seconds, so both sides of the test agree in seconds |
| Generators.IssuedBeforeWrap | src/test/java/com/github/shamil/XidTest.java:186-189 | before the counter wraps, call i uses the seed plus i |
| Generators.IssuedCounter | src/test/java/com/github/shamil/XidTest.java:186-189 | call i uses the seed plus i, modulo 2^24 |
| Generators.NextCounter | src/test/java/com/github/shamil/XidTest.java:186-189 | advancing the counter once more counts one call further from the seed |
| Generators.CountersDiffer | src/test/java/com/github/shamil/XidTest.java:204-220 | fewer than 2^24 steps apart, two counter values differ |
| Generators.IssuedDistinct | src/test/java/com/github/shamil/XidTest.java:204-220 | up to 2^24 successive calls issue pairwise distinct identifiers, whatever the clock reads |
| Generators.TextsDistinct | src/test/java/com/github/shamil/XidTest.java:209-219 | distinct identifiers give distinct strings |
| Generators.IssuedText | src/test/java/com/github/shamil/XidTest.java:212 | the string of call i is the text form of its identifier |
| Generators.IssuedTextsDistinct | src/test/java/com/github/shamil/XidTest.java:204-220 | up to 2^24 successive calls issue pairwise distinct strings |
| Generators.Intervals | src/test/java/com/github/shamil/XidTest.java:186-189 | the list holds the ten identifiers the calls issue, in order, and the counter has advanced by ten |
| Generators.IntervalsHold | src/test/java/com/github/shamil/XidTest.java:191-201 | with all readings in one second and no wrap, consecutive timestamps differ by zero and each identifier is greater than the previous one |
| Generators.HasNoCollisions | src/test/java/com/github/shamil/XidTest.java:209-220 | true exactly when all issued strings are pairwise distinct; always true for up to 2^24 iterations |
| Generators.DistinctAppend | src/test/java/com/github/shamil/XidTest.java:213-217 | a new key not seen before keeps the keys pairwise distinct |
| Samples.JavaBytes | src/test/java/com/github/shamil/XidTest.java:27 | each signed Java byte literal as the byte it denotes |
| Samples.SampleIsJavaLiteral | src/test/java/com/github/shamil/XidTest.java:27 | the sample literal is the bytes 81, 6, 252, 154, 188, 130, 55, 85, 129, 54, 210, 137 |
| Samples.ToBytesSample | src/test/java/com/github/shamil/XidTest.java:26-35 | `toByteArray` and the array of the filled buffer are both the sample bytes |
| Samples.TimestampSample | src/test/java/com/github/shamil/XidTest.java:41-42 | the sample's timestamp is 0x5106FC9A |
| Samples.TimestampFromBufferSample | src/test/java/com/github/shamil/XidTest.java:44-45 | through a wrapped buffer the timestamp is also 0x5106FC9A |
| Samples.LengthValidationSample | src/test/java/com/github/shamil/XidTest.java:49-67 | `null`, 11 and 13 bytes are refused with the two messages |
| Samples.SmallestWithDateSample | src/test/java/com/github/shamil/XidTest.java:85-90 | 1588467737760 ms gives bytes 94, -82, 24, 25 then eight zeros, and date 1588467737000 (every date in that second has that date) |
| Samples.SmallestBelowIssued | src/test/java/com/github/shamil/XidTest.java:91 | the smallest identifier of a date is below the identifier issued for that date unless its machine, process and counter are all zero |
| Samples.GetTimeSamples | src/test/java/com/github/shamil/XidTest.java:94-112 | timestamps 0, 0x7FFFFFFF, 0x80000000 and 0xFFFFFFFF give 0, 2147483647000, 2147483648000 and 4294967295000 ms |
| Samples.CompareToSample | src/test/java/com/github/shamil/XidTest.java:133-144 | for any date from 1970 up to 10 s before the 2106 limit the five comparisons give 0, -1, -1, 1, 1 |
| Samples.ZerosText | src/test/java/com/github/shamil/XidTest.java:148 | twelve zero bytes give "00000000000000000000" |
| Samples.VectorToText | src/test/java/com/github/shamil/XidTest.java:149-150 | 4d 88 e1 5b 60 f4 86 e4 28 41 2d c9 gives "9m4e2mr0ui3e8a215n4g" |
| Samples.VectorFromText | src/test/java/com/github/shamil/XidTest.java:153-158 | "9m4e2mr0ui3e8a215n4g" reads back as those twelve bytes |
| Samples.GroupsOfHalves | src/test/java/com/github/shamil/XidTest.java:149-150 | an identifier whose padded stream is hi * 32^10 + lo has as its groups the ten base-32 digits of hi followed by the ten of lo |
| Samples.UpperCaseRejected | src/test/java/com/github/shamil/XidTest.java:153-158 | the vector's text in upper case is refused as an invalid character |
| Samples.NonzeroPaddingRejected | src/test/java/com/github/shamil/XidTest.java:153-158 | the vector's text ending in `h` instead of `g` is refused for its padding bits |
| Samples.ShortTextRejected | src/test/java/com/github/shamil/XidTest.java:153-158 | a 19-symbol text is refused for its length |
| Samples.IntervalsSample | src/test/java/com/github/shamil/XidTest.java:184-202 | ten calls within one second, without a wrap, pass both assertions of `testIntervals` |
| Samples.NoCollisionsSample | src/test/java/com/github/shamil/XidTest.java:204-207 | `hasNoCollisions(1000000)` is true, whatever the clock reads |

## Left out

- `Xid.java` is not part of this model. Its behaviour is rebuilt from the test assertions.
- Xids.FromTimestamp: the tests only use counters 0 and 1 with `new Xid(int, int)` and `new Xid(Date, int)`. The model puts the generator's machine and process identifiers in bytes 4-8, takes the counter as bytes 9-11, and refuses a counter outside 0..2^24-1. The refusal and its message ("The counter must be between 0 and 16777215 (it must fit in three bytes).") are a chosen behaviour, as in the MongoDB `ObjectId` this design descends from.
- Buffers.PutToByteBuffer and Buffers.FromByteBuffer: the refusal of a buffer with fewer than 12 bytes remaining is a chosen behaviour, and so is its message "state should be: buffer.remaining() >=12".
- Buffers.ByteBuffer: the buffer's limit is always its capacity; `limit`, `flip` and the other `ByteBuffer` operations are not modelled, so "remaining" is capacity minus position.
- Generators.Generator.Get: the identifier takes the counter value from before the call and the counter then advances, as `getAndIncrement` does; this order is a chosen behaviour.
- Xids.FromHexString: a refused string gives `InvalidText` with the reason, in place of Java's `IllegalArgumentException`. `new Xid((String) null)` is not modelled; `new Xid((byte[]) null)` is, as `Xids.FromBytes` with `None`.
- Codec.Decode is strict by choice. A last symbol whose four padding bits are not zero is refused, and so is upper case. Every accepted string is therefore the text form of exactly one identifier.
- The wall clock (`System.currentTimeMillis`, `new Date()`) is left out; each clock reading is a parameter in milliseconds. The check "within 3000 ms" of `testTime` has no counterpart.
- The machine identifier (a hash of the host identity) and the process identifier (from the operating system) are left out; they are constructor parameters of `Generator`.
- Concurrency and the atomic counter are left out; calls are sequential.
- The random counter seed is left out; it is a constructor parameter.
- `Random(17)` in `testBytesRoundTrip` is left out: the round trip is proved for every 12-byte array.
- `SimpleDateFormat` parsing and time zones are left out. A `Date` is its epoch milliseconds, so the four `testTime*` tests at lines 164-182 are the same statements as `Samples.GetTimeSamples`.
- The `HashMap` of `hasNoCollisions` is a Dafny `map` from string to string, and `containsKey` is map membership.
- The million iterations are not computed. `Samples.NoCollisionsSample` follows from `Generators.HasNoCollisions` for any million clock readings.
- `new Xid()` and `new Xid(Date)` are not separate members. Both are `Generators.Generator.Get` with the clock reading or the date's milliseconds as the parameter.
- Generators.IntervalsHold: the test's `int` subtraction of two timestamps can wrap in Java. The model subtracts unbounded integers; the two agree here because the difference is zero.
