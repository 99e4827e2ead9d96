/**
 * Moving identifiers in and out of a byte buffer: `putToByteBuffer` and
 * `new Xid(ByteBuffer)`. Both work at the buffer's position, advance it by
 * twelve, and refuse, changing nothing, a buffer with fewer than twelve bytes
 * remaining.
 */
module Buffers {
  import opened Numbers
  import opened Wrappers
  import opened Xids

  const RemainingMessage: string := "state should be: buffer.remaining() >=12"

  /** A heap byte buffer: its backing array and the position of the next read or write. */
  class ByteBuffer {
    const data: array<Byte>
    var position: nat

    predicate Valid()
      reads this
    {
      position <= data.Length
    }

    /** `remaining()`. */
    function Remaining(): nat
      reads this
      requires Valid()
    {
      data.Length - position
    }

    /** `ByteBuffer.allocate(n)`: n zero bytes. */
    constructor Allocate(n: nat)
      ensures Valid() && fresh(data) && position == 0
      ensures data[..] == seq(n, _ => 0)
    {
      data := new Byte[n](_ => 0);
      position := 0;
    }

    /** `ByteBuffer.wrap(a)`: a buffer over the array itself. */
    constructor Wrap(a: array<Byte>)
      ensures Valid() && data == a && position == 0
    {
      data := a;
      position := 0;
    }
  }

  /** `x.putToByteBuffer(buffer)`: the twelve bytes, one `put` at a time. */
  method PutToByteBuffer(x: Xid, buffer: ByteBuffer) returns (r: Result<(), Error>)
    requires buffer.Valid()
    modifies buffer, buffer.data
    ensures buffer.Valid()
    ensures old(buffer.Remaining()) < 12 ==>
      r == Err(IllegalArgument(RemainingMessage)) && buffer.position == old(buffer.position)
      && buffer.data[..] == old(buffer.data[..])
    ensures old(buffer.Remaining()) >= 12 ==>
      r == Ok(()) && buffer.position == old(buffer.position) + 12
      && buffer.data[..] == old(buffer.data[..buffer.position]) + x.bytes + old(buffer.data[buffer.position + 12..])
  {
    if buffer.data.Length - buffer.position < 12 {
      return Err(IllegalArgument(RemainingMessage));
    }
    ghost var start := buffer.position;
    for i := 0 to 12
      invariant buffer.position == start + i
      invariant buffer.data[..] == old(buffer.data[..start]) + x.bytes[..i] + old(buffer.data[start + i..])
    {
      ghost var before := buffer.data[..];
      buffer.data[buffer.position] := x.bytes[i];
      buffer.position := buffer.position + 1;
      assert buffer.data[..] == before[start + i := x.bytes[i]];
      PutStep(old(buffer.data[..]), x.bytes, start, i);
    }
    r := Ok(());
  }

  /** Writing byte i of xs over the cell after the first i written ones extends the written part by one. */
  lemma PutStep(o: seq<Byte>, xs: seq<Byte>, start: nat, i: nat)
    requires i < |xs| && start + |xs| <= |o|
    ensures (o[..start] + xs[..i] + o[start + i..])[start + i := xs[i]]
         == o[..start] + xs[..i + 1] + o[start + i + 1..]
  {
    assert xs[..i + 1] == xs[..i] + [xs[i]];
  }

  /** `new Xid(ByteBuffer buffer)`: twelve bytes, one `get` at a time. */
  method FromByteBuffer(buffer: ByteBuffer) returns (r: Result<Xid, Error>)
    requires buffer.Valid()
    modifies buffer
    ensures buffer.Valid()
    ensures old(buffer.Remaining()) < 12 ==>
      r == Err(IllegalArgument(RemainingMessage)) && buffer.position == old(buffer.position)
    ensures old(buffer.Remaining()) >= 12 ==>
      r == Ok(Xid(buffer.data[old(buffer.position)..old(buffer.position) + 12]))
      && buffer.position == old(buffer.position) + 12
  {
    if buffer.data.Length - buffer.position < 12 {
      return Err(IllegalArgument(RemainingMessage));
    }
    ghost var start := buffer.position;
    var bytes := [];
    for i := 0 to 12
      invariant buffer.position == start + i
      invariant bytes == buffer.data[start..start + i]
    {
      bytes := bytes + [buffer.data[buffer.position]];
      buffer.position := buffer.position + 1;
    }
    r := Ok(Xid(bytes));
  }

  /** Putting an identifier into a fresh 12-byte buffer fills its array with exactly the identifier's bytes. */
  method PutIntoFreshBuffer(x: Xid) returns (contents: seq<Byte>)
    ensures contents == ToByteArray(x)
  {
    var buffer := new ByteBuffer.Allocate(12);
    var r := PutToByteBuffer(x, buffer);
    contents := buffer.data[..];
  }

  /**
   * Reading an identifier from a buffer wrapping an array takes the array's
   * first twelve bytes; for a 12-byte array that is `new Xid(byte[])`.
   */
  method ReadFromWrapped(a: array<Byte>) returns (r: Result<Xid, Error>)
    ensures a.Length < 12 <==> r == Err(IllegalArgument(RemainingMessage))
    ensures a.Length >= 12 ==> r == Ok(Xid(a[..12]))
    ensures a.Length == 12 ==> r == FromBytes(Some(a[..]))
  {
    var buffer := new ByteBuffer.Wrap(a);
    r := FromByteBuffer(buffer);
    assert a.Length == 12 ==> a[..12] == a[..];
  }
}
