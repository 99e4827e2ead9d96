/**
 * The process-wide generator behind `Xid.get()`, `new Xid()`, `new Xid(Date)`
 * and `Xid.string()`: fixed machine and process identifiers and a counter
 * that every call uses and then advances modulo 2^24. The clock reading of
 * each call is a parameter.
 */
module Generators {
  import opened Numbers
  import opened Xids

  /** The identifier issued at a clock reading, in milliseconds, with a given counter value. */
  function Issue(machine: Bytes3, process: Bytes2, clockMs: int, counter: nat): Xid
    requires counter < TwoTo24
  {
    Layout(Seconds(clockMs), machine, process, counter)
  }

  /** The identifiers of successive calls: call i reads clocks[i] and uses counter value (c0 + i) mod 2^24. */
  function Issued(machine: Bytes3, process: Bytes2, c0: nat, clocks: seq<int>): (ids: seq<Xid>)
    requires c0 < TwoTo24
    ensures |ids| == |clocks|
  {
    seq(|clocks|, i requires 0 <= i < |clocks| => Issue(machine, process, clocks[i], (c0 + i) % TwoTo24))
  }

  /** One more call appends one more identifier. */
  lemma IssuedAppend(machine: Bytes3, process: Bytes2, c0: nat, clocks: seq<int>, i: nat)
    requires c0 < TwoTo24 && i < |clocks|
    ensures Issued(machine, process, c0, clocks[..i + 1])
         == Issued(machine, process, c0, clocks[..i]) + [Issue(machine, process, clocks[i], (c0 + i) % TwoTo24)]
  {
    var a := Issued(machine, process, c0, clocks[..i + 1]);
    var b := Issued(machine, process, c0, clocks[..i]) + [Issue(machine, process, clocks[i], (c0 + i) % TwoTo24)];
    forall k | 0 <= k < i + 1
      ensures a[k] == b[k]
    {
      assert clocks[..i + 1][k] == clocks[k];
      if k < i {
        assert clocks[..i][k] == clocks[k];
      }
    }
  }

  /** The text forms of a sequence of identifiers. */
  function Texts(ids: seq<Xid>): (ss: seq<string>)
    ensures |ss| == |ids|
  {
    seq(|ids|, i requires 0 <= i < |ids| => ToHexString(ids[i]))
  }

  predicate Distinct<T(==)>(s: seq<T>) {
    forall i, j :: 0 <= i < j < |s| ==> s[i] != s[j]
  }

  class Generator {
    const machine: Bytes3
    const process: Bytes2
    var counter: nat

    predicate Valid()
      reads this
    {
      counter < TwoTo24
    }

    /** The generator of a process, its counter started from a seed. */
    constructor (machine: Bytes3, process: Bytes2, seed: int)
      ensures Valid() && this.machine == machine && this.process == process
      ensures counter == seed % TwoTo24
    {
      this.machine := machine;
      this.process := process;
      counter := seed % TwoTo24;
    }

    /** `Xid.get()`: the identifier for this clock reading and the current counter, which then advances. */
    method Get(clockMs: int) returns (x: Xid)
      requires Valid()
      modifies this
      ensures Valid()
      ensures x == Issue(machine, process, clockMs, old(counter))
      ensures counter == (old(counter) + 1) % TwoTo24
    {
      x := Layout(Seconds(clockMs), machine, process, counter);
      counter := (counter + 1) % TwoTo24;
    }

    /** `Xid.string()`: the text form of the next identifier. */
    method GetString(clockMs: int) returns (s: string)
      requires Valid()
      modifies this
      ensures Valid()
      ensures s == ToHexString(Issue(machine, process, clockMs, old(counter)))
      ensures counter == (old(counter) + 1) % TwoTo24
    {
      var x := Get(clockMs);
      s := ToHexString(x);
    }
  }

  /** What an issued identifier holds: the clock's seconds, the generator's identifiers and the counter value. */
  lemma IssueFields(machine: Bytes3, process: Bytes2, clockMs: int, counter: nat)
    requires counter < TwoTo24
    ensures var x := Issue(machine, process, clockMs, counter);
      GetTimestamp(x) == Seconds(clockMs) && Counter(x) == counter
      && x.bytes[4..7] == machine && x.bytes[7..9] == process
  {
    LayoutFields(Seconds(clockMs), machine, process, counter);
  }

  /** Calls within one second issue identifiers with equal timestamps. */
  lemma IssuedTimestamps(machine: Bytes3, process: Bytes2, c0: nat, clocks: seq<int>, i: nat, j: nat)
    requires c0 < TwoTo24 && i < |clocks| && j < |clocks|
    requires TruncDiv(clocks[i], 1000) == TruncDiv(clocks[j], 1000)
    ensures GetTimestamp(Issued(machine, process, c0, clocks)[i]) == GetTimestamp(Issued(machine, process, c0, clocks)[j])
  {
    var ids := Issued(machine, process, c0, clocks);
    assert ids[i] == Issue(machine, process, clocks[i], (c0 + i) % TwoTo24);
    assert ids[j] == Issue(machine, process, clocks[j], (c0 + j) % TwoTo24);
    IssueTimestamps(machine, process, clocks[i], clocks[j], (c0 + i) % TwoTo24, (c0 + j) % TwoTo24);
  }

  /** Clock readings within one second give equal timestamps, whatever the counter values. */
  lemma IssueTimestamps(machine: Bytes3, process: Bytes2, clock1: int, clock2: int, c1: nat, c2: nat)
    requires c1 < TwoTo24 && c2 < TwoTo24 && TruncDiv(clock1, 1000) == TruncDiv(clock2, 1000)
    ensures GetTimestamp(Issue(machine, process, clock1, c1)) == GetTimestamp(Issue(machine, process, clock2, c2))
  {
    IssueFields(machine, process, clock1, c1);
    IssueFields(machine, process, clock2, c2);
  }

  /**
   * Within one second, and as long as the counter has not wrapped around,
   * every identifier is greater than the one issued before it.
   */
  lemma IssuedIncreasing(machine: Bytes3, process: Bytes2, c0: nat, clocks: seq<int>, i: nat)
    requires c0 < TwoTo24 && 0 < i < |clocks| && c0 + i < TwoTo24
    requires TruncDiv(clocks[i - 1], 1000) == TruncDiv(clocks[i], 1000)
    ensures CompareTo(Issued(machine, process, c0, clocks)[i], Issued(machine, process, c0, clocks)[i - 1]) == 1
  {
    IssuedBeforeWrap(machine, process, c0, clocks, i - 1);
    IssuedBeforeWrap(machine, process, c0, clocks, i);
    IssueOrder(machine, process, clocks[i - 1], clocks[i], c0 + i - 1, c0 + i);
  }

  /** Within one second a larger counter value gives a larger identifier. */
  lemma IssueOrder(machine: Bytes3, process: Bytes2, clock1: int, clock2: int, c1: nat, c2: nat)
    requires c1 < c2 < TwoTo24 && TruncDiv(clock1, 1000) == TruncDiv(clock2, 1000)
    ensures CompareTo(Issue(machine, process, clock2, c2), Issue(machine, process, clock1, c1)) == 1
  {
    var x, y := Issue(machine, process, clock1, c1), Issue(machine, process, clock2, c2);
    IssueFields(machine, process, clock1, c1);
    IssueFields(machine, process, clock2, c2);
    SameLeadingFields(x, y);
    CounterDecides(x, y);
    CompareAntisymmetric(x, y);
  }

  /**
   * When the counter wraps around between two calls whose clock readings
   * fall in one second, the second identifier is smaller than the first.
   */
  lemma WrapReversesOrder(machine: Bytes3, process: Bytes2, clock1: int, clock2: int)
    requires TruncDiv(clock1, 1000) == TruncDiv(clock2, 1000)
    ensures var ids := Issued(machine, process, TwoTo24 - 1, [clock1, clock2]);
      CompareTo(ids[1], ids[0]) == -1
  {
    var ids := Issued(machine, process, TwoTo24 - 1, [clock1, clock2]);
    var x, y := Issue(machine, process, clock2, 0), Issue(machine, process, clock1, TwoTo24 - 1);
    assert ids[1] == x && ids[0] == y;
    IssueFields(machine, process, clock2, 0);
    IssueFields(machine, process, clock1, TwoTo24 - 1);
    SameLeadingFields(x, y);
    CounterDecides(x, y);
  }

  /** `new Xid(Date)`: for a date from 1970 to 2106 the issued identifier's date is the date cut to whole seconds. */
  lemma IssueDate(machine: Bytes3, process: Bytes2, clockMs: int, counter: nat)
    requires 0 <= clockMs < TwoTo32 * 1000 && counter < TwoTo24
    ensures GetDate(Issue(machine, process, clockMs, counter)) == clockMs / 1000 * 1000
  {
    DateOfFromDate(clockMs, machine, process, counter);
  }

  /** At most 2^24 successive calls issue pairwise distinct identifiers, whatever the clock reads. */
  lemma IssuedDistinct(machine: Bytes3, process: Bytes2, c0: nat, clocks: seq<int>)
    requires c0 < TwoTo24 && |clocks| <= TwoTo24
    ensures Distinct(Issued(machine, process, c0, clocks))
  {
    var ids := Issued(machine, process, c0, clocks);
    forall i, j | 0 <= i < j < |ids|
      ensures ids[i] != ids[j]
    {
      CountersDiffer(c0, i, j);
      IssuedCounter(machine, process, c0, clocks, i);
      IssuedCounter(machine, process, c0, clocks, j);
    }
  }

  /** Before the counter wraps around, call i uses counter value c0 + i. */
  lemma IssuedBeforeWrap(machine: Bytes3, process: Bytes2, c0: nat, clocks: seq<int>, i: nat)
    requires i < |clocks| && c0 + i < TwoTo24
    ensures Issued(machine, process, c0, clocks)[i] == Issue(machine, process, clocks[i], c0 + i)
  {
    assert (c0 + i) % TwoTo24 == c0 + i;
  }

  /** Call i uses counter value (c0 + i) mod 2^24. */
  lemma IssuedCounter(machine: Bytes3, process: Bytes2, c0: nat, clocks: seq<int>, i: nat)
    requires c0 < TwoTo24 && i < |clocks|
    ensures Counter(Issued(machine, process, c0, clocks)[i]) == (c0 + i) % TwoTo24
  {
    IssueFields(machine, process, clocks[i], (c0 + i) % TwoTo24);
  }

  /** Advancing the counter once more is counting one call further from the seed. */
  lemma NextCounter(c0: nat, i: nat)
    ensures ((c0 + i) % TwoTo24 + 1) % TwoTo24 == (c0 + i + 1) % TwoTo24
  {
    var m, a := TwoTo24, c0 + i;
    DivModUnique(a + 1, m, a / m + (a % m + 1) / m, (a % m + 1) % m);
  }

  lemma CountersDiffer(c0: nat, i: nat, j: nat)
    requires i < j < i + TwoTo24
    ensures (c0 + i) % TwoTo24 != (c0 + j) % TwoTo24
  {
    var m := TwoTo24;
    var a, b := c0 + i, c0 + j;
    if a % m == b % m {
      DivModUnique(a, m, a / m, a % m);
      DivModUnique(b, m, b / m, b % m);
      assert b - a == (b / m - a / m) * m;
      MulMono(1, b / m - a / m, m);
    }
  }

  /** Distinct identifiers have distinct text forms. */
  lemma TextsDistinct(ids: seq<Xid>)
    requires Distinct(ids)
    ensures Distinct(Texts(ids))
  {
    forall i, j | 0 <= i < j < |ids|
      ensures Texts(ids)[i] != Texts(ids)[j]
    {
      if Texts(ids)[i] == Texts(ids)[j] {
        HexInjective(ids[i], ids[j]);
      }
    }
  }

  /** The collection loop of `testIntervals`: ten calls to `Xid.get()`, appended to a list. */
  method Intervals(g: Generator, clocks: seq<int>) returns (ids: seq<Xid>)
    requires g.Valid() && |clocks| == 10
    modifies g
    ensures g.Valid()
    ensures ids == Issued(g.machine, g.process, old(g.counter), clocks)
    ensures g.counter == (old(g.counter) + 10) % TwoTo24
  {
    ids := [];
    for i := 0 to 10
      invariant g.Valid()
      invariant ids == Issued(g.machine, g.process, old(g.counter), clocks[..i])
      invariant g.counter == (old(g.counter) + i) % TwoTo24
    {
      IssuedAppend(g.machine, g.process, old(g.counter), clocks, i);
      NextCounter(old(g.counter), i);
      var x := g.Get(clocks[i]);
      ids := ids + [x];
    }
    assert clocks[..10] == clocks;
  }

  /**
   * What `testIntervals` checks of those ten identifiers: consecutive ones
   * have a timestamp difference of zero and each is greater than the one
   * before, provided all ten clock readings fall in one second and the
   * counter does not wrap around within the ten calls.
   */
  lemma IntervalsHold(machine: Bytes3, process: Bytes2, c0: nat, clocks: seq<int>)
    requires c0 < TwoTo24 && c0 + 10 <= TwoTo24 && |clocks| == 10
    requires forall i :: 0 <= i < 10 ==> TruncDiv(clocks[i], 1000) == TruncDiv(clocks[0], 1000)
    ensures var ids := Issued(machine, process, c0, clocks);
      forall i :: 1 <= i < 10 ==>
        GetTimestamp(ids[i]) - GetTimestamp(ids[i - 1]) == 0 && CompareTo(ids[i], ids[i - 1]) > 0
  {
    var ids := Issued(machine, process, c0, clocks);
    forall i | 1 <= i < 10
      ensures GetTimestamp(ids[i]) - GetTimestamp(ids[i - 1]) == 0 && CompareTo(ids[i], ids[i - 1]) > 0
    {
      assert TruncDiv(clocks[i - 1], 1000) == TruncDiv(clocks[0], 1000) == TruncDiv(clocks[i], 1000);
      IssuedTimestamps(machine, process, c0, clocks, i - 1, i);
      IssuedIncreasing(machine, process, c0, clocks, i);
    }
  }

  /**
   * `hasNoCollisions(iterations)`, with one clock reading per iteration:
   * true exactly when the text forms of all the identifiers issued are
   * pairwise distinct, which they are for up to 2^24 iterations. After a
   * `true` result the counter has advanced once per iteration; after an
   * early `false` return the counter is left unstated.
   */
  method HasNoCollisions(g: Generator, clocks: seq<int>) returns (ok: bool)
    requires g.Valid()
    modifies g
    ensures g.Valid()
    ensures ok <==> Distinct(Texts(Issued(g.machine, g.process, old(g.counter), clocks)))
    ensures ok ==> g.counter == (old(g.counter) + |clocks|) % TwoTo24
    ensures |clocks| <= TwoTo24 ==> ok
  {
    ghost var c0 := g.counter;
    ghost var all := Texts(Issued(g.machine, g.process, c0, clocks));
    var ids: map<string, string> := map[];
    for i := 0 to |clocks|
      invariant g.Valid() && g.counter == (c0 + i) % TwoTo24
      invariant forall k :: 0 <= k < i ==> all[k] in ids
      invariant forall s :: s in ids ==> s in all[..i]
      invariant Distinct(all[..i])
    {
      NextCounter(c0, i);
      IssuedText(g.machine, g.process, c0, clocks, i);
      var id := g.GetString(clocks[i]);
      if id in ids {
        ghost var k :| 0 <= k < i && all[k] == id;
        assert !Distinct(all);
        ok := false;
        if |clocks| <= TwoTo24 {
          IssuedTextsDistinct(g.machine, g.process, c0, clocks);
        }
        return;
      }
      DistinctAppend(all, i);
      ids := ids[id := id];
    }
    assert all[..|clocks|] == all;
    ok := true;
  }

  /** The text of call i. */
  lemma IssuedText(machine: Bytes3, process: Bytes2, c0: nat, clocks: seq<int>, i: nat)
    requires c0 < TwoTo24 && i < |clocks|
    ensures Texts(Issued(machine, process, c0, clocks))[i] == ToHexString(Issue(machine, process, clocks[i], (c0 + i) % TwoTo24))
  {
    var ids := Issued(machine, process, c0, clocks);
    assert ids[i] == Issue(machine, process, clocks[i], (c0 + i) % TwoTo24);
    assert Texts(ids)[i] == ToHexString(ids[i]);
  }

  /** A prefix stays pairwise distinct when the next element differs from all before it. */
  lemma DistinctAppend<T>(s: seq<T>, i: nat)
    requires i < |s| && Distinct(s[..i])
    requires forall k :: 0 <= k < i ==> s[k] != s[i]
    ensures Distinct(s[..i + 1])
  {
  }

  /** At most 2^24 successive calls issue pairwise distinct text forms. */
  lemma IssuedTextsDistinct(machine: Bytes3, process: Bytes2, c0: nat, clocks: seq<int>)
    requires c0 < TwoTo24 && |clocks| <= TwoTo24
    ensures Distinct(Texts(Issued(machine, process, c0, clocks)))
  {
    IssuedDistinct(machine, process, c0, clocks);
    TextsDistinct(Issued(machine, process, c0, clocks));
  }
}
