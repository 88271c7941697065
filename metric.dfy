/** Values the discovery metric store works on: instants and durations as
    integer nanoseconds, Go's int64 wrap-around, the Metric record, and the
    reference definitions that the store's scans are proved against. */
module Metrics {

  datatype Option<+T> = None | Some(value: T)

  /** An instant (Go's time.Time), in nanoseconds. */
  type Time = int

  /** A span of time (Go's time.Duration, an int64 count of nanoseconds). */
  type Duration = int

  /** The instant that stands for Go's zero time.Time (the one IsZero reports). */
  const ZeroTime: Time := 0

  /** time.Second. */
  const Second: Duration := 1_000_000_000

  const MinInt64: int := -0x8000_0000_0000_0000
  const MaxInt64: int := 0x7FFF_FFFF_FFFF_FFFF
  const TwoTo64: int := 0x1_0000_0000_0000_0000

  /** A conversion to, or the result of arithmetic in, Go's int64:
      two's-complement wrap-around modulo 2^64. */
  function Int64(x: int): (r: int)
    ensures MinInt64 <= r <= MaxInt64
    ensures (x - r) % TwoTo64 == 0
    ensures MinInt64 <= x <= MaxInt64 ==> r == x
  {
    (x - MinInt64) % TwoTo64 + MinInt64
  }

  /** The host a metric was taken from (Go's InstanceKey). */
  datatype InstanceKey = InstanceKey(hostname: string, port: int)

  /** One discovery measurement. The error outcome is kept as its message. */
  datatype Metric = Metric(
    timestamp: Time,
    key: InstanceKey,
    backendLatency: Duration,
    instanceLatency: Duration,
    totalLatency: Duration,
    err: Option<string>)

  /** Entries are in non-decreasing timestamp order: what the store assumes
      of its callers and what its scans rely on. */
  predicate Sorted(c: seq<Metric>) {
    forall i, j :: 0 <= i <= j < |c| ==> c[i].timestamp <= c[j].timestamp
  }

  /** Reference definition: the entries stamped at or after t, in stored order. */
  function OnOrAfter(c: seq<Metric>, t: Time): (r: seq<Metric>)
    ensures |r| <= |c|
    ensures forall i :: 0 <= i < |r| ==> r[i].timestamp >= t
  {
    if c == [] then []
    else if c[0].timestamp >= t then [c[0]] + OnOrAfter(c[1..], t)
    else OnOrAfter(c[1..], t)
  }

  /** OnOrAfter keeps exactly the entries stamped at or after t. */
  lemma {:induction false} OnOrAfterMembers(c: seq<Metric>, t: Time, m: Metric)
    ensures m in OnOrAfter(c, t) <==> m in c && m.timestamp >= t
  {
    if c != [] {
      OnOrAfterMembers(c[1..], t, m);
      assert c == [c[0]] + c[1..];
    }
  }

  /** r is what remains of c after dropping some entries from its front. */
  predicate IsSuffix(r: seq<Metric>, c: seq<Metric>) {
    |r| <= |c| && r == c[|c| - |r|..]
  }

  /** When every entry before k is stale and every entry from k on is not,
      the entries at or after t are exactly c[k..]. */
  lemma {:induction false} OnOrAfterSplit(c: seq<Metric>, t: Time, k: nat)
    requires k <= |c|
    requires forall i :: 0 <= i < k ==> c[i].timestamp < t
    requires forall i :: k <= i < |c| ==> c[i].timestamp >= t
    ensures OnOrAfter(c, t) == c[k..]
  {
    if c == [] {
    } else if k == 0 {
      OnOrAfterSplit(c[1..], t, 0);
      assert [c[0]] + c[1..] == c;
    } else {
      OnOrAfterSplit(c[1..], t, k - 1);
      assert c[1..][k - 1..] == c[k..];
    }
  }

  /** Dropping entries from the front keeps a sorted sequence sorted. */
  lemma SuffixKeepsSorted(r: seq<Metric>, c: seq<Metric>)
    requires Sorted(c) && IsSuffix(r, c)
    ensures Sorted(r)
  {
    var d := |c| - |r|;
    forall i, j | 0 <= i <= j < |r|
      ensures r[i].timestamp <= r[j].timestamp
    {
      assert r[i] == c[d + i] && r[j] == c[d + j];
    }
  }
}
