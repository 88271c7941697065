/** The in-memory discovery metric store (Go's MetricCollection): an ordered
    sequence of metrics with append, a time-range query, trimming of stale
    entries and a projection of query results for the monitoring API.

    Go calls these operations through a pointer receiver that may be nil, and
    every one of them checks for that. Each is modelled here as a module-level
    method whose first parameter is that receiver, `mc: MetricCollection?`. */
module Discovery {
  import opened Metrics

  /** The errors the store reports; each is returned, never raised. */
  datatype CollectionError =
    | NilCollection  // the operation was called through a nil collection
    | NilMetric      // Append was given a nil metric

  /** The state Go's MetricCollection updates in place (the mutex and the
      expiry task's done channel are not modelled). */
  class MetricCollection {
    var collection: seq<Metric>
    var expirePeriod: Duration

    /** NewMetricCollection: an empty store with the given retention period. */
    constructor (period: Duration)
      ensures collection == [] && expirePeriod == period
    {
      collection := [];
      expirePeriod := period;
    }
  }

  // ---------------------------------------------------------------- Append

  /** The record Append stores: stamped with the current time when it
      carries the zero timestamp, otherwise exactly as given. */
  function Stamped(m: Metric, now: Time): (r: Metric)
    ensures r.timestamp == if m.timestamp == ZeroTime then now else m.timestamp
    ensures r.(timestamp := m.timestamp) == m
  {
    if m.timestamp == ZeroTime then m.(timestamp := now) else m
  }

  /** Append a metric (None stands for a nil *Metric) at the end of the store. */
  method Append(mc: MetricCollection?, m: Option<Metric>, now: Time) returns (err: Option<CollectionError>)
    modifies mc
    ensures mc == null ==> err == Some(NilCollection)
    ensures mc != null && m.None? ==>
      err == Some(NilMetric) && mc.collection == old(mc.collection)
    ensures mc != null && m.Some? ==>
      err == None && mc.collection == old(mc.collection) + [Stamped(m.value, now)]
    ensures mc != null ==> mc.expirePeriod == old(mc.expirePeriod)
  {
    if mc == null {
      return Some(NilCollection);
    }
    if m.None? {
      return Some(NilMetric);
    }
    var stored := m.value;
    if stored.timestamp == ZeroTime {
      stored := stored.(timestamp := now);
    }
    mc.collection := mc.collection + [stored];
    return None;
  }

  /** Appending a metric no older than the last stored one keeps the store
      sorted, which is what Since and the expiry scan assume. */
  lemma AppendKeepsSorted(c: seq<Metric>, m: Metric, now: Time)
    requires Sorted(c)
    requires c == [] || c[|c| - 1].timestamp <= Stamped(m, now).timestamp
    ensures Sorted(c + [Stamped(m, now)])
  {
    var c' := c + [Stamped(m, now)];
    forall i, j | 0 <= i <= j < |c'|
      ensures c'[i].timestamp <= c'[j].timestamp
    {
      if j == |c| && i < |c| {
        assert c[i].timestamp <= c[|c| - 1].timestamp;
      }
    }
  }

  // ----------------------------------------------------------------- Since

  /** Where Since's backward scan stops: the start of the longest suffix of c
      whose entries are all stamped at or after t. */
  function SinceStart(c: seq<Metric>, t: Time): (k: nat)
    ensures k <= |c|
    ensures forall i :: k <= i < |c| ==> c[i].timestamp >= t
    ensures k > 0 ==> c[k - 1].timestamp < t
  {
    if c == [] || c[|c| - 1].timestamp < t then |c|
    else SinceStart(c[..|c| - 1], t)
  }

  /** The metrics on or after t, as a view of the store's tail. `nilSlice`
      tells Go's nil result (an empty store, or an error) from an empty
      slice (every entry is older than t). */
  method Since(mc: MetricCollection?, t: Time) returns (raw: seq<Metric>, nilSlice: bool, err: Option<CollectionError>)
    ensures mc == null ==> err == Some(NilCollection) && nilSlice && raw == []
    ensures mc != null ==> err == None && nilSlice == (mc.collection == [])
    ensures mc != null ==> raw == mc.collection[SinceStart(mc.collection, t)..]
  {
    if mc == null {
      return [], true, Some(NilCollection);
    }
    if |mc.collection| == 0 {
      return [], true, None;
    }
    var last := |mc.collection|;
    var first := last - 1;
    while true
      invariant 0 <= first < last
      invariant SinceStart(mc.collection, t) <= first + 1
      decreases first
    {
      if mc.collection[first].timestamp > t || mc.collection[first].timestamp == t {
        if first == 0 {
          break;  // cannot go lower
        }
        first := first - 1;
      } else {
        if first != last {
          first := first + 1;
        }
        break;
      }
    }
    return mc.collection[first..last], false, None;
  }

  /** On a sorted store Since returns exactly the entries stamped at or after
      t, in stored order. */
  lemma SinceExactOnSorted(c: seq<Metric>, t: Time)
    requires Sorted(c)
    ensures c[SinceStart(c, t)..] == OnOrAfter(c, t)
  {
    var k := SinceStart(c, t);
    forall i | 0 <= i < k
      ensures c[i].timestamp < t
    {
      assert c[i].timestamp <= c[k - 1].timestamp;
    }
    OnOrAfterSplit(c, t, k);
  }

  /** The boundaries of Since: an entry stamped exactly t is included; a t
      newer than every entry gives an empty result; a t no newer than any
      entry gives the whole store. */
  lemma SinceBoundaries(c: seq<Metric>, t: Time)
    ensures Sorted(c) ==> forall i :: 0 <= i < |c| && c[i].timestamp == t ==> SinceStart(c, t) <= i
    ensures c != [] && c[|c| - 1].timestamp < t ==> c[SinceStart(c, t)..] == []
    ensures (forall i :: 0 <= i < |c| ==> c[i].timestamp >= t) ==> c[SinceStart(c, t)..] == c
  {
  }

  // ---------------------------------------------------------- removeBefore

  /** How many leading entries removeBefore's forward scan finds stamped
      strictly before t. */
  function LeadingStale(c: seq<Metric>, t: Time): (k: nat)
    ensures k <= |c|
    ensures forall i :: 0 <= i < k ==> c[i].timestamp < t
    ensures k < |c| ==> c[k].timestamp >= t
  {
    if c == [] || c[0].timestamp >= t then 0
    else 1 + LeadingStale(c[1..], t)
  }

  /** On a sorted store the forward scan of removeBefore and the backward
      scan of Since find the same boundary. */
  lemma ScansAgreeOnSorted(c: seq<Metric>, t: Time)
    requires Sorted(c)
    ensures LeadingStale(c, t) == SinceStart(c, t)
  {
  }

  /** The store removeBefore leaves behind, as the source computes it: when
      some but not all entries are stale, the scan steps back one place and
      the newest stale entry survives. */
  function RemoveBeforeResult(c: seq<Metric>, t: Time): (r: seq<Metric>)
    ensures IsSuffix(r, c)
    ensures |c| - |r| <= LeadingStale(c, t)
    ensures r == [] <==> LeadingStale(c, t) == |c|
    ensures LeadingStale(c, t) <= 1 && LeadingStale(c, t) < |c| ==> r == c
    ensures 1 <= LeadingStale(c, t) < |c| ==>
      |r| == |c| - LeadingStale(c, t) + 1 && r[0].timestamp < t
  {
    var k := LeadingStale(c, t);
    if k == |c| then []
    else if k == 0 then c
    else c[k - 1..]
  }

  /** removeBefore keeps the store sorted. */
  lemma RemoveBeforeKeepsSorted(c: seq<Metric>, t: Time)
    requires Sorted(c)
    ensures Sorted(RemoveBeforeResult(c, t))
  {
    SuffixKeepsSorted(RemoveBeforeResult(c, t), c);
  }

  /** On a sorted store every entry from the first fresh one on is fresh. */
  lemma FreshAfterLeadingStale(c: seq<Metric>, t: Time)
    requires Sorted(c)
    ensures forall i :: LeadingStale(c, t) <= i < |c| ==> c[i].timestamp >= t
  {
    var k := LeadingStale(c, t);
    forall i | k <= i < |c|
      ensures c[i].timestamp >= t
    {
      assert c[k].timestamp <= c[i].timestamp;
    }
  }

  /** The trim removeBefore's comment describes: every leading entry stamped
      before t is dropped and nothing else. */
  function TrimBefore(c: seq<Metric>, t: Time): (r: seq<Metric>)
    ensures IsSuffix(r, c)
    ensures |c| - |r| == LeadingStale(c, t)
    ensures r != [] ==> r[0].timestamp >= t
  {
    c[LeadingStale(c, t)..]
  }

  /** On a sorted store the intended trim leaves exactly the entries stamped
      at or after t. */
  lemma TrimBeforeExact(c: seq<Metric>, t: Time)
    requires Sorted(c)
    ensures TrimBefore(c, t) == OnOrAfter(c, t)
  {
    FreshAfterLeadingStale(c, t);
    OnOrAfterSplit(c, t, LeadingStale(c, t));
  }

  /** removeBefore as written differs from the intended trim by at most one
      entry: the newest stale one, kept when some but not all entries are
      stale. */
  lemma RemoveBeforeVersusTrim(c: seq<Metric>, t: Time)
    ensures 1 <= LeadingStale(c, t) < |c| ==>
      RemoveBeforeResult(c, t) == [c[LeadingStale(c, t) - 1]] + TrimBefore(c, t)
    ensures !(1 <= LeadingStale(c, t) < |c|) ==> RemoveBeforeResult(c, t) == TrimBefore(c, t)
  {
    var k := LeadingStale(c, t);
    assert TrimBefore(c, t) == c[k..];
    if k == |c| {
      assert RemoveBeforeResult(c, t) == [] == c[k..];
    } else if k == 0 {
      assert RemoveBeforeResult(c, t) == c == c[k..];
    } else {
      assert RemoveBeforeResult(c, t) == c[k - 1..] == [c[k - 1]] + c[k..];
    }
  }

  /** What removeBefore leaves on a sorted store: the entries at or after t
      and, when some but not all entries are stale, the newest stale entry
      in front of them. */
  lemma RemoveBeforeOnSorted(c: seq<Metric>, t: Time)
    requires Sorted(c)
    ensures var k := LeadingStale(c, t);
      RemoveBeforeResult(c, t) == (if 1 <= k < |c| then [c[k - 1]] else []) + OnOrAfter(c, t)
  {
    RemoveBeforeVersusTrim(c, t);
    TrimBeforeExact(c, t);
  }

  /** removeBefore: trim the stale front of the store with a forward scan. */
  method RemoveBefore(mc: MetricCollection?, t: Time) returns (err: Option<CollectionError>)
    modifies mc
    ensures mc == null ==> err == Some(NilCollection)
    ensures mc != null ==> err == None && mc.expirePeriod == old(mc.expirePeriod)
    ensures mc != null ==> mc.collection == RemoveBeforeResult(old(mc.collection), t)
  {
    if mc == null {
      return Some(NilCollection);
    }
    var cLen := |mc.collection|;
    if cLen == 0 {
      return None;  // a collection with no data
    }
    var first := 0;
    while true
      invariant 0 <= first < cLen
      invariant first <= LeadingStale(mc.collection, t)
      decreases cLen - first
    {
      if mc.collection[first].timestamp < t {
        first := first + 1;
        if first == cLen {
          break;
        }
      } else {
        first := first - 1;
        break;
      }
    }
    if first == |mc.collection| {
      mc.collection := [];  // remove all entries
    } else if first != -1 {
      mc.collection := mc.collection[first..];
    }
    return None;
  }

  /** One tick of the background expiry task: trim with the cutoff
      now - expirePeriod; the result of removeBefore is ignored. */
  method ExpireTick(mc: MetricCollection?, now: Time)
    modifies mc
    ensures mc != null ==> mc.expirePeriod == old(mc.expirePeriod)
    ensures mc != null ==>
      mc.collection == RemoveBeforeResult(old(mc.collection), now - old(mc.expirePeriod))
  {
    if mc == null {
      return;
    }
    var _ := RemoveBefore(mc, now - mc.expirePeriod);
  }

  /** Three metrics at T0, T0+1s and T0+2s, a retention period of 1s and a
      tick at T0+2.001s: the entry at T0+1s is older than the cutoff
      T0+1.001s, yet removeBefore keeps it; the intended trim drops it. */
  lemma ExpiryKeepsStaleEntry()
    ensures var t0 := 10 * Second;
      var key := InstanceKey("h1", 3306);
      var c := [Metric(t0, key, 1, 2, 3, None),
                Metric(t0 + Second, key, 1, 2, 3, None),
                Metric(t0 + 2 * Second, key, 1, 2, 3, None)];
      var cutoff := (t0 + 2 * Second + Second / 1000) - Second;
      RemoveBeforeResult(c, cutoff) == c[1..] &&
      c[1].timestamp < cutoff &&
      TrimBefore(c, cutoff) == c[2..]
  {
    var t0 := 10 * Second;
    var key := InstanceKey("h1", 3306);
    var c := [Metric(t0, key, 1, 2, 3, None),
              Metric(t0 + Second, key, 1, 2, 3, None),
              Metric(t0 + 2 * Second, key, 1, 2, 3, None)];
    var cutoff := (t0 + 2 * Second + Second / 1000) - Second;
    assert c[1..][1..][1..] == [];
    assert LeadingStale(c[2..], cutoff) == 0;
    assert c[1..][1..] == c[2..];
    assert LeadingStale(c[1..], cutoff) == 1;
    assert LeadingStale(c, cutoff) == 2;
  }

  // ---------------------------------------------------------------- Reload

  /** Reload: take the configured retention (in seconds) as the new expiry
      period, converted as Go converts it to a time.Duration; the stored
      metrics are left alone. */
  method Reload(mc: MetricCollection?, retentionSeconds: int)
    modifies mc
    ensures mc != null ==> mc.expirePeriod == Int64(Int64(retentionSeconds) * Second)
    ensures mc != null ==> mc.collection == old(mc.collection)
  {
    if mc == null {
      return;
    }
    var newExpirePeriod := Int64(Int64(retentionSeconds) * Second);
    if mc.expirePeriod != newExpirePeriod {
      mc.expirePeriod := newExpirePeriod;
    }
  }

  /** Any retention that fits a time.Duration becomes exactly that many
      seconds of expiry period. */
  lemma ReloadPeriodExact(retentionSeconds: int)
    requires 0 <= retentionSeconds <= MaxInt64 / Second
    ensures Int64(Int64(retentionSeconds) * Second) == retentionSeconds * Second
  {
    assert retentionSeconds * Second <= MaxInt64;
  }

  // ------------------------------------------------------------- JSONSince

  /** Go's MetricJSON: one metric as the monitoring API renders it. */
  datatype MetricJSON = MetricJSON(
    timestamp: string,
    hostname: string,
    port: int,
    backendLatency: real,
    instanceLatency: real,
    totalLatency: real,
    err: Option<string>)

  /** j renders m: host, port and error copied, the timestamp formatted by
      `stamp` and each latency converted to seconds by `seconds`. */
  predicate Renders(j: MetricJSON, m: Metric, stamp: Time -> string, seconds: Duration -> real) {
    && j.timestamp == stamp(m.timestamp)
    && j.hostname == m.key.hostname
    && j.port == m.key.port
    && j.backendLatency == seconds(m.backendLatency)
    && j.instanceLatency == seconds(m.instanceLatency)
    && j.totalLatency == seconds(m.totalLatency)
    && j.err == m.err
  }

  /** JSONSince: Since's result rendered record by record, or Since's error. */
  method JSONSince(mc: MetricCollection?, t: Time, stamp: Time -> string, seconds: Duration -> real)
    returns (s: seq<MetricJSON>, err: Option<CollectionError>)
    ensures mc == null ==> err == Some(NilCollection) && s == []
    ensures mc != null ==> err == None
    ensures mc != null ==> |s| == |mc.collection| - SinceStart(mc.collection, t)
    ensures mc != null ==> forall i :: 0 <= i < |s| ==>
      Renders(s[i], mc.collection[SinceStart(mc.collection, t) + i], stamp, seconds)
  {
    if mc == null {
      return [], Some(NilCollection);
    }
    var raw, _, sinceErr := Since(mc, t);
    if sinceErr.Some? {
      return [], sinceErr;
    }
    s := [];
    for i := 0 to |raw|
      invariant |s| == i
      invariant forall j :: 0 <= j < i ==> Renders(s[j], raw[j], stamp, seconds)
    {
      var mj := MetricJSON(
        stamp(raw[i].timestamp),
        raw[i].key.hostname,
        raw[i].key.port,
        seconds(raw[i].backendLatency),
        seconds(raw[i].instanceLatency),
        seconds(raw[i].totalLatency),
        raw[i].err);
      s := s + [mj];
    }
    return s, None;
  }
}
