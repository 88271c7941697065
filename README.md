# Discovery metric collection, modelled in Dafny

This project models `MetricCollection`, the in-memory store that the
orchestrator's discovery process fills with latency measurements and that the
monitoring API reads back by time. The store keeps its metrics in insertion
order, which callers are expected to make chronological. It offers four
operations:

- `Append` adds a metric at the end. A metric with no timestamp is stamped
  with the current time.
- `Since(t)` scans backward from the newest entry. It returns the tail of
  entries stamped at or after `t`.
- `removeBefore(t)` scans forward from the oldest entry to trim stale entries.
  A background task calls it once a second with the cutoff
  `now - expirePeriod`.
- `JSONSince(t)` renders `Since`'s result record by record for the API.

`Reload` replaces the retention period.

The model has two files.

- `metric.dfy` (module `Metrics`) holds the values.
  - Instants and durations are integer nanoseconds. The instant `0` stands
    for Go's zero `time.Time`.
  - `Int64` is Go's int64 wrap-around.
  - `Metric` is the measurement record.
  - `Sorted` is the ordering the store assumes.
  - `OnOrAfter` is a reference filter: the entries stamped at or after `t`, in
    stored order. The scans are proved against it.
- `metric_collection.dfy` (module `Discovery`) holds the store.
  - The class `MetricCollection` has the two fields that the source updates in
    place: `collection` (a `seq<Metric>` that the methods reassign) and
    `expirePeriod`.
  - In Go, every operation has a pointer receiver that may be nil. Here each
    is a module-level method whose first parameter is `mc: MetricCollection?`,
    and `null` plays the part of nil.
  - A nil `*Metric` argument is `None` of an `Option<Metric>`.
  - Errors are the values `NilCollection` and `NilMetric`.
  - The current time is a parameter `now`.

`Since` and `removeBefore` are written as the same index loops as the source,
with the same breaks and the same `first` arithmetic. Each is proved against a
specification function:

- `SinceStart`: where the backward scan stops.
- `LeadingStale`: how many leading entries the forward scan finds stale.
- `RemoveBeforeResult`: what `removeBefore` leaves behind.

Lemmas relate these functions to `OnOrAfter` on sorted stores.

In one place the code and its own comment disagree, and the model follows the
code. `removeBefore`'s comment says it removes the values before the given
time. When some but not all entries are stale, the code keeps the newest stale
entry (see Findings).

## Model

| member | source | states |
|---|---|---|
| `Metrics.Int64` | go/discovery/metric_collection.go:84 | The result lies in the int64 range and equals the input modulo 2^64, like Go's conversion and multiplication on `time.Duration`. An input already in range is returned unchanged. |
| `Metrics.OnOrAfter` | go/discovery/metric_collection.go:120-121 | Reference meaning of "the metrics on or after the given time". Every result entry is stamped at or after `t`, and the result is no longer than the store. |
| `Metrics.OnOrAfterMembers` | go/discovery/metric_collection.go:120-121 | A metric is in `OnOrAfter`'s result if and only if it is stored and stamped at or after `t`. |
| `Discovery.MetricCollection.constructor` | go/discovery/metric_collection.go:45-55 | A new collection is empty and has the given expiry period. |
| `Discovery.Stamped` | go/discovery/metric_collection.go:111-114 | The stored record's timestamp is `now` when the given one is zero, and is unchanged otherwise. Every other field is kept. |
| `Discovery.Append` | go/discovery/metric_collection.go:100-118 | A nil collection gives `NilCollection`. A nil metric gives `NilMetric` and leaves the store unchanged. Otherwise there is no error, the store becomes the old store plus the stamped metric at the end (length plus one, earlier entries unchanged), and the expiry period is unchanged. |
| `Discovery.AppendKeepsSorted` | go/discovery/metric_collection.go:115-121 | Appending a metric no older than the last entry keeps the store sorted. |
| `Discovery.SinceStart` | go/discovery/metric_collection.go:133-149 | The backward scan stops at an index `k <= len`. Every entry from `k` on is stamped at or after `t` (equality included). If `k > 0`, the entry at `k-1` is stamped before `t`. |
| `Discovery.Since` | go/discovery/metric_collection.go:124-152 | A nil collection gives `NilCollection` and a nil result. An empty store gives a nil result and no error. Otherwise the result is the store from `SinceStart` on, with no error. The loop keeps `first` in range and terminates. The store is only read, so the result is a function of the store and `t`: two calls with no write between them agree. |
| `Discovery.SinceExactOnSorted` | go/discovery/metric_collection.go:120-152 | On a sorted store, Since's result is exactly the entries stamped at or after `t`, in stored order. |
| `Discovery.SinceBoundaries` | go/discovery/metric_collection.go:138-151 | On a sorted store, an entry stamped exactly `t` is included. If `t` is newer than the last entry, the result is empty. If no entry is older than `t`, the result is the whole store. |
| `Discovery.LeadingStale` | go/discovery/metric_collection.go:168-180 | The forward scan counts `k` leading entries that are stamped before `t`. The entry at `k`, if any, is not. |
| `Discovery.ScansAgreeOnSorted` | go/discovery/metric_collection.go:168-180 | On a sorted store, the forward scan of `removeBefore` and the backward scan of `Since` find the same boundary. |
| `Discovery.RemoveBeforeResult` | go/discovery/metric_collection.go:163-187 | The store left behind is always a suffix of the old one. It drops no more entries than the scan found stale, so no entry stamped at or after `t` is removed. It is empty exactly when every entry is stale. It is unchanged when at most one leading entry is stale and not all are. When some but not all entries are stale, it has exactly one stale entry in front. |
| `Discovery.RemoveBefore` | go/discovery/metric_collection.go:154-189 | A nil collection gives `NilCollection`. Otherwise there is no error, the store becomes `RemoveBeforeResult` of the old store, and the expiry period is unchanged. The loop keeps `first` within `[-1, len]` and terminates. |
| `Discovery.RemoveBeforeKeepsSorted` | go/discovery/metric_collection.go:183-187 | Trimming keeps a sorted store sorted. |
| `Discovery.RemoveBeforeOnSorted` | go/discovery/metric_collection.go:168-187 | On a sorted store, what remains is the entries stamped at or after `t`. When some but not all entries are stale, the newest stale entry stays in front of them. |
| `Discovery.TrimBefore` | go/discovery/metric_collection.go:154-155 | The trim that the comment describes. The result is a suffix of the store that drops exactly the leading stale entries, and its first entry, if any, is not stale. |
| `Discovery.RemoveBeforeVersusTrim` | go/discovery/metric_collection.go:176-187 | On any store, `removeBefore` as written leaves the described trim plus, when some but not all entries are stale, the newest stale entry in front of it. Otherwise the two agree. |
| `Discovery.TrimBeforeExact` | go/discovery/metric_collection.go:154-155 | On a sorted store, the described trim leaves exactly the entries stamped at or after `t`. |
| `Discovery.ExpiryKeepsStaleEntry` | go/discovery/metric_collection.go:176-178 | Take metrics at T0, T0+1s and T0+2s, a 1s period and a tick at T0+2.001s. `removeBefore` keeps the entry at T0+1s, which is older than the cutoff. The described trim drops it. |
| `Discovery.ExpireTick` | go/discovery/metric_collection.go:66-69 | One expiry tick replaces the store by `RemoveBeforeResult` with cutoff `now - expirePeriod`. The period is unchanged. |
| `Discovery.Reload` | go/discovery/metric_collection.go:77-89 | The expiry period becomes the retention seconds times `time.Second`, computed in int64 as Go computes it. The stored metrics are untouched. A nil collection is a no-op. |
| `Discovery.ReloadPeriodExact` | go/discovery/metric_collection.go:84-87 | A retention of at most MaxInt64 / 1e9 seconds gives an expiry period of exactly that many seconds. |
| `Discovery.JSONSince` | go/discovery/metric_collection.go:213-238 | A nil collection gives `NilCollection` and an empty result. Otherwise there is no error, and the output has one record per entry of Since's result, in the same order. Record `i` carries that entry's hostname, port and error, its timestamp formatted by `stamp`, and its three latencies converted by `seconds`. |

## Findings

| source | as written | input that shows it | evidently intended | confidence | as-written member | corrected member |
|---|---|---|---|---|---|---|
| go/discovery/metric_collection.go:176-178 | When the forward scan meets the first entry at or after the cutoff, it steps `first` back one place. The re-slice then keeps the newest stale entry. | Metrics at T0, T0+1s and T0+2s, retention 1s, tick at T0+2.001s (cutoff T0+1.001s). The entry at T0+1s survives. | Per the comment at lines 154-155, every entry stamped before the cutoff is removed. | medium (not executed) | `Discovery.ExpiryKeepsStaleEntry` | `Discovery.TrimBeforeExact` |

The operations keep the behaviour as written. `RemoveBefore` and
`ExpireTick` are specified by `RemoveBeforeResult`. The intended trim is
`TrimBefore`, and `TrimBeforeExact` proves its property.
`RemoveBeforeOnSorted` states how far apart the two are: at most the one
stale entry.

## Left out

- The background expiry goroutine, its one-second ticker and the `done`
  channel (`autoExpire`, the goroutine start in `NewMetricCollection`) are
  concurrency. Only one tick is modelled, as `ExpireTick`.
- `Shutdown` sends on the `done` channel. It is concurrency and is not
  modelled, including its blocking when no receiver is left.
- `ExpireTick` does not model `autoExpire`'s unlocked read of
  `expirePeriod`. It also computes the cutoff with unbounded integers and not
  with Go's `time.Time.Add` of a negated int64 duration.
- The `sync.Mutex` locking is left out. The operations are sequential
  methods.
- `time.Now()` is replaced by the parameter `now`.
- `Reload` does not read the global configuration or log. The retention
  seconds are its parameter.
- The global singleton `MC` is left out.
- `JSONSince`: the timestamp string (`timestamp()` with its `Format` layout
  and `%q`) and the conversion of the latencies to fractional seconds
  (`Duration.Seconds()`, `myfloat` and its `String`) are floating point and
  library formatting. They are the parameters `stamp` and `seconds`.
- `JSONSince` does not distinguish a nil result slice from an empty one. The
  source returns nil whenever the result is empty.
- The `Metric` type is defined in a file that is not part of this model. It
  is modelled as a value record. The error outcome is kept as its message.
- `Append` mutates the caller's `*Metric` in place when it stamps the
  timestamp. That is pointer aliasing, and the model stores a stamped copy
  instead.
- Error messages are modelled only as the kind of error (`NilCollection`,
  `NilMetric`), not as their text.
