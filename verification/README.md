# Time-series metrics: write path and read path

This project models `src/lib.rs` of a Substreams time-series helper in
Dafny. The helper has two halves.

- **Write path:** `TimeSeriesStore`. It keeps an additive big-integer
  store, keyed by colon-delimited strings. `add_metrics` first evicts the
  entity's previous day and hour buckets (`update`). It then adds every
  metric's value to three keys:
  - `<entity>:total:<metric>[:<group>...]`;
  - `<entity>:day:<day start>:<metric>[:<group>...]`;
  - `<entity>:hour:<hour start>:<metric>[:<group>...]`.
- **Read path:** `DeltaProcessor`. It turns the store's deltas into rows
  of output tables:
  - It decodes every key back into entity, interval, timestamp, metric
    and groupings, and skips the keys it cannot decode.
  - It upserts the row `<timestamp>-<interval>[-<groupings>]` of table
    `<entity>`.
  - It sets the `interval` and `timestamp` attributes on that row as they
    are. It also sets the metric attribute and one attribute per grouping,
    each through a transform when one is registered under its name.

The model has four modules.

- `Strings` (`strings.dfy`):
  - Rust's `split(char)`, which never returns an empty list;
  - `join`;
  - the decimal rendering of integers.
- `KeyScheme` (`key_scheme.dfy`):
  - bucket arithmetic with Rust's truncating `i64` division;
  - the keys the write path builds;
  - their decoding on the read path;
  - the row id and the names of the grouping fields.
- `TimeSeries` (`time_series_store.dfy`):
  - the store as a `map<string, int>`;
  - the `TimeSeriesStore` class:
    - `Update` is proved against the eviction function `Evict`;
    - `AddMetrics` is proved against `ThreeWayAdded`, which is eviction
      followed by adding each metric to its three keys (`AddedVia`);
    - its accumulation loop `AddAll` calls the store's `add_many`, modelled
      as the function `AddMany`;
  - the lemmas about eviction, key disjointness and additivity.
- `Deltas` (`delta_processor.dfy`):
  - attribute values and the transform result kinds;
  - the specification function `ApplyDeltas`;
  - the `DeltaProcessor` class, whose `ProcessDeltas` is proved against
    `ApplyDeltas`;
  - the lemmas on skipped keys, attribute resolution, the round trip of a
    written key, and replay idempotence.

`add_metrics` iterates over a hash map of metrics, in an order that is not
specified. `AddAll` therefore picks the next metric nondeterministically.
Its postcondition is stated pointwise (`AddedVia`), and
`ThreeWayAddedUnique` proves that this postcondition pins down the final
store, so every iteration order ends in the same store.

The read path re-joins groups with `-` and then splits them on `-`. So:

- groups round-trip when each one is non-empty and free of `-`
  (`GroupingsRoundTrip`);
- a list holding a group that contains `-` never comes back
  (`DashedGroupsDoNotRoundTrip`);
- with the timestamp and interval fixed, the row id determines groups that
  are non-empty and free of `-` (`RowIdDeterminesGroups`);
- groups that do contain `-` can collide. The store keys of `[a-b]` and
  `[a, b]` differ, yet both decode alike and are upserted into one row
  (`DashedGroupsShareRow`).

The model follows the code here.

Eviction deletes only the bucket immediately before the current one.
After an idle gap of a whole bucket or more, a key of an older bucket is
never deleted (`IdleGapKeepsOldBucket`). One might expect the next write
to evict every older bucket; the code deletes only the immediately
previous one, and the model follows the code.

## Model

| member | source | states |
|---|---|---|
| Strings.Split | src/lib.rs:94 | Splitting on a character never gives an empty list, no piece holds the separator, and joining the pieces back gives the input. |
| Strings.SplitJoin | src/lib.rs:147 | Separator-free pieces survive a join followed by a split. |
| Strings.IntToString | src/lib.rs:26-27 | The rendering of an `i64` is non-empty and holds no ':'. It starts with '-' exactly for negatives, is otherwise all digits, and has no leading zero; zero renders as "0". |
| Strings.NatToStringValue | src/lib.rs:26-27 | Reading the decimal digits of a natural number's rendering gives the number back. |
| Strings.IntToStringValue | src/lib.rs:26-27 | Reading the rendering of an integer, with an optional '-', gives the integer back. |
| Strings.IntToStringInjective | src/lib.rs:52-53 | Different bucket starts render differently. |
| KeyScheme.BucketBounds | src/lib.rs:20-23 | For a timestamp at or after the epoch, the truncated bucket start is a multiple of the width, the bucket holds the timestamp, and the previous start is one width earlier. |
| KeyScheme.BucketBoundsBeforeEpoch | src/lib.rs:20-21 | Before the epoch the truncating division rounds toward zero, so the timestamp lies in (start - width, start]. |
| KeyScheme.WrittenKeySegments | src/lib.rs:43-54 | Each written key is its fields joined by ':' (the group suffix empty without groups). |
| KeyScheme.Decode | src/lib.rs:94-119 | A decoded key has interval total, day or hour; total keys get timestamp "0"; the entity, metric, timestamp and groupings hold no ':'. |
| KeyScheme.DecodeSkips | src/lib.rs:96-118 | A key is skipped exactly when it has fewer than 3 segments, an unknown interval tag, or is a day or hour key with fewer than 4 segments. |
| KeyScheme.DecodeWrittenKey | src/lib.rs:102-117 | Round trip: a key built by the write path from colon-free fields decodes to its entity, interval, bucket text ("0" for total), metric and the groups joined with '-'. |
| KeyScheme.GroupingsRoundTrip | src/lib.rs:146-147 | Non-empty, dash-free groups come back from the joined groupings, which are non-empty. |
| KeyScheme.DashedGroupsDoNotRoundTrip | src/lib.rs:147 | A list of groups where any group contains '-' is never what splitting their '-'-join gives back. |
| KeyScheme.RowIdDeterminesGroups | src/lib.rs:121-125 | With the timestamp and interval fixed, equal row ids mean equal groups, when each group is non-empty and dash-free. |
| KeyScheme.DashedGroupsShareRow | src/lib.rs:102-125 | The total keys of groups `[a-b]` and `[a, b]` are different store keys but decode to the same fields, so they share one row. |
| KeyScheme.FieldNamesDistinct | src/lib.rs:149-153 | Distinct supplied field names, none shaped like `group<k>`, give any two grouping positions different names. |
| KeyScheme.SyntheticGroupNames | src/lib.rs:149-153 | Past the supplied field names the i-th grouping is named `group<i+1>`, and two such positions never share a name. |
| TimeSeries.AddManyCounts | src/lib.rs:56 | `add_many` adds the value once per listing to each listed key, creates absent keys from 0, and changes no other key. |
| TimeSeries.EvictExact | src/lib.rs:25-28 | After the prefix deletes for a list of entities, a key is present exactly when it was and lies under none of their previous day or hour bucket prefixes; survivors keep their values. |
| TimeSeries.EvictEntityExact | src/lib.rs:26-27 | The two deletes for one entity remove exactly its keys under the previous day or hour bucket prefix. |
| TimeSeries.EvictIdempotent | src/lib.rs:18-29 | Running the same eviction twice equals running it once. |
| TimeSeries.EvictTwice | src/lib.rs:32-41 | The repeated deletes in `add_metrics` right after `update` remove nothing more. |
| TimeSeries.IntervalsDiffer | src/lib.rs:50-54 | Total, day and hour keys never coincide, for any metrics. |
| TimeSeries.MetricsDiffer | src/lib.rs:50-54 | Different metrics get different keys of each interval. |
| TimeSeries.MetricKeysDisjoint | src/lib.rs:49-54 | Two different metrics of one write share no key. |
| TimeSeries.MetricKeysSeparate | src/lib.rs:49-54 | Every metric owns three distinct keys and no two metrics share any. |
| TimeSeries.TotalKeyNotUnder | src/lib.rs:26-27 | No total key lies under a bucket prefix, so eviction never touches the all-time total. |
| TimeSeries.BucketKeyNotUnder | src/lib.rs:26-27 | A bucket key lies under no prefix of another interval or bucket of its entity. |
| TimeSeries.AddStep | src/lib.rs:49-57 | One more `add_many` for a not yet visited metric keeps "every visited metric added to its three keys, all other keys unchanged". |
| TimeSeries.AddedViaAll | src/lib.rs:49-57 | Once every metric has been visited, that statement covers the whole metrics map. |
| TimeSeries.AddedViaUnique | src/lib.rs:49-57 | The store after adding a metrics map is uniquely determined by the store before it. |
| TimeSeries.ThreeWayAddedUnique | src/lib.rs:31-58 | `add_metrics` ends in the same store whatever order the metrics map is iterated in. |
| TimeSeries.CurrentKeysSurvive | src/lib.rs:32-54 | The three keys a write adds to are never stale for the eviction done at the same clock. |
| TimeSeries.Additivity | src/lib.rs:31-58 | Two writes of one metric within the same day and hour leave its total, day and hour keys at the surviving value plus both values. |
| TimeSeries.NextBucketEvicts | src/lib.rs:18-29 | The first write in the next bucket evicts that entity's keys of the previous bucket. |
| TimeSeries.IdleGapKeepsOldBucket | src/lib.rs:18-29 | After a gap of two or more buckets the old bucket's keys survive the eviction. |
| TimeSeries.TimeSeriesStore.constructor | src/lib.rs:14-16 | The store holds the given clock and store. |
| TimeSeries.TimeSeriesStore.Update | src/lib.rs:18-29 | The new store is the eviction of the old one for the listed entities: exactly the keys stale for some entity are gone, survivors keep their values. |
| TimeSeries.TimeSeriesStore.AddMetrics | src/lib.rs:31-58 | After eviction of the entity's previous buckets, each metric's value is added to its total, day and hour keys, and every other key is unchanged. |
| TimeSeries.TimeSeriesStore.AddAll | src/lib.rs:43-57 | The accumulation loop adds each metric's value to its three keys and leaves every other key unchanged, in any iteration order. |
| Deltas.SetGroupAttr | src/lib.rs:155-166 | Setting one grouping attribute changes no other attribute. |
| Deltas.ApplyDeltaFrame | src/lib.rs:93-168 | A skipped key leaves the tables unchanged; otherwise the row of the decoded (entity, row id) exists afterwards and no other row changes. |
| Deltas.ApplyDeltasAppend | src/lib.rs:92-93 | Processing two delta sequences one after the other is processing their concatenation. |
| Deltas.MalformedSkipped | src/lib.rs:94-119 | A delta with an undecodable key leaves no trace, and the deltas after it are processed as if it were absent. |
| Deltas.MetricAttributeResolution | src/lib.rs:131-144 | With no transform the metric attribute is the raw value; a transform's integer, string, boolean or decimal result is stored as that kind. |
| Deltas.GroupAttributeResolution | src/lib.rs:155-166 | With no transform a grouping attribute is the raw segment; a string, integer or boolean result is stored; a decimal result sets nothing. |
| Deltas.SetGroupsKeeps | src/lib.rs:146-168 | An attribute named by no grouping position keeps its value. |
| Deltas.SetGroupsAt | src/lib.rs:146-168 | A grouping's attribute holds its value when no later position shares the name. |
| Deltas.DistinctFieldNamesFromSupplied | src/lib.rs:149-153 | Distinct supplied field names, none shaped like `group<k>`, make every grouping position's attribute name unique. |
| Deltas.DeltaRow | src/lib.rs:121-168 | The upserted row gets `interval` and `timestamp`, unless the metric or a grouping of the same name overwrites them, and the metric value, unless a grouping overwrites it; other attributes keep their values. |
| Deltas.RowAttributes | src/lib.rs:127-168 | The same facts for the row alone, given any set of names that covers the grouping fields. |
| Deltas.WrittenKeyRow | src/lib.rs:121-127 | Any key built by the write path from colon-free fields lands in table `entity` under the id from its bucket text, interval and joined groups. |
| Deltas.MaterializeWrittenKey | src/lib.rs:121-168 | For a grouping position whose value gets set, that row holds the position's attribute with its group (or its transform's result), when the groups are non-empty and dash-free and the field names are distinct. |
| Deltas.ApplyDeltasOverlay | src/lib.rs:92-170 | Processing deltas on existing tables writes, row by row, what the same deltas would write into empty tables. |
| Deltas.ReplayIdempotent | src/lib.rs:92-170 | Replaying the same delta sequence a second time leaves the tables as one pass left them. |
| Deltas.DeltaProcessor.constructor | src/lib.rs:68-74 | A new processor has the given tables and empty transform registries. |
| Deltas.DeltaProcessor.AddMetricMutation | src/lib.rs:76-82 | Registers a metric transform, replacing an earlier one of the same name; nothing else changes. |
| Deltas.DeltaProcessor.AddGroupMutation | src/lib.rs:84-90 | Registers a grouping transform, replacing an earlier one of the same name; nothing else changes. |
| Deltas.DeltaProcessor.ProcessDeltas | src/lib.rs:92-170 | The tables become the in-order processing of the deltas; the registries are unchanged. |
| Deltas.DeltaProcessor.ProcessDelta | src/lib.rs:93-168 | One iteration of the loop: skip an undecodable key, otherwise upsert the decoded row. |
| Deltas.DeltaProcessor.SetGroupAttributes | src/lib.rs:146-168 | The grouping loop writes the i-th value under its field name, through its transform when there is one. |

## Left out

- The clock is modelled as its timestamp in seconds. The `unwrap` of a missing timestamp, which would panic, is not modelled.
- `i64` overflow of `current_timestamp / width * width - width` is not modelled. Integers are unbounded. The subtraction overflows only for timestamps within one bucket width of the smallest `i64`.
- Values are `int`. `BigInt` values and deltas are unbounded, so `int` is exact for them.
- The store engine's ordinal argument (`0`), persistence, and the delta encoding are left out. The store is its contents, and a delta is its key and new value.
- Transform results are the closed union `Output`, with integer, string, boolean and decimal kinds. In the source a transform may return any `ToValue` type, and a kind outside the four is silently ignored. Here that case cannot be expressed.
- `BigDecimal` is carried as an opaque text.
- The output tables' own semantics are left out:
  - the row-creation operation and the change encoding;
  - the rendering of a `BigInt` as text. A stored integer is `BigInt(n)`, and the text `set_bigint` stores for `timestamp` is `BigIntText`.
- The processor borrows the tables mutably for its lifetime. Here it owns them as a field, so the aliasing of the borrowed tables and the row handle is not modelled.
- `TimeSeries.TimeSeriesStore.AddAll` and `Deltas.DeltaProcessor.ProcessDelta` are the loop and the loop body of `add_metrics` and `process_deltas`, split out as methods of their own. Returning early from `ProcessDelta` is the loop's `continue`.
- `Deltas.DeltaProcessor.SetGroupAttributes` is the grouping loop of `process_deltas`, split out as a method of its own.
- The deltas are a sequence, not a lazy iterator.
