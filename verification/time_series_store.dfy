/** The write path: `TimeSeriesStore` of src/lib.rs. Every write first evicts
    the entity's previous day and hour buckets, then adds each metric's value
    to its total, current-day and current-hour keys. */
module TimeSeries {
  import opened Strings
  import opened KeyScheme

  /** The additive accumulator store (`StoreAddBigInt`) as its contents. */
  type Store = map<string, int>

  /** A key's value, an absent key reading as 0. */
  function Get(s: Store, k: string): int
  {
    if k in s then s[k] else 0
  }

  /** `add_many`: adds `v` to each listed key in turn, creating an absent key
      at 0. */
  function AddMany(s: Store, keys: seq<string>, v: int): Store
    decreases |keys|
  {
    if |keys| == 0 then s
    else AddMany(s[keys[0] := Get(s, keys[0]) + v], keys[1..], v)
  }

  /** A key listed n times gains n * v, an absent one is created, and no
      unlisted key changes. */
  lemma {:induction false} AddManyCounts(s: Store, keys: seq<string>, v: int)
    ensures forall k :: k in AddMany(s, keys, v) <==> k in s || k in keys
    ensures forall k :: k in AddMany(s, keys, v) ==> AddMany(s, keys, v)[k] == Get(s, k) + multiset(keys)[k] * v
    decreases |keys|
  {
    if |keys| > 0 {
      var s' := s[keys[0] := Get(s, keys[0]) + v];
      var r := AddMany(s', keys[1..], v);
      AddManyCounts(s', keys[1..], v);
      assert keys == [keys[0]] + keys[1..];
      forall k | k in r
        ensures r[k] == Get(s, k) + multiset(keys)[k] * v
      {
        var c := multiset(keys[1..])[k];
        assert r[k] == Get(s', k) + c * v;
        if k == keys[0] {
          assert multiset(keys)[k] == c + 1;
          MulSucc(c, v);
        } else {
          assert multiset(keys)[k] == c;
        }
      }
    }
  }

  lemma MulSucc(c: int, v: int)
    ensures (c + 1) * v == c * v + v
  {
  }

  /** `delete_prefix`: removes every key that starts with `prefix`. */
  function DeletePrefix(s: Store, prefix: string): Store
  {
    map k | k in s && !(prefix <= k) :: s[k]
  }

  function IntervalWidth(interval: string): int
  {
    if interval == "day" then DayWidth else HourWidth
  }

  /** The two prefixes `update` deletes for `entity` at clock `now`. */
  function DayEvictionPrefix(entity: string, now: int): string
  {
    BucketPrefix(entity, "day", PrevBucketStart(now, DayWidth))
  }

  function HourEvictionPrefix(entity: string, now: int): string
  {
    BucketPrefix(entity, "hour", PrevBucketStart(now, HourWidth))
  }

  /** Key `k` lies in a bucket that `update` evicts for `entity` at `now`. */
  predicate Stale(k: string, entity: string, now: int)
  {
    DayEvictionPrefix(entity, now) <= k || HourEvictionPrefix(entity, now) <= k
  }

  /** The store after the two prefix deletes issued for one entity. */
  function EvictEntity(s: Store, entity: string, now: int): Store
  {
    DeletePrefix(DeletePrefix(s, DayEvictionPrefix(entity, now)), HourEvictionPrefix(entity, now))
  }

  /** The store after `update` has visited every entity in order. */
  function Evict(s: Store, entities: seq<string>, now: int): Store
  {
    if |entities| == 0 then s
    else EvictEntity(Evict(s, entities[..|entities| - 1], now), entities[|entities| - 1], now)
  }

  /** `k` is stale for none of `entities`. */
  predicate Fresh(k: string, entities: seq<string>, now: int)
  {
    forall j :: 0 <= j < |entities| ==> !Stale(k, entities[j], now)
  }

  /** Eviction is exact: a key is gone exactly when it is stale for some listed
      entity, and every surviving key keeps its value. */
  lemma {:induction false} EvictExact(s: Store, entities: seq<string>, now: int)
    ensures forall k :: k in Evict(s, entities, now) <==> k in s && Fresh(k, entities, now)
    ensures forall k :: k in Evict(s, entities, now) ==> Evict(s, entities, now)[k] == s[k]
  {
    if |entities| > 0 {
      var n := |entities| - 1;
      var init, last := entities[..n], entities[n];
      EvictExact(s, init, now);
      EvictEntityExact(Evict(s, init, now), last, now);
      forall k
        ensures Fresh(k, entities, now) <==> Fresh(k, init, now) && !Stale(k, last, now)
      {
        FreshSnoc(k, entities, now);
      }
    }
  }

  /** Fresh for a list is fresh for all but its last entity and for that one. */
  lemma FreshSnoc(k: string, entities: seq<string>, now: int)
    requires |entities| > 0
    ensures Fresh(k, entities, now) <==>
      Fresh(k, entities[..|entities| - 1], now) && !Stale(k, entities[|entities| - 1], now)
  {
    var n := |entities| - 1;
    var init := entities[..n];
    if Fresh(k, entities, now) {
      forall j | 0 <= j < n
        ensures !Stale(k, init[j], now)
      {
        assert init[j] == entities[j];
      }
    }
    if Fresh(k, init, now) && !Stale(k, entities[n], now) {
      forall j | 0 <= j < |entities|
        ensures !Stale(k, entities[j], now)
      {
        if j < n {
          assert entities[j] == init[j];
        }
      }
    }
  }

  /** The two prefix deletes for one entity remove exactly its stale keys. */
  lemma EvictEntityExact(s: Store, entity: string, now: int)
    ensures forall k :: k in EvictEntity(s, entity, now) <==> k in s && !Stale(k, entity, now)
    ensures forall k :: k in EvictEntity(s, entity, now) ==> EvictEntity(s, entity, now)[k] == s[k]
  {
  }

  /** Evicting for one more entity is that entity's two prefix deletes. */
  lemma EvictSnoc(s: Store, entities: seq<string>, i: int, now: int)
    requires 0 <= i < |entities|
    ensures Evict(s, entities[..i + 1], now) == EvictEntity(Evict(s, entities[..i], now), entities[i], now)
  {
    assert entities[..i + 1][..i] == entities[..i];
  }

  /** Evicting for a single entity is that entity's two prefix deletes. */
  lemma EvictOne(s: Store, entity: string, now: int)
    ensures Evict(s, [entity], now) == EvictEntity(s, entity, now)
  {
    assert [entity][..0] == [];
  }

  /** `add_metrics` repeats the entity's two prefix deletes right after
      `update`; the repeat removes nothing more. */
  lemma EvictTwice(s0: Store, s1: Store, s2: Store, entity: string, now: int, dayPrefix: string, hourPrefix: string)
    requires s1 == Evict(s0, [entity], now)
    requires dayPrefix == DayEvictionPrefix(entity, now) && hourPrefix == HourEvictionPrefix(entity, now)
    requires s2 == DeletePrefix(DeletePrefix(s1, dayPrefix), hourPrefix)
    ensures s2 == Evict(s0, [entity], now)
  {
    EvictOne(s1, entity, now);
    EvictIdempotent(s0, [entity], now);
  }

  /** Repeating an eviction changes nothing. */
  lemma EvictIdempotent(s: Store, entities: seq<string>, now: int)
    ensures Evict(Evict(s, entities, now), entities, now) == Evict(s, entities, now)
  {
    EvictExact(s, entities, now);
    EvictExact(Evict(s, entities, now), entities, now);
  }

  /** The three keys one metric is added to: total, current day, current hour. */
  function MetricKeys(entity: string, metric: string, groups: seq<string>, day: int, hour: int): seq<string>
  {
    [TotalKey(entity, metric, groups), DayKey(entity, day, metric, groups), HourKey(entity, hour, metric, groups)]
  }

  /** `k` is one of the three keys of `metric`. */
  predicate IsMetricKey(k: string, entity: string, metric: string, groups: seq<string>, day: int, hour: int)
  {
    k == TotalKey(entity, metric, groups) || k == DayKey(entity, day, metric, groups)
    || k == HourKey(entity, hour, metric, groups)
  }

  /** `after` holds `base`'s value of `k` (0 if absent) plus `v`. */
  predicate AddedTo(base: Store, after: Store, k: string, v: int)
  {
    k in after && after[k] == Get(base, k) + v
  }

  /** `after` agrees with `base` on `k`, present or absent. */
  predicate Kept(base: Store, after: Store, k: string)
  {
    (k in after <==> k in base) && (k in base ==> after[k] == base[k])
  }

  /** `k` is none of the keys `keysOf` assigns to the metrics named. */
  predicate Unwritten(k: string, names: set<string>, keysOf: string -> seq<string>)
  {
    forall m :: m in names ==> k !in keysOf(m)
  }

  /** `after` is `base` with the value of each named metric added to each of
      its keys, and every other key as it was. */
  ghost predicate AddedVia(base: Store, after: Store, metrics: map<string, int>, names: set<string>,
                           keysOf: string -> seq<string>)
  {
    && (forall m, i :: m in names && m in metrics && 0 <= i < |keysOf(m)| ==>
          AddedTo(base, after, keysOf(m)[i], metrics[m]))
    && (forall k :: Unwritten(k, names, keysOf) ==> Kept(base, after, k))
  }

  /** Every metric owns three distinct keys, and no two metrics share one. */
  ghost predicate SeparateKeys(keysOf: string -> seq<string>)
  {
    && (forall m :: |keysOf(m)| == 3 && keysOf(m)[0] != keysOf(m)[1]
                    && keysOf(m)[0] != keysOf(m)[2] && keysOf(m)[1] != keysOf(m)[2])
    && (forall m1, m2, k :: m1 != m2 && k in keysOf(m1) ==> k !in keysOf(m2))
  }

  /** The keys of each metric for one entity, grouping and pair of buckets. */
  function KeysOf(entity: string, groups: seq<string>, day: int, hour: int): string -> seq<string>
  {
    m => MetricKeys(entity, m, groups, day, hour)
  }

  /** What `add_metrics` does to the store at clock `now`: evict the entity's
      previous buckets, then add each metric to its three current keys. */
  ghost predicate ThreeWayAdded(before: Store, after: Store, entity: string, metrics: map<string, int>,
                                groups: seq<string>, now: int)
  {
    AddedVia(Evict(before, [entity], now), after, metrics, metrics.Keys,
             KeysOf(entity, groups, BucketStart(now, DayWidth), BucketStart(now, HourWidth)))
  }

  /** Strips a shared entity and compares the colon-terminated fields after it. */
  lemma ColonFieldPrefix(e: string, a: string, b: string, x: string, y: string)
    requires ':' !in a && ':' !in b
    requires e + ":" + a + ":" + x <= e + ":" + b + ":" + y
    ensures a == b && x <= y
  {
    var u, w := a + ":" + x, b + ":" + y;
    assert e + ":" + a + ":" + x == (e + ":") + u;
    assert e + ":" + b + ":" + y == (e + ":") + w;
    PrefixCancel(e + ":", u, w);
    var n := if |a| < |b| then |a| else |b|;
    assert u[n] == w[n];
    assert |a| == |b| ==> a == u[..|a|] && b == w[..|b|];
    assert |a| == |b| ==> x == u[|a| + 1..] && y[..|x|] == w[|a| + 1..][..|x|];
  }

  /** A colon-terminated field that is a prefix of another colon-separated
      string is its first field. */
  lemma FirstFieldPrefix(a: string, b: string, rest: string)
    requires ':' !in a && ':' !in b
    requires a + ":" <= b + ":" + rest
    ensures a == b
  {
    var u, w := a + ":", b + ":" + rest;
    var n := if |a| < |b| then |a| else |b|;
    assert u[n] == w[n];
    assert |a| == |b| ==> a == u[..|a|] && b == w[..|b|];
  }

  /** A shared head cancels from a prefix relation. */
  lemma PrefixCancel(p: string, u: string, w: string)
    requires p + u <= p + w
    ensures u <= w
  {
    assert u == (p + u)[|p|..];
    assert (p + u) == (p + w)[..|p| + |u|];
    assert (p + w)[..|p| + |u|][|p|..] == w[..|u|];
  }

  /** The keys regrouped around their colon-separated fields. */
  lemma KeyShapes(e: string, interval: string, bucket: int, metric: string, groups: seq<string>)
    ensures TotalKey(e, metric, groups) == e + ":" + "total" + ":" + (metric + GroupSuffix(groups))
    ensures BucketKey(e, interval, bucket, metric, groups)
         == e + ":" + interval + ":" + (IntToString(bucket) + ":" + (metric + GroupSuffix(groups)))
    ensures BucketPrefix(e, interval, bucket) == e + ":" + interval + ":" + (IntToString(bucket) + ":")
    ensures BucketKey(e, interval, bucket, metric, groups)
         == BucketPrefix(e, interval, bucket) + (metric + GroupSuffix(groups))
  {
    TotalKeyShape(e, metric, groups);
    BucketKeyShape(e, interval, bucket, metric, groups);
  }

  lemma TotalKeyShape(e: string, metric: string, groups: seq<string>)
    ensures TotalKey(e, metric, groups) == e + ":" + "total" + ":" + (metric + GroupSuffix(groups))
  {
    assert ":total:" == ":" + "total" + ":";
    ConcatAssoc(e, ":", "total");
    ConcatAssoc(e + ":", "total", ":");
    ConcatAssoc(e, ":total", ":");
    ConcatAssoc(e + ":total:", metric, GroupSuffix(groups));
  }

  lemma BucketKeyShape(e: string, interval: string, bucket: int, metric: string, groups: seq<string>)
    ensures BucketKey(e, interval, bucket, metric, groups)
         == e + ":" + interval + ":" + (IntToString(bucket) + ":" + (metric + GroupSuffix(groups)))
    ensures BucketPrefix(e, interval, bucket) == e + ":" + interval + ":" + (IntToString(bucket) + ":")
    ensures BucketKey(e, interval, bucket, metric, groups)
         == BucketPrefix(e, interval, bucket) + (metric + GroupSuffix(groups))
  {
    var rest := metric + GroupSuffix(groups);
    var head := e + ":" + interval + ":";
    var n := IntToString(bucket);
    var prefix := head + n + ":";
    ConcatAssoc(prefix, metric, GroupSuffix(groups));
    ConcatAssoc(head + n, ":", rest);
    ConcatAssoc(head, n, ":" + rest);
    ConcatAssoc(n, ":", rest);
    ConcatAssoc(head, n, ":");
  }

  /** A total key lies under no bucket prefix of its entity. */
  lemma TotalKeyNotUnder(e: string, metric: string, groups: seq<string>, interval: string, bucket: int)
    requires interval == "day" || interval == "hour"
    ensures !(BucketPrefix(e, interval, bucket) <= TotalKey(e, metric, groups))
  {
    KeyShapes(e, interval, bucket, metric, groups);
    if BucketPrefix(e, interval, bucket) <= TotalKey(e, metric, groups) {
      ColonFieldPrefix(e, interval, "total", IntToString(bucket) + ":", metric + GroupSuffix(groups));
    }
  }

  /** A bucket key lies under the prefix of its own bucket only. */
  lemma BucketKeyNotUnder(e: string, interval: string, bucket: int, metric: string, groups: seq<string>,
                          interval': string, bucket': int)
    requires interval == "day" || interval == "hour"
    requires interval' == "day" || interval' == "hour"
    requires interval != interval' || bucket != bucket'
    ensures !(BucketPrefix(e, interval', bucket') <= BucketKey(e, interval, bucket, metric, groups))
  {
    KeyShapes(e, interval, bucket, metric, groups);
    KeyShapes(e, interval', bucket', metric, groups);
    if BucketPrefix(e, interval', bucket') <= BucketKey(e, interval, bucket, metric, groups) {
      var rest := metric + GroupSuffix(groups);
      ColonFieldPrefix(e, interval', interval, IntToString(bucket') + ":", IntToString(bucket) + ":" + rest);
      FirstFieldPrefix(IntToString(bucket'), IntToString(bucket), rest);
      IntToStringInjective(bucket', bucket);
    }
  }

  /** The total, day and hour keys of one write are pairwise distinct, also
      across metrics. */
  lemma IntervalsDiffer(e: string, m1: string, m2: string, groups: seq<string>, day: int, hour: int)
    ensures TotalKey(e, m1, groups) != DayKey(e, day, m2, groups)
    ensures TotalKey(e, m1, groups) != HourKey(e, hour, m2, groups)
    ensures DayKey(e, day, m1, groups) != HourKey(e, hour, m2, groups)
  {
    KeyShapes(e, "day", day, m2, groups);
    KeyShapes(e, "hour", hour, m2, groups);
    KeyShapes(e, "day", day, m1, groups);
    var r2 := m2 + GroupSuffix(groups);
    if TotalKey(e, m1, groups) == DayKey(e, day, m2, groups) {
      ColonFieldPrefix(e, "total", "day", m1 + GroupSuffix(groups), IntToString(day) + ":" + r2);
    }
    if TotalKey(e, m1, groups) == HourKey(e, hour, m2, groups) {
      ColonFieldPrefix(e, "total", "hour", m1 + GroupSuffix(groups), IntToString(hour) + ":" + r2);
    }
    if DayKey(e, day, m1, groups) == HourKey(e, hour, m2, groups) {
      ColonFieldPrefix(e, "day", "hour", IntToString(day) + ":" + (m1 + GroupSuffix(groups)),
                       IntToString(hour) + ":" + r2);
    }
  }

  /** Different metrics get different keys of the same interval. */
  lemma MetricsDiffer(e: string, m1: string, m2: string, groups: seq<string>, day: int, hour: int)
    requires m1 != m2
    ensures TotalKey(e, m1, groups) != TotalKey(e, m2, groups)
    ensures DayKey(e, day, m1, groups) != DayKey(e, day, m2, groups)
    ensures HourKey(e, hour, m1, groups) != HourKey(e, hour, m2, groups)
  {
    var sfx := GroupSuffix(groups);
    KeyShapes(e, "day", day, m1, groups);
    KeyShapes(e, "day", day, m2, groups);
    KeyShapes(e, "hour", hour, m1, groups);
    KeyShapes(e, "hour", hour, m2, groups);
    FieldRecoverable(e + ":total:", m1, m2, sfx);
    FieldRecoverable(BucketPrefix(e, "day", day), m1, m2, sfx);
    FieldRecoverable(BucketPrefix(e, "hour", hour), m1, m2, sfx);
  }

  /** A field between a fixed head and a fixed tail is recovered from the
      whole. */
  lemma FieldRecoverable(head: string, m1: string, m2: string, tail: string)
    ensures head + m1 + tail == head + (m1 + tail)
    ensures head + m1 + tail == head + m2 + tail ==> m1 == m2
  {
    assert (head + m1 + tail)[|head|..|head| + |m1|] == m1;
    assert (head + m2 + tail)[|head|..|head| + |m2|] == m2;
  }

  /** Two different metrics of one write share no key. */
  lemma MetricKeysDisjoint(e: string, m1: string, m2: string, groups: seq<string>, day: int, hour: int)
    requires m1 != m2
    ensures forall k :: IsMetricKey(k, e, m1, groups, day, hour) ==> !IsMetricKey(k, e, m2, groups, day, hour)
  {
    IntervalsDiffer(e, m1, m2, groups, day, hour);
    IntervalsDiffer(e, m2, m1, groups, day, hour);
    MetricsDiffer(e, m1, m2, groups, day, hour);
  }

  /** The three keys of different metrics, and of one metric, are distinct. */
  lemma MetricKeysSeparate(e: string, groups: seq<string>, day: int, hour: int)
    ensures SeparateKeys(KeysOf(e, groups, day, hour))
  {
    var keysOf := KeysOf(e, groups, day, hour);
    forall m
      ensures |keysOf(m)| == 3 && keysOf(m)[0] != keysOf(m)[1]
              && keysOf(m)[0] != keysOf(m)[2] && keysOf(m)[1] != keysOf(m)[2]
    {
      IntervalsDiffer(e, m, m, groups, day, hour);
    }
    forall m1, m2, k | m1 != m2 && k in keysOf(m1)
      ensures k !in keysOf(m2)
    {
      MetricKeysDisjoint(e, m1, m2, groups, day, hour);
      assert IsMetricKey(k, e, m1, groups, day, hour);
    }
  }

  /** One more `add_many` for a metric not yet visited keeps `AddedVia`. */
  lemma AddStep(base: Store, s: Store, metrics: map<string, int>, names: set<string>, m: string,
                keysOf: string -> seq<string>)
    requires SeparateKeys(keysOf)
    requires AddedVia(base, s, metrics, names, keysOf)
    requires m in metrics && m !in names
    ensures AddedVia(base, AddMany(s, keysOf(m), metrics[m]), metrics, names + {m}, keysOf)
  {
    var v := metrics[m];
    var ks := keysOf(m);
    var a, b, c := ks[0], ks[1], ks[2];
    assert ks == [a, b, c];
    AddManyThree(s, a, b, c, v);
    var r := s[a := Get(s, a) + v][b := Get(s, b) + v][c := Get(s, c) + v];
    var names' := names + {m};
    forall m', i | m' in names' && m' in metrics && 0 <= i < |keysOf(m')|
      ensures AddedTo(base, r, keysOf(m')[i], metrics[m'])
    {
      var k := keysOf(m')[i];
      if m' == m {
        assert Kept(base, s, k) by {
          forall m2 | m2 in names
            ensures k !in keysOf(m2)
          {
            assert k in keysOf(m);
          }
        }
      } else {
        assert m' in names;
        assert k in keysOf(m');
        assert k !in ks;
      }
    }
    forall k | Unwritten(k, names', keysOf)
      ensures Kept(base, r, k)
    {
      assert m in names';
      assert k !in ks;
      assert Unwritten(k, names, keysOf) by {
        forall m2 | m2 in names
          ensures k !in keysOf(m2)
        {
          assert m2 in names';
        }
      }
    }
  }

  /** `add_many` on three distinct keys is three independent updates. */
  lemma AddManyThree(s: Store, a: string, b: string, c: string, v: int)
    requires a != b && a != c && b != c
    ensures AddMany(s, [a, b, c], v) == s[a := Get(s, a) + v][b := Get(s, b) + v][c := Get(s, c) + v]
  {
    var s1 := s[a := Get(s, a) + v];
    var s2 := s1[b := Get(s1, b) + v];
    var s3 := s2[c := Get(s2, c) + v];
    assert [a, b, c][1..] == [b, c] && [b, c][1..] == [c] && [c][1..] == [];
    assert AddMany(s, [a, b, c], v) == AddMany(s1, [b, c], v);
    assert AddMany(s1, [b, c], v) == AddMany(s2, [c], v);
    assert AddMany(s2, [c], v) == AddMany(s3, [], v) == s3;
    assert Get(s1, b) == Get(s, b) && Get(s2, c) == Get(s, c);
  }

  /** Once every metric has been visited, the sums cover the whole map. */
  lemma AddedViaAll(base: Store, after: Store, metrics: map<string, int>, names: set<string>,
                    keysOf: string -> seq<string>)
    requires AddedVia(base, after, metrics, names, keysOf)
    requires names <= metrics.Keys && metrics.Keys - names == {}
    ensures AddedVia(base, after, metrics, metrics.Keys, keysOf)
  {
    forall m | m in metrics
      ensures m in names
    {
      assert m !in metrics.Keys - names;
    }
    assert names == metrics.Keys;
  }

  /** The post-state of adding is fully determined by the base and the metrics. */
  lemma AddedViaUnique(base: Store, after1: Store, after2: Store, metrics: map<string, int>,
                       keysOf: string -> seq<string>)
    requires AddedVia(base, after1, metrics, metrics.Keys, keysOf)
    requires AddedVia(base, after2, metrics, metrics.Keys, keysOf)
    ensures after1 == after2
  {
    forall k
      ensures (k in after1 <==> k in after2) && (k in after1 ==> after1[k] == after2[k])
    {
      if !Unwritten(k, metrics.Keys, keysOf) {
        var m :| m in metrics && k in keysOf(m);
        var i :| 0 <= i < |keysOf(m)| && keysOf(m)[i] == k;
        assert AddedTo(base, after1, k, metrics[m]) && AddedTo(base, after2, k, metrics[m]);
      } else {
        assert Kept(base, after1, k) && Kept(base, after2, k);
      }
    }
  }

  /** The post-state of `add_metrics` is fully determined: whatever order the
      metrics map is iterated in, the store ends up the same. */
  lemma ThreeWayAddedUnique(before: Store, after1: Store, after2: Store, entity: string,
                            metrics: map<string, int>, groups: seq<string>, now: int)
    requires ThreeWayAdded(before, after1, entity, metrics, groups, now)
    requires ThreeWayAdded(before, after2, entity, metrics, groups, now)
    ensures after1 == after2
  {
    AddedViaUnique(Evict(before, [entity], now), after1, after2, metrics,
                   KeysOf(entity, groups, BucketStart(now, DayWidth), BucketStart(now, HourWidth)));
  }

  /** The keys of the current buckets survive the eviction that precedes a
      write at the same clock. */
  lemma CurrentKeysSurvive(entity: string, metric: string, groups: seq<string>, now: int)
    ensures forall k :: (IsMetricKey(k, entity, metric, groups, BucketStart(now, DayWidth), BucketStart(now, HourWidth))
      ==> !Stale(k, entity, now))
  {
    var day, hour := BucketStart(now, DayWidth), BucketStart(now, HourWidth);
    TotalKeyNotUnder(entity, metric, groups, "day", PrevBucketStart(now, DayWidth));
    TotalKeyNotUnder(entity, metric, groups, "hour", PrevBucketStart(now, HourWidth));
    BucketKeyNotUnder(entity, "day", day, metric, groups, "day", PrevBucketStart(now, DayWidth));
    BucketKeyNotUnder(entity, "day", day, metric, groups, "hour", PrevBucketStart(now, HourWidth));
    BucketKeyNotUnder(entity, "hour", hour, metric, groups, "day", PrevBucketStart(now, DayWidth));
    BucketKeyNotUnder(entity, "hour", hour, metric, groups, "hour", PrevBucketStart(now, HourWidth));
  }

  /** Additivity: two writes of one metric for one entity and grouping within
      the same day and hour bucket leave each of its three keys at the sum of
      the two values (on top of what survived the first eviction). */
  lemma Additivity(s0: Store, s1: Store, s2: Store, entity: string, metric: string, v1: int, v2: int,
                   groups: seq<string>, t1: int, t2: int)
    requires ThreeWayAdded(s0, s1, entity, map[metric := v1], groups, t1)
    requires ThreeWayAdded(s1, s2, entity, map[metric := v2], groups, t2)
    requires BucketStart(t1, DayWidth) == BucketStart(t2, DayWidth)
    requires BucketStart(t1, HourWidth) == BucketStart(t2, HourWidth)
    ensures var ks := MetricKeys(entity, metric, groups, BucketStart(t1, DayWidth), BucketStart(t1, HourWidth));
      forall i :: 0 <= i < 3 ==> ks[i] in s2 && s2[ks[i]] == Get(Evict(s0, [entity], t1), ks[i]) + v1 + v2
  {
    var day, hour := BucketStart(t1, DayWidth), BucketStart(t1, HourWidth);
    var base0, base1 := Evict(s0, [entity], t1), Evict(s1, [entity], t2);
    var keysOf := KeysOf(entity, groups, day, hour);
    var ks := MetricKeys(entity, metric, groups, day, hour);
    assert keysOf(metric) == ks;
    AddedViaSingle(base0, s1, metric, v1, keysOf);
    AddedViaSingle(base1, s2, metric, v2, keysOf);
    CurrentKeysSurvive(entity, metric, groups, t2);
    EvictExact(s1, [entity], t2);
    forall i | 0 <= i < 3
      ensures ks[i] in s2 && s2[ks[i]] == Get(base0, ks[i]) + v1 + v2
    {
      assert IsMetricKey(ks[i], entity, metric, groups, day, hour);
      assert !Stale(ks[i], entity, t2);
    }
  }

  /** With a single metric, each of its keys gains its value. */
  lemma AddedViaSingle(base: Store, after: Store, m: string, v: int, keysOf: string -> seq<string>)
    requires AddedVia(base, after, map[m := v], map[m := v].Keys, keysOf)
    ensures forall i :: 0 <= i < |keysOf(m)| ==> AddedTo(base, after, keysOf(m)[i], v)
  {
    assert m in map[m := v] && m in map[m := v].Keys;
  }

  /** One-bucket lag: the first write in the next bucket evicts every key of
      the bucket before it. */
  lemma NextBucketEvicts(s: Store, entity: string, interval: string, metric: string, groups: seq<string>,
                         t0: int, t1: int)
    requires interval == "day" || interval == "hour"
    requires BucketStart(t1, IntervalWidth(interval)) == BucketStart(t0, IntervalWidth(interval)) + IntervalWidth(interval)
    ensures BucketKey(entity, interval, BucketStart(t0, IntervalWidth(interval)), metric, groups) !in Evict(s, [entity], t1)
  {
    var b := BucketStart(t0, IntervalWidth(interval));
    KeyShapes(entity, interval, b, metric, groups);
    assert Stale(BucketKey(entity, interval, b, metric, groups), entity, t1);
    EvictExact(s, [entity], t1);
  }

  /** Only the immediately previous bucket is evicted: after an idle gap of a
      whole bucket, a key of the old bucket survives the next write's
      eviction. */
  lemma IdleGapKeepsOldBucket(s: Store, entity: string, interval: string, metric: string, groups: seq<string>,
                              t0: int, t1: int)
    requires interval == "day" || interval == "hour"
    requires BucketStart(t1, IntervalWidth(interval)) >= BucketStart(t0, IntervalWidth(interval)) + 2 * IntervalWidth(interval)
    requires BucketKey(entity, interval, BucketStart(t0, IntervalWidth(interval)), metric, groups) in s
    ensures BucketKey(entity, interval, BucketStart(t0, IntervalWidth(interval)), metric, groups) in Evict(s, [entity], t1)
  {
    var b := BucketStart(t0, IntervalWidth(interval));
    BucketKeyNotUnder(entity, interval, b, metric, groups, "day", PrevBucketStart(t1, DayWidth));
    BucketKeyNotUnder(entity, interval, b, metric, groups, "hour", PrevBucketStart(t1, HourWidth));
    EvictExact(s, [entity], t1);
  }

  /** `TimeSeriesStore`: the clock's timestamp (seconds) and the store. */
  class TimeSeriesStore {
    const clock: int
    var store: Store

    constructor (clock: int, store: Store)
      ensures this.clock == clock && this.store == store
    {
      this.clock := clock;
      this.store := store;
    }

    /** `update`: deletes each listed entity's previous day and hour bucket. */
    method Update(entities: seq<string>)
      modifies this
      ensures store == Evict(old(store), entities, clock)
      ensures forall k :: k in store <==> k in old(store) && Fresh(k, entities, clock)
      ensures forall k :: k in store ==> store[k] == old(store)[k]
    {
      var currentTimestamp := clock;
      var dayTimestamp := BucketStart(currentTimestamp, DayWidth);
      var hourTimestamp := BucketStart(currentTimestamp, HourWidth);
      var prevDayTimestamp := dayTimestamp - DayWidth;
      var prevHourTimestamp := hourTimestamp - HourWidth;
      for i := 0 to |entities|
        invariant store == Evict(old(store), entities[..i], clock)
      {
        var dayPrefix := BucketPrefix(entities[i], "day", prevDayTimestamp);
        var hourPrefix := BucketPrefix(entities[i], "hour", prevHourTimestamp);
        EvictSnoc(old(store), entities, i, clock);
        assert dayPrefix == DayEvictionPrefix(entities[i], clock);
        assert hourPrefix == HourEvictionPrefix(entities[i], clock);
        store := DeletePrefix(store, dayPrefix);
        store := DeletePrefix(store, hourPrefix);
      }
      assert entities[..|entities|] == entities;
      EvictExact(old(store), entities, clock);
    }

    /** `add_metrics`: evicts the entity's previous buckets, then adds every
        metric's value to its total, day and hour keys. */
    method AddMetrics(entity: string, metrics: map<string, int>, groups: seq<string>)
      modifies this
      ensures ThreeWayAdded(old(store), store, entity, metrics, groups, clock)
    {
      Update([entity]);
      ghost var evicted := store;

      var currentTimestamp := clock;
      var dayTimestamp := BucketStart(currentTimestamp, DayWidth);
      var hourTimestamp := BucketStart(currentTimestamp, HourWidth);
      var prevDayTimestamp := dayTimestamp - DayWidth;
      var prevHourTimestamp := hourTimestamp - HourWidth;

      var dayPrefix := BucketPrefix(entity, "day", prevDayTimestamp);
      var hourPrefix := BucketPrefix(entity, "hour", prevHourTimestamp);
      store := DeletePrefix(store, dayPrefix);
      store := DeletePrefix(store, hourPrefix);
      EvictTwice(old(store), evicted, store, entity, clock, dayPrefix, hourPrefix);
      AddAll(entity, metrics, groups, dayTimestamp, hourTimestamp);
    }

    /** The accumulation loop of `add_metrics`: adds every metric's value to
        its total, day and hour keys, visiting the metrics in an arbitrary
        order as a hash map does. */
    method AddAll(entity: string, metrics: map<string, int>, groups: seq<string>,
                  dayTimestamp: int, hourTimestamp: int)
      modifies this
      ensures AddedVia(old(store), store, metrics, metrics.Keys, KeysOf(entity, groups, dayTimestamp, hourTimestamp))
    {
      var remaining := metrics.Keys;
      ghost var visited: set<string> := {};
      var keysOf := KeysOf(entity, groups, dayTimestamp, hourTimestamp);
      MetricKeysSeparate(entity, groups, dayTimestamp, hourTimestamp);
      while remaining != {}
        invariant visited <= metrics.Keys && remaining == metrics.Keys - visited
        invariant AddedVia(old(store), store, metrics, visited, keysOf)
        decreases |remaining|
      {
        var metric :| metric in remaining;
        var value := metrics[metric];
        var keys := keysOf(metric);
        AddStep(old(store), store, metrics, visited, metric, keysOf);
        store := AddMany(store, keys, value);
        visited := visited + {metric};
        remaining := remaining - {metric};
      }
      AddedViaAll(old(store), store, metrics, visited, keysOf);
    }
  }
}
