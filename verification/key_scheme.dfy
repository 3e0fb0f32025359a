/** The colon-delimited composite key shared by the write path and the read
    path, the time-bucket arithmetic behind it, and the decoding of a key
    back into the fields of an output row (src/lib.rs). */
module KeyScheme {
  import opened Strings

  datatype Option<T> = None | Some(value: T)

  /** Bucket widths in seconds. */
  const DayWidth: int := 86400
  const HourWidth: int := 3600

  /** Rust's `/` on `i64`: the quotient truncated toward zero. */
  function TruncDiv(a: int, b: int): int
    requires b > 0
  {
    if a >= 0 then a / b else -((-a) / b)
  }

  /** `(t / width) * width`: the start of the bucket holding `t`. */
  function BucketStart(t: int, width: int): int
    requires width > 0
  {
    TruncDiv(t, width) * width
  }

  /** `bucket_start - width`: the start of the bucket before it. */
  function PrevBucketStart(t: int, width: int): int
    requires width > 0
  {
    BucketStart(t, width) - width
  }

  /** For a timestamp at or after the epoch, the bucket start is a multiple of
      the width and the bucket [start, start + width) holds the timestamp. */
  lemma BucketBounds(t: int, width: int)
    requires t >= 0 && (width == DayWidth || width == HourWidth)
    ensures BucketStart(t, width) % width == 0
    ensures 0 <= BucketStart(t, width) <= t < BucketStart(t, width) + width
    ensures PrevBucketStart(t, width) == BucketStart(t, width) - width
  {
    if width == DayWidth {
      assert BucketStart(t, DayWidth) == (t / 86400) * 86400;
    } else {
      assert BucketStart(t, HourWidth) == (t / 3600) * 3600;
    }
  }

  /** Before the epoch the truncating division rounds up, so the "bucket"
      (start - width, start] holds the timestamp instead. */
  lemma BucketBoundsBeforeEpoch(t: int, width: int)
    requires t < 0 && (width == DayWidth || width == HourWidth)
    ensures BucketStart(t, width) % width == 0
    ensures BucketStart(t, width) - width < t <= BucketStart(t, width) <= 0
  {
    if width == DayWidth {
      assert BucketStart(t, DayWidth) == -(((-t) / 86400) * 86400);
    } else {
      assert BucketStart(t, HourWidth) == -(((-t) / 3600) * 3600);
    }
  }

  /** `""` without groups, otherwise `":" + groups.join(":")`. */
  function GroupSuffix(groups: seq<string>): string
  {
    if |groups| == 0 then "" else ":" + Join(groups, ":")
  }

  /** `<entity>:total:<metric>[:<group>...]`. */
  function TotalKey(entity: string, metric: string, groups: seq<string>): string
  {
    entity + ":total:" + metric + GroupSuffix(groups)
  }

  /** `<entity>:<interval>:<bucket>:<metric>[:<group>...]` for the day and
      hour intervals. */
  function BucketKey(entity: string, interval: string, bucket: int, metric: string, groups: seq<string>): string
  {
    entity + ":" + interval + ":" + IntToString(bucket) + ":" + metric + GroupSuffix(groups)
  }

  function DayKey(entity: string, day: int, metric: string, groups: seq<string>): string
  {
    BucketKey(entity, "day", day, metric, groups)
  }

  function HourKey(entity: string, hour: int, metric: string, groups: seq<string>): string
  {
    BucketKey(entity, "hour", hour, metric, groups)
  }

  /** `<entity>:<interval>:<bucket>:`: every key of one bucket of one entity. */
  function BucketPrefix(entity: string, interval: string, bucket: int): string
  {
    entity + ":" + interval + ":" + IntToString(bucket) + ":"
  }

  /** The key the write path builds for interval `interval`. */
  function WrittenKey(entity: string, interval: string, bucket: int, metric: string, groups: seq<string>): string
  {
    if interval == "total" then TotalKey(entity, metric, groups)
    else BucketKey(entity, interval, bucket, metric, groups)
  }

  /** The timestamp text the read path recovers from such a key. */
  function TimestampText(interval: string, bucket: int): string
  {
    if interval == "total" then "0" else IntToString(bucket)
  }

  predicate ColonFree(parts: seq<string>)
  {
    forall i :: 0 <= i < |parts| ==> ':' !in parts[i]
  }

  /** A written key is its segments joined by ':'. */
  lemma WrittenKeySegments(entity: string, interval: string, bucket: int, metric: string, groups: seq<string>)
    ensures interval == "total" ==>
      WrittenKey(entity, interval, bucket, metric, groups) == Join([entity, "total", metric] + groups, ":")
    ensures interval != "total" ==>
      WrittenKey(entity, interval, bucket, metric, groups)
        == Join([entity, interval, IntToString(bucket), metric] + groups, ":")
  {
    var head := if interval == "total" then [entity, "total", metric]
                else [entity, interval, IntToString(bucket), metric];
    if interval == "total" {
      assert head[1..][1..] == [metric];
      assert Join(head[1..], ":") == "total" + ":" + metric;
      assert Join(head, ":") == entity + ":total:" + metric;
    } else {
      assert head[1..][1..][1..] == [metric];
      assert Join(head[1..][1..], ":") == IntToString(bucket) + ":" + metric;
      assert Join(head[1..], ":") == interval + ":" + (IntToString(bucket) + ":" + metric);
      assert Join(head, ":") == entity + ":" + interval + ":" + IntToString(bucket) + ":" + metric;
    }
    if |groups| == 0 {
      assert head + groups == head;
    } else {
      JoinAppend(head, groups, ":");
    }
  }

  /** What the read path recovers from a key. */
  datatype Decoded = Decoded(entity: string, interval: string, timestamp: string, metric: string, groupings: string)

  /** Splits a key on ':' and rebuilds (entity, interval, timestamp, metric,
      groupings); `None` is a key the read path skips: fewer than 3 segments,
      a day or hour key with fewer than 4, or any other interval tag. Groups
      are re-joined with '-'. */
  function Decode(key: string): (r: Option<Decoded>)
    ensures r.Some? ==> r.value.interval == "total" || r.value.interval == "day" || r.value.interval == "hour"
    ensures r.Some? && r.value.interval == "total" ==> r.value.timestamp == "0"
    ensures r.Some? ==> ':' !in r.value.entity && ':' !in r.value.metric
    ensures r.Some? ==> ':' !in r.value.timestamp && ':' !in r.value.groupings
  {
    var segments := Split(key, ':');
    if |segments| < 3 then None
    else if segments[1] == "total" then
      JoinColonFree(segments[3..], "-");
      Some(Decoded(segments[0], segments[1], "0", segments[2], Join(segments[3..], "-")))
    else if segments[1] == "day" || segments[1] == "hour" then
      if |segments| < 4 then None
      else
        JoinColonFree(segments[4..], "-");
        Some(Decoded(segments[0], segments[1], segments[2], segments[3], Join(segments[4..], "-")))
    else None
  }

  /** Joining colon-free pieces with a colon-free separator is colon-free. */
  lemma {:induction false} JoinColonFree(parts: seq<string>, sep: string)
    requires ColonFree(parts) && ':' !in sep
    ensures ':' !in Join(parts, sep)
  {
    if |parts| > 1 {
      JoinColonFree(parts[1..], sep);
    }
  }

  /** The keys the read path skips, and no others. */
  lemma DecodeSkips(key: string)
    ensures var segments := Split(key, ':');
      Decode(key).None? <==>
        (|segments| < 3
         || (segments[1] != "total" && segments[1] != "day" && segments[1] != "hour")
         || ((segments[1] == "day" || segments[1] == "hour") && |segments| < 4))
  {
  }

  /** Key round trip: a key built by the write path decodes to its entity,
      interval, timestamp ("0" for total, the bucket start otherwise), metric
      and the groups joined with '-', provided no field holds a ':'. */
  lemma DecodeWrittenKey(entity: string, interval: string, bucket: int, metric: string, groups: seq<string>)
    requires interval == "total" || interval == "day" || interval == "hour"
    requires ':' !in entity && ':' !in metric && ColonFree(groups)
    ensures Decode(WrittenKey(entity, interval, bucket, metric, groups))
         == Some(Decoded(entity, interval, TimestampText(interval, bucket), metric, Join(groups, "-")))
  {
    WrittenKeySegments(entity, interval, bucket, metric, groups);
    var segments := if interval == "total" then [entity, "total", metric] + groups
                    else [entity, interval, IntToString(bucket), metric] + groups;
    SplitJoin(segments, ':');
    if interval == "total" {
      assert segments[3..] == groups;
    } else {
      assert segments[4..] == groups;
    }
  }

  /** The groups come back from their '-'-joined form when each is non-empty
      and free of '-'. */
  lemma GroupingsRoundTrip(groups: seq<string>)
    requires |groups| >= 1
    requires forall i :: 0 <= i < |groups| ==> groups[i] != "" && '-' !in groups[i]
    ensures Join(groups, "-") != ""
    ensures Split(Join(groups, "-"), '-') == groups
  {
    JoinNonEmpty(groups, "-");
    SplitJoin(groups, '-');
  }

  /** A group containing '-' never comes back: whatever the other groups,
      splitting their join on '-' does not give the groups again. */
  lemma DashedGroupsDoNotRoundTrip(groups: seq<string>, i: nat)
    requires i < |groups| && '-' in groups[i]
    ensures Split(Join(groups, "-"), '-') != groups
  {
    var parts := Split(Join(groups, "-"), '-');
    if |parts| == |groups| {
      assert '-' !in parts[i];
    }
  }

  /** The output row id: `<ts>-<interval>`, followed by `-<groupings>` when
      there are groupings. */
  function RowId(timestamp: string, interval: string, groupings: string): string
  {
    if groupings == "" then timestamp + "-" + interval
    else timestamp + "-" + interval + "-" + groupings
  }

  /** With the timestamp and interval fixed, the row id determines the
      groups as long as each group is non-empty and free of '-'. */
  lemma RowIdDeterminesGroups(timestamp: string, interval: string, g1: seq<string>, g2: seq<string>)
    requires forall i :: 0 <= i < |g1| ==> g1[i] != "" && '-' !in g1[i]
    requires forall i :: 0 <= i < |g2| ==> g2[i] != "" && '-' !in g2[i]
    requires RowId(timestamp, interval, Join(g1, "-")) == RowId(timestamp, interval, Join(g2, "-"))
    ensures g1 == g2
  {
    var head := timestamp + "-" + interval;
    var j1, j2 := Join(g1, "-"), Join(g2, "-");
    if |g1| > 0 {
      GroupingsRoundTrip(g1);
    }
    if |g2| > 0 {
      GroupingsRoundTrip(g2);
    }
    if |g1| > 0 && |g2| > 0 {
      var r1, r2 := head + "-" + j1, head + "-" + j2;
      assert r1[|head| + 1..] == j1;
      assert r2[|head| + 1..] == j2;
    }
  }

  /** Distinct groups that join to the same text share a row: the total keys
      of groups [a-b] and [a, b] differ in the store, yet decode alike and so
      are upserted into one row. */
  lemma DashedGroupsShareRow(e: string, m: string, a: string, b: string)
    requires ':' !in e && ':' !in m && ':' !in a && ':' !in b
    ensures TotalKey(e, m, [a + "-" + b]) != TotalKey(e, m, [a, b])
    ensures Decode(TotalKey(e, m, [a + "-" + b])) == Decode(TotalKey(e, m, [a, b]))
  {
    var g1, g2 := [a + "-" + b], [a, b];
    assert ColonFree(g1) && ColonFree(g2);
    var s1, s2 := [e, "total", m] + g1, [e, "total", m] + g2;
    WrittenKeySegments(e, "total", 0, m, g1);
    WrittenKeySegments(e, "total", 0, m, g2);
    SplitJoin(s1, ':');
    SplitJoin(s2, ':');
    assert |s1| != |s2|;
    DecodeWrittenKey(e, "total", 0, m, g1);
    DecodeWrittenKey(e, "total", 0, m, g2);
    assert g2[1..] == [b];
  }

  /** The attribute name of the i-th grouping (0-based): the caller's field
      name when there is one, otherwise `group<i+1>`. */
  function GroupFieldName(i: nat, groupFields: seq<string>): string
  {
    if i < |groupFields| then groupFields[i] else "group" + NatToString(i + 1)
  }

  /** Fallback names are `group<k>` with k counted over the whole grouping
      sequence from 1, and two positions past the supplied names never share
      a name. */
  lemma SyntheticGroupNames(i: nat, j: nat, groupFields: seq<string>)
    requires |groupFields| <= i && |groupFields| <= j && i != j
    ensures GroupFieldName(i, groupFields) == "group" + NatToString(i + 1)
    ensures GroupFieldName(i, groupFields) != GroupFieldName(j, groupFields)
  {
    if GroupFieldName(i, groupFields) == GroupFieldName(j, groupFields) {
      var a, b := GroupFieldName(i, groupFields), GroupFieldName(j, groupFields);
      assert a[5..] == NatToString(i + 1) && b[5..] == NatToString(j + 1);
      NatToStringInjective(i + 1, j + 1);
    }
  }

  /** `name` has the shape of a fallback name: `group` followed by a
      decimal number without leading zeros, at least 1. */
  predicate IsFallbackName(name: string)
  {
    && |name| > 5 && name[..5] == "group" && name[5] != '0'
    && forall k :: 5 <= k < |name| ==> '0' <= name[k] <= '9'
  }

  /** When the supplied field names are distinct and none is a fallback
      name, every grouping position gets a name of its own. */
  lemma FieldNamesDistinct(groupFields: seq<string>, i: nat, j: nat)
    requires forall a, b :: 0 <= a < b < |groupFields| ==> groupFields[a] != groupFields[b]
    requires forall a :: 0 <= a < |groupFields| ==> !IsFallbackName(groupFields[a])
    requires i < j
    ensures GroupFieldName(i, groupFields) != GroupFieldName(j, groupFields)
  {
    if i < |groupFields| && |groupFields| <= j {
      var fallback := "group" + NatToString(j + 1);
      assert GroupFieldName(j, groupFields) == fallback;
      assert fallback[..5] == "group" && fallback[5..] == NatToString(j + 1);
      assert IsFallbackName(fallback);
    } else if |groupFields| <= i {
      SyntheticGroupNames(i, j, groupFields);
    }
  }
}
