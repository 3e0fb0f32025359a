/** The read path: `DeltaProcessor` of src/lib.rs. Each delta of the
    accumulator store is decoded back into (entity, interval, timestamp,
    metric, groupings) and upserted as one row of an output table, with the
    metric and every grouping set as attributes, through optional
    per-name transforms. */
module Deltas {
  import opened Strings
  import opened KeyScheme

  /** What a registered transform returns: one of the four kinds the
      dispatch recognises. */
  datatype Output = OutBigInt(n: int) | OutStr(s: string) | OutBool(b: bool) | OutDecimal(repr: string)

  /** An attribute value of an output row. `BigIntText` is what `set_bigint`
      stores: a big integer given by its decimal text, taken as is. */
  datatype Value = BigInt(n: int) | BigIntText(digits: string) | Str(s: string) | Bool(b: bool) | Decimal(repr: string)

  type Row = map<string, Value>

  /** The output tables: rows keyed by (table name, row id). */
  type Tables = map<(string, string), Row>

  /** One delta of the accumulator store: the key and its new value. */
  datatype Delta = Delta(key: string, newValue: int)

  type MetricTransforms = map<string, int -> Output>
  type GroupTransforms = map<string, string -> Output>

  /** `update_row`: the row stored under `k`, or a fresh empty row. */
  function RowAt(t: Tables, k: (string, string)): Row
  {
    if k in t then t[k] else map[]
  }

  /** The value the metric attribute receives: the transform's result of
      whichever kind it is, or the raw value when no transform is
      registered. */
  function MetricValue(metric: string, raw: int, mm: MetricTransforms): Value
  {
    if metric in mm then
      match mm[metric](raw)
      case OutBigInt(n) => BigInt(n)
      case OutStr(s) => Str(s)
      case OutBool(b) => Bool(b)
      case OutDecimal(d) => Decimal(d)
    else BigInt(raw)
  }

  /** The value a grouping attribute receives, if any: a string, integer or
      boolean transform result, nothing for a decimal one, and the raw
      segment when no transform is registered. */
  function GroupValue(field: string, segment: string, gm: GroupTransforms): Option<Value>
  {
    if field in gm then
      match gm[field](segment)
      case OutStr(s) => Some(Str(s))
      case OutBigInt(n) => Some(BigInt(n))
      case OutBool(b) => Some(Bool(b))
      case OutDecimal(_) => None
    else Some(Str(segment))
  }

  /** Sets one grouping attribute; no other attribute changes. */
  function SetGroupAttr(row: Row, field: string, segment: string, gm: GroupTransforms): (r: Row)
    ensures forall f :: f != field ==> (f in r <==> f in row) && (f in row ==> r[f] == row[f])
  {
    match GroupValue(field, segment, gm)
    case None => row
    case Some(v) => row[field := v]
  }

  /** Sets the attributes of the groupings `segments`, the i-th under
      `GroupFieldName(i, groupFields)`, in order. */
  function SetGroups(row: Row, segments: seq<string>, groupFields: seq<string>, gm: GroupTransforms): Row
  {
    if |segments| == 0 then row
    else
      var n := |segments| - 1;
      SetGroupAttr(SetGroups(row, segments[..n], groupFields, gm), GroupFieldName(n, groupFields), segments[n], gm)
  }

  /** One more grouping position is one more attribute write. */
  lemma SetGroupsSnoc(row: Row, segments: seq<string>, i: nat, groupFields: seq<string>, gm: GroupTransforms)
    requires i < |segments|
    ensures SetGroups(row, segments[..i + 1], groupFields, gm)
         == SetGroupAttr(SetGroups(row, segments[..i], groupFields, gm), GroupFieldName(i, groupFields), segments[i], gm)
  {
    assert segments[..i + 1][..i] == segments[..i];
  }

  /** The grouping values a groupings string splits into: none for "". */
  function GroupSegments(groupings: string): seq<string>
  {
    if groupings == "" then [] else Split(groupings, '-')
  }

  /** The row a decoded key goes to: table `entity`, id from the timestamp,
      interval and groupings. */
  function RowKey(d: Decoded): (string, string)
  {
    (d.entity, RowId(d.timestamp, d.interval, d.groupings))
  }

  /** The row after one delta: `interval`, `timestamp`, the metric, then
      the groupings, each write replacing an earlier value of the same
      attribute. */
  function Materialize(row: Row, d: Decoded, raw: int, mm: MetricTransforms, gm: GroupTransforms,
                       groupFields: seq<string>): Row
  {
    var withTags := row["interval" := Str(d.interval)]["timestamp" := BigIntText(d.timestamp)];
    var withMetric := withTags[d.metric := MetricValue(d.metric, raw, mm)];
    SetGroups(withMetric, GroupSegments(d.groupings), groupFields, gm)
  }

  /** The tables after one delta: unchanged for a key the read path skips,
      otherwise the decoded row upserted and no other row touched. */
  function ApplyDelta(t: Tables, delta: Delta, mm: MetricTransforms, gm: GroupTransforms,
                      groupFields: seq<string>): Tables
  {
    match Decode(delta.key)
    case None => t
    case Some(d) =>
      var k := RowKey(d);
      t[k := Materialize(RowAt(t, k), d, delta.newValue, mm, gm, groupFields)]
  }

  /** One delta touches one row at most: a skipped key leaves the tables as
      they were, otherwise the decoded row exists afterwards and every other
      row is unchanged. */
  lemma ApplyDeltaFrame(t: Tables, delta: Delta, mm: MetricTransforms, gm: GroupTransforms,
                        groupFields: seq<string>)
    ensures var r := ApplyDelta(t, delta, mm, gm, groupFields);
      && (Decode(delta.key).None? ==> r == t)
      && (Decode(delta.key).Some? ==> RowKey(Decode(delta.key).value) in r)
      && (Decode(delta.key).Some? ==> forall k :: k != RowKey(Decode(delta.key).value) ==>
            (k in r <==> k in t) && (k in t ==> r[k] == t[k]))
  {
  }

  /** `ApplyDelta` for a key that decodes to `d`. */
  lemma ApplyDecoded(t: Tables, delta: Delta, d: Decoded, mm: MetricTransforms, gm: GroupTransforms,
                     groupFields: seq<string>)
    requires Decode(delta.key) == Some(d)
    ensures ApplyDelta(t, delta, mm, gm, groupFields)
         == t[RowKey(d) := SetGroups(RowAt(t, RowKey(d))["interval" := Str(d.interval)]
              ["timestamp" := BigIntText(d.timestamp)][d.metric := MetricValue(d.metric, delta.newValue, mm)],
              GroupSegments(d.groupings), groupFields, gm)]
  {
  }

  /** The tables after the deltas in stream order. */
  function ApplyDeltas(t: Tables, deltas: seq<Delta>, mm: MetricTransforms, gm: GroupTransforms,
                       groupFields: seq<string>): Tables
  {
    if |deltas| == 0 then t
    else
      var n := |deltas| - 1;
      ApplyDelta(ApplyDeltas(t, deltas[..n], mm, gm, groupFields), deltas[n], mm, gm, groupFields)
  }

  // ---------------------------------------------------------------------
  // Skipping malformed keys

  /** Processing the deltas of `a` then those of `b` is processing `a + b`. */
  lemma {:induction false} ApplyDeltasAppend(t: Tables, a: seq<Delta>, b: seq<Delta>, mm: MetricTransforms,
                                             gm: GroupTransforms, groupFields: seq<string>)
    ensures ApplyDeltas(t, a + b, mm, gm, groupFields)
         == ApplyDeltas(ApplyDeltas(t, a, mm, gm, groupFields), b, mm, gm, groupFields)
    decreases |b|
  {
    if |b| == 0 {
      assert a + b == a;
    } else {
      var n := |b| - 1;
      ApplyDeltasAppend(t, a, b[..n], mm, gm, groupFields);
      ApplyDeltasLast(t, a + b[..n], b[n], mm, gm, groupFields);
      SnocSplit(a, b);
    }
  }

  /** The last element split off a concatenation. */
  lemma SnocSplit(a: seq<Delta>, b: seq<Delta>)
    requires |b| > 0
    ensures a + b == a + b[..|b| - 1] + [b[|b| - 1]]
  {
    assert b == b[..|b| - 1] + [b[|b| - 1]];
  }

  /** Processing one more delta at the end is applying it last. */
  lemma ApplyDeltasLast(t: Tables, deltas: seq<Delta>, delta: Delta, mm: MetricTransforms,
                        gm: GroupTransforms, groupFields: seq<string>)
    ensures ApplyDeltas(t, deltas + [delta], mm, gm, groupFields)
         == ApplyDelta(ApplyDeltas(t, deltas, mm, gm, groupFields), delta, mm, gm, groupFields)
  {
    assert (deltas + [delta])[..|deltas|] == deltas;
  }

  /** A delta whose key the read path skips leaves no trace, and the deltas
      after it are processed as if it were absent. */
  lemma MalformedSkipped(t: Tables, before: seq<Delta>, bad: Delta, after: seq<Delta>,
                         mm: MetricTransforms, gm: GroupTransforms, groupFields: seq<string>)
    requires Decode(bad.key).None?
    ensures ApplyDeltas(t, before + [bad] + after, mm, gm, groupFields)
         == ApplyDeltas(t, before + after, mm, gm, groupFields)
  {
    var mid := ApplyDeltas(t, before, mm, gm, groupFields);
    ApplyDeltasAppend(t, before + [bad], after, mm, gm, groupFields);
    ApplyDeltasAppend(t, before, [bad], mm, gm, groupFields);
    ApplyDeltasAppend(t, before, after, mm, gm, groupFields);
    assert [bad][..0] == [];
    assert ApplyDeltas(mid, [bad], mm, gm, groupFields) == mid;
  }

  // ---------------------------------------------------------------------
  // Attribute resolution

  /** Without a transform a grouping attribute gets the raw segment; a
      decimal transform result sets nothing; any other result is set. */
  lemma GroupAttributeResolution(row: Row, field: string, segment: string, gm: GroupTransforms)
    ensures field !in gm ==> SetGroupAttr(row, field, segment, gm) == row[field := Str(segment)]
    ensures field in gm && gm[field](segment).OutDecimal? ==> SetGroupAttr(row, field, segment, gm) == row
    ensures field in gm && gm[field](segment).OutStr? ==>
      SetGroupAttr(row, field, segment, gm) == row[field := Str(gm[field](segment).s)]
    ensures field in gm && gm[field](segment).OutBigInt? ==>
      SetGroupAttr(row, field, segment, gm) == row[field := BigInt(gm[field](segment).n)]
    ensures field in gm && gm[field](segment).OutBool? ==>
      SetGroupAttr(row, field, segment, gm) == row[field := Bool(gm[field](segment).b)]
  {
  }

  /** Without a transform the metric attribute gets the raw value; with one,
      it gets the result converted kind for kind. */
  lemma MetricAttributeResolution(metric: string, raw: int, mm: MetricTransforms)
    ensures metric !in mm ==> MetricValue(metric, raw, mm) == BigInt(raw)
    ensures metric in mm && mm[metric](raw).OutDecimal? ==>
      MetricValue(metric, raw, mm) == Decimal(mm[metric](raw).repr)
    ensures metric in mm && mm[metric](raw).OutStr? ==> MetricValue(metric, raw, mm) == Str(mm[metric](raw).s)
    ensures metric in mm && mm[metric](raw).OutBigInt? ==> MetricValue(metric, raw, mm) == BigInt(mm[metric](raw).n)
    ensures metric in mm && mm[metric](raw).OutBool? ==> MetricValue(metric, raw, mm) == Bool(mm[metric](raw).b)
  {
  }

  /** An attribute named by no grouping position keeps its value. */
  lemma {:induction false} SetGroupsKeeps(row: Row, segments: seq<string>, groupFields: seq<string>,
                                          gm: GroupTransforms, f: string)
    requires forall i :: 0 <= i < |segments| ==> GroupFieldName(i, groupFields) != f
    ensures var r := SetGroups(row, segments, groupFields, gm);
      (f in r <==> f in row) && (f in row ==> r[f] == row[f])
  {
    if |segments| > 0 {
      var n := |segments| - 1;
      SetGroupsKeeps(row, segments[..n], groupFields, gm, f);
      assert GroupFieldName(n, groupFields) != f;
    }
  }

  /** The attribute of grouping position j holds that grouping's value when
      no later position shares its name. */
  lemma {:induction false} SetGroupsAt(row: Row, segments: seq<string>, groupFields: seq<string>,
                                       gm: GroupTransforms, j: nat)
    requires j < |segments|
    requires forall i :: j < i < |segments| ==> GroupFieldName(i, groupFields) != GroupFieldName(j, groupFields)
    requires GroupValue(GroupFieldName(j, groupFields), segments[j], gm).Some?
    ensures var r := SetGroups(row, segments, groupFields, gm);
      var name := GroupFieldName(j, groupFields);
      name in r && r[name] == GroupValue(name, segments[j], gm).value
  {
    var n := |segments| - 1;
    var prefix := segments[..n];
    if j < n {
      assert prefix[j] == segments[j];
      SetGroupsAt(row, prefix, groupFields, gm, j);
      assert GroupFieldName(n, groupFields) != GroupFieldName(j, groupFields);
    }
  }

  /** The first `count` grouping positions have pairwise different
      attribute names, so each grouping attribute is written once. */
  predicate DistinctFieldNames(groupFields: seq<string>, count: nat)
  {
    forall i, j :: 0 <= i < j < count ==> GroupFieldName(i, groupFields) != GroupFieldName(j, groupFields)
  }

  /** Distinct supplied field names, none shaped like a fallback name
      `group<k>`, give distinct names to any number of positions. */
  lemma DistinctFieldNamesFromSupplied(groupFields: seq<string>, count: nat)
    requires forall a, b :: 0 <= a < b < |groupFields| ==> groupFields[a] != groupFields[b]
    requires forall a :: 0 <= a < |groupFields| ==> !IsFallbackName(groupFields[a])
    ensures DistinctFieldNames(groupFields, count)
  {
    forall i, j | 0 <= i < j < count
      ensures GroupFieldName(i, groupFields) != GroupFieldName(j, groupFields)
    {
      FieldNamesDistinct(groupFields, i, j);
    }
  }

  // ---------------------------------------------------------------------
  // One delta, end to end

  /** For a key the read path accepts, the row under (entity, row id) gets
      `interval`, `timestamp` and the metric attribute, unless a grouping
      attribute of the same name overwrites them afterwards; attributes
      written by nobody keep their earlier value. */
  lemma DeltaRow(t: Tables, delta: Delta, mm: MetricTransforms, gm: GroupTransforms, groupFields: seq<string>)
    requires Decode(delta.key).Some?
    ensures var d := Decode(delta.key).value;
      var row := ApplyDelta(t, delta, mm, gm, groupFields)[RowKey(d)];
      var names := set i | 0 <= i < |GroupSegments(d.groupings)| :: GroupFieldName(i, groupFields);
      && ("interval" !in names ==> "interval" in row && row["interval"] == (if d.metric == "interval" then MetricValue(d.metric, delta.newValue, mm) else Str(d.interval)))
      && ("timestamp" !in names ==> "timestamp" in row && row["timestamp"] == (if d.metric == "timestamp" then MetricValue(d.metric, delta.newValue, mm) else BigIntText(d.timestamp)))
      && (d.metric !in names ==> d.metric in row && row[d.metric] == MetricValue(d.metric, delta.newValue, mm))
      && (forall f :: f != "interval" && f != "timestamp" && f != d.metric && f !in names ==>
            (f in row <==> f in RowAt(t, RowKey(d))) && (f in row ==> row[f] == RowAt(t, RowKey(d))[f]))
  {
    var d := Decode(delta.key).value;
    var names := set i | 0 <= i < |GroupSegments(d.groupings)| :: GroupFieldName(i, groupFields);
    ApplyDecoded(t, delta, d, mm, gm, groupFields);
    RowAttributes(RowAt(t, RowKey(d)), d, delta.newValue, mm, gm, groupFields, names);
  }

  /** `DeltaRow` for the row alone, for any set `names` holding every
      grouping attribute name. */
  lemma RowAttributes(prior: Row, d: Decoded, raw: int, mm: MetricTransforms, gm: GroupTransforms,
                      groupFields: seq<string>, names: set<string>)
    requires forall i :: 0 <= i < |GroupSegments(d.groupings)| ==> GroupFieldName(i, groupFields) in names
    ensures var row := SetGroups(prior["interval" := Str(d.interval)]["timestamp" := BigIntText(d.timestamp)]
                                   [d.metric := MetricValue(d.metric, raw, mm)],
                                 GroupSegments(d.groupings), groupFields, gm);
      && ("interval" !in names ==> "interval" in row && row["interval"] == (if d.metric == "interval" then MetricValue(d.metric, raw, mm) else Str(d.interval)))
      && ("timestamp" !in names ==> "timestamp" in row && row["timestamp"] == (if d.metric == "timestamp" then MetricValue(d.metric, raw, mm) else BigIntText(d.timestamp)))
      && (d.metric !in names ==> d.metric in row && row[d.metric] == MetricValue(d.metric, raw, mm))
      && (forall f :: f != "interval" && f != "timestamp" && f != d.metric && f !in names ==>
            (f in row <==> f in prior) && (f in row ==> row[f] == prior[f]))
  {
    var segs := GroupSegments(d.groupings);
    var withMetric := prior["interval" := Str(d.interval)]["timestamp" := BigIntText(d.timestamp)]
                        [d.metric := MetricValue(d.metric, raw, mm)];
    forall f | f !in names
      ensures var r := SetGroups(withMetric, segs, groupFields, gm);
        (f in r <==> f in withMetric) && (f in withMetric ==> r[f] == withMetric[f])
    {
      SetGroupsKeeps(withMetric, segs, groupFields, gm, f);
    }
    assert "interval" != "timestamp" by {
      assert "interval"[0] != "timestamp"[0];
    }
    assert "interval" in withMetric
      && withMetric["interval"] == (if d.metric == "interval" then MetricValue(d.metric, raw, mm) else Str(d.interval));
    assert "timestamp" in withMetric
      && withMetric["timestamp"] == (if d.metric == "timestamp" then MetricValue(d.metric, raw, mm) else BigIntText(d.timestamp));
  }

  /** Every key the write path builds is upserted into its own row: table
      `entity`, under the id from its bucket text, interval and joined
      groups. */
  lemma WrittenKeyRow(t: Tables, entity: string, interval: string, bucket: int, metric: string,
                      groups: seq<string>, v: int, mm: MetricTransforms, gm: GroupTransforms,
                      groupFields: seq<string>)
    requires interval == "total" || interval == "day" || interval == "hour"
    requires ':' !in entity && ':' !in metric && ColonFree(groups)
    ensures var k := (entity, RowId(TimestampText(interval, bucket), interval, Join(groups, "-")));
      var r := ApplyDelta(t, Delta(WrittenKey(entity, interval, bucket, metric, groups), v), mm, gm, groupFields);
      k in r
  {
    DecodeWrittenKey(entity, interval, bucket, metric, groups);
  }

  /** The row a written key materialises, for a grouping position whose
      value gets set: with colon-free fields and non-empty, dash-free
      groups, that row holds the position's attribute with its group (or
      its transform's result) when the field names are distinct. */
  lemma MaterializeWrittenKey(t: Tables, entity: string, interval: string, bucket: int, metric: string,
                              groups: seq<string>, v: int, mm: MetricTransforms, gm: GroupTransforms,
                              groupFields: seq<string>, j: nat)
    requires interval == "total" || interval == "day" || interval == "hour"
    requires ':' !in entity && ':' !in metric && ColonFree(groups)
    requires forall i :: 0 <= i < |groups| ==> groups[i] != "" && '-' !in groups[i]
    requires DistinctFieldNames(groupFields, |groups|)
    requires j < |groups| && GroupValue(GroupFieldName(j, groupFields), groups[j], gm).Some?
    ensures var k := (entity, RowId(TimestampText(interval, bucket), interval, Join(groups, "-")));
      var r := ApplyDelta(t, Delta(WrittenKey(entity, interval, bucket, metric, groups), v), mm, gm, groupFields);
      var name := GroupFieldName(j, groupFields);
      k in r && name in r[k] && r[k][name] == GroupValue(name, groups[j], gm).value
  {
    var key := WrittenKey(entity, interval, bucket, metric, groups);
    DecodeWrittenKey(entity, interval, bucket, metric, groups);
    GroupingsRoundTrip(groups);
    var d := Decode(key).value;
    assert GroupSegments(d.groupings) == groups;
    var prior := RowAt(t, RowKey(d));
    var withTags := prior["interval" := Str(d.interval)]["timestamp" := BigIntText(d.timestamp)];
    var withMetric := withTags[d.metric := MetricValue(d.metric, v, mm)];
    SetGroupsAt(withMetric, groups, groupFields, gm, j);
  }

  // ---------------------------------------------------------------------
  // Replaying deltas

  /** The tables `t` with the attributes of `w` written over them, row by
      row. */
  function Overlay(t: Tables, w: Tables): Tables
  {
    map k | k in t.Keys + w.Keys :: if k in w then RowAt(t, k) + w[k] else t[k]
  }

  /** Setting an attribute on top of a row distributes over the row. */
  lemma UpdateOver(row: Row, u: Row, f: string, v: Value)
    ensures (row + u)[f := v] == row + u[f := v]
  {
  }

  /** The grouping writes distribute over the row they start from. */
  lemma {:induction false} SetGroupsOver(row: Row, u: Row, segments: seq<string>, groupFields: seq<string>,
                                         gm: GroupTransforms)
    ensures SetGroups(row + u, segments, groupFields, gm) == row + SetGroups(u, segments, groupFields, gm)
  {
    if |segments| > 0 {
      var n := |segments| - 1;
      var field := GroupFieldName(n, groupFields);
      SetGroupsOver(row, u, segments[..n], groupFields, gm);
      var w := SetGroups(u, segments[..n], groupFields, gm);
      match GroupValue(field, segments[n], gm)
      case None =>
      case Some(v) => UpdateOver(row, w, field, v);
    }
  }

  /** Materialising on top of a row is writing the fresh row's attributes
      over it. */
  lemma MaterializeOver(row: Row, d: Decoded, raw: int, mm: MetricTransforms, gm: GroupTransforms,
                        groupFields: seq<string>)
    ensures Materialize(row, d, raw, mm, gm, groupFields) == row + Materialize(map[], d, raw, mm, gm, groupFields)
  {
    var e: Row := map[];
    var u1 := e["interval" := Str(d.interval)];
    var u2 := u1["timestamp" := BigIntText(d.timestamp)];
    var u3 := u2[d.metric := MetricValue(d.metric, raw, mm)];
    assert row + e == row;
    UpdateOver(row, e, "interval", Str(d.interval));
    UpdateOver(row, u1, "timestamp", BigIntText(d.timestamp));
    UpdateOver(row, u2, d.metric, MetricValue(d.metric, raw, mm));
    SetGroupsOver(row, u3, GroupSegments(d.groupings), groupFields, gm);
  }

  /** One delta writes the row it would write into empty tables over `t`. */
  lemma ApplyDeltaOverlay(t: Tables, delta: Delta, mm: MetricTransforms, gm: GroupTransforms,
                          groupFields: seq<string>)
    ensures ApplyDelta(t, delta, mm, gm, groupFields) == Overlay(t, ApplyDelta(map[], delta, mm, gm, groupFields))
  {
    match Decode(delta.key)
    case None =>
      assert Overlay(t, map[]) == t;
    case Some(d) =>
      MaterializeOver(RowAt(t, RowKey(d)), d, delta.newValue, mm, gm, groupFields);
      assert RowAt(map[], RowKey(d)) == map[];
  }

  /** Writing `w` then `p` over `t` is writing `p` over `w`, then the
      result over `t`. */
  lemma OverlayAssoc(t: Tables, w: Tables, p: Tables)
    ensures Overlay(Overlay(t, w), p) == Overlay(t, Overlay(w, p))
  {
    var lhs, rhs := Overlay(Overlay(t, w), p), Overlay(t, Overlay(w, p));
    forall k | k in lhs
      ensures k in rhs && lhs[k] == rhs[k]
    {
      OverlayAssocAt(t, w, p, k);
    }
    assert lhs.Keys == rhs.Keys;
  }

  /** `OverlayAssoc` for the row under one key. */
  lemma OverlayAssocAt(t: Tables, w: Tables, p: Tables, k: (string, string))
    requires k in Overlay(Overlay(t, w), p)
    ensures k in Overlay(t, Overlay(w, p))
    ensures Overlay(Overlay(t, w), p)[k] == Overlay(t, Overlay(w, p))[k]
  {
    var tw, wp := Overlay(t, w), Overlay(w, p);
    if k in p {
      assert Overlay(tw, p)[k] == RowAt(tw, k) + p[k];
      assert Overlay(t, wp)[k] == RowAt(t, k) + wp[k];
      assert wp[k] == RowAt(w, k) + p[k];
      if k in w {
        assert RowAt(tw, k) == RowAt(t, k) + w[k];
        UnionAssoc(RowAt(t, k), w[k], p[k]);
      } else {
        assert RowAt(tw, k) == RowAt(t, k);
        EmptyUnion(p[k]);
      }
    }
  }

  lemma UnionAssoc(a: Row, b: Row, c: Row)
    ensures (a + b) + c == a + (b + c)
  {
  }

  lemma EmptyUnion(a: Row)
    ensures map[] + a == a
  {
  }

  /** Writing `w` over itself changes nothing. */
  lemma OverlaySelf(w: Tables)
    ensures Overlay(w, w) == w
  {
    forall k | k in w
      ensures Overlay(w, w)[k] == w[k]
    {
      assert w[k] + w[k] == w[k];
    }
  }

  /** A sequence of deltas writes what it would write into empty tables
      over `t`. */
  lemma {:induction false} ApplyDeltasOverlay(t: Tables, deltas: seq<Delta>, mm: MetricTransforms,
                                              gm: GroupTransforms, groupFields: seq<string>)
    ensures ApplyDeltas(t, deltas, mm, gm, groupFields)
         == Overlay(t, ApplyDeltas(map[], deltas, mm, gm, groupFields))
  {
    if |deltas| == 0 {
      assert Overlay(t, map[]) == t;
    } else {
      var n := |deltas| - 1;
      var w := ApplyDeltas(map[], deltas[..n], mm, gm, groupFields);
      var p := ApplyDelta(map[], deltas[n], mm, gm, groupFields);
      ApplyDeltasOverlay(t, deltas[..n], mm, gm, groupFields);
      ApplyDeltaOverlay(ApplyDeltas(t, deltas[..n], mm, gm, groupFields), deltas[n], mm, gm, groupFields);
      ApplyDeltaOverlay(w, deltas[n], mm, gm, groupFields);
      OverlayAssoc(t, w, p);
    }
  }

  /** Idempotent re-materialisation: replaying the same deltas a second time
      leaves the tables as one pass left them. */
  lemma ReplayIdempotent(t: Tables, deltas: seq<Delta>, mm: MetricTransforms, gm: GroupTransforms,
                         groupFields: seq<string>)
    ensures ApplyDeltas(ApplyDeltas(t, deltas, mm, gm, groupFields), deltas, mm, gm, groupFields)
         == ApplyDeltas(t, deltas, mm, gm, groupFields)
  {
    var w := ApplyDeltas(map[], deltas, mm, gm, groupFields);
    ApplyDeltasOverlay(t, deltas, mm, gm, groupFields);
    ApplyDeltasOverlay(Overlay(t, w), deltas, mm, gm, groupFields);
    OverlayAssoc(t, w, w);
    OverlaySelf(w);
  }

  // ---------------------------------------------------------------------
  // The processor

  /** `DeltaProcessor`: the output tables and the two transform
      registries. */
  class DeltaProcessor {
    var tables: Tables
    var metricMutations: MetricTransforms
    var groupMutations: GroupTransforms

    /** `new`: empty registries over the given tables. */
    constructor (tables: Tables)
      ensures this.tables == tables && metricMutations == map[] && groupMutations == map[]
    {
      this.tables := tables;
      metricMutations := map[];
      groupMutations := map[];
    }

    /** `add_metric_mutation`: registers `mutation` for `metric`, replacing
        an earlier registration. */
    method AddMetricMutation(metric: string, mutation: int -> Output)
      modifies this
      ensures metricMutations == old(metricMutations)[metric := mutation]
      ensures tables == old(tables) && groupMutations == old(groupMutations)
    {
      metricMutations := metricMutations[metric := mutation];
    }

    /** `add_group_mutation`: registers `mutation` for the grouping field
        `group`, replacing an earlier registration. */
    method AddGroupMutation(group: string, mutation: string -> Output)
      modifies this
      ensures groupMutations == old(groupMutations)[group := mutation]
      ensures tables == old(tables) && metricMutations == old(metricMutations)
    {
      groupMutations := groupMutations[group := mutation];
    }

    /** `process_deltas`: processes the deltas in order. */
    method ProcessDeltas(deltas: seq<Delta>, groupFields: seq<string>)
      modifies this
      ensures tables == ApplyDeltas(old(tables), deltas, metricMutations, groupMutations, groupFields)
      ensures metricMutations == old(metricMutations) && groupMutations == old(groupMutations)
    {
      for n := 0 to |deltas|
        invariant tables == ApplyDeltas(old(tables), deltas[..n], metricMutations, groupMutations, groupFields)
        invariant metricMutations == old(metricMutations) && groupMutations == old(groupMutations)
      {
        assert deltas[..n + 1][..n] == deltas[..n];
        ProcessDelta(deltas[n], groupFields);
      }
      assert deltas[..|deltas|] == deltas;
    }

    /** The body of the loop of `process_deltas` for one delta; returning
        early is the loop's `continue`. */
    method ProcessDelta(delta: Delta, groupFields: seq<string>)
      modifies this
      ensures tables == ApplyDelta(old(tables), delta, metricMutations, groupMutations, groupFields)
      ensures metricMutations == old(metricMutations) && groupMutations == old(groupMutations)
    {
      ghost var decoded := Decode(delta.key);
      var keySegments := Split(delta.key, ':');
      if |keySegments| < 3 {
        assert decoded.None?;
        return;
      }
      var entity := keySegments[0];
      var interval := keySegments[1];
      var timestamp, metric, groupings;
      if interval == "total" {
        timestamp, metric, groupings := "0", keySegments[2], Join(keySegments[3..], "-");
      } else if interval == "day" || interval == "hour" {
        if |keySegments| < 4 {
          assert decoded.None?;
          return;
        }
        timestamp, metric, groupings := keySegments[2], keySegments[3], Join(keySegments[4..], "-");
      } else {
        assert decoded.None?;
        return;
      }
      ghost var d := Decoded(entity, interval, timestamp, metric, groupings);
      assert decoded == Some(d);

      var id := RowId(timestamp, interval, groupings);
      var row := RowAt(tables, (entity, id));
      row := row["interval" := Str(interval)];
      row := row["timestamp" := BigIntText(timestamp)];

      if metric in metricMutations {
        var value := metricMutations[metric](delta.newValue);
        match value
        case OutBigInt(i) => row := row[metric := BigInt(i)];
        case OutStr(s) => row := row[metric := Str(s)];
        case OutBool(b) => row := row[metric := Bool(b)];
        case OutDecimal(x) => row := row[metric := Decimal(x)];
      } else {
        row := row[metric := BigInt(delta.newValue)];
      }
      ghost var withMetric := RowAt(old(tables), RowKey(d))["interval" := Str(interval)]
        ["timestamp" := BigIntText(timestamp)][metric := MetricValue(metric, delta.newValue, metricMutations)];
      assert row == withMetric;

      if groupings != "" {
        var groupValues := Split(groupings, '-');
        row := SetGroupAttributes(row, groupValues, groupFields);
      }
      assert row == SetGroups(withMetric, GroupSegments(groupings), groupFields, groupMutations);
      ApplyDecoded(old(tables), delta, d, metricMutations, groupMutations, groupFields);
      tables := tables[(entity, id) := row];
    }

    /** The grouping loop of `process_deltas`: the i-th value is set under
        `GroupFieldName(i, groupFields)`, through its transform if one is
        registered. */
    method SetGroupAttributes(row: Row, groupValues: seq<string>, groupFields: seq<string>) returns (r: Row)
      ensures r == SetGroups(row, groupValues, groupFields, groupMutations)
    {
      r := row;
      for i := 0 to |groupValues|
        invariant r == SetGroups(row, groupValues[..i], groupFields, groupMutations)
      {
        ghost var before := r;
        var groupField := GroupFieldName(i, groupFields);
        if groupField in groupMutations {
          var value := groupMutations[groupField](groupValues[i]);
          match value
          case OutStr(s) => r := r[groupField := Str(s)];
          case OutBigInt(k) => r := r[groupField := BigInt(k)];
          case OutBool(b) => r := r[groupField := Bool(b)];
          case OutDecimal(_) =>
        } else {
          r := r[groupField := Str(groupValues[i])];
        }
        assert r == SetGroupAttr(before, groupField, groupValues[i], groupMutations);
        SetGroupsSnoc(row, groupValues, i, groupFields, groupMutations);
      }
      assert groupValues[..|groupValues|] == groupValues;
    }
  }
}
