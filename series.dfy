/**
 * `writeStats(statName, host, series)` in plugins/rabbitmq.js: flattens a list of
 * `{tags, metrics}` entries into one point per metric, each tagged with the entry's
 * tags plus `type` and `host`, and hands the list to `flush`.
 */
module Series {
  import opened Wrappers
  import opened Objects
  import opened Json
  import opened Extract

  /** Tags of an entry or a point; a tag read from a missing field is `undefined`. */
  type Tags = Props<Prop>

  /** One element of the `series` array a category transform builds. */
  datatype Entry = Entry(tags: Tags, metrics: Fields)

  /** A metric point as pushed into `tmp`. */
  datatype Point = Point(name: string, value: Json, tags: Tags)

  /** `_.extend(target, src)`: copies the properties of `src` onto `target`, in order. */
  function Extend(target: Tags, src: Tags): Tags
    decreases src
  {
    if src == [] then target else Extend(Put(target, src[0].0, src[0].1), src[1..])
  }

  /** What a copied property reads as: the source's value if it has the key, else the target's. */
  lemma {:induction false} ExtendGet(target: Tags, src: Tags, k: string)
    requires DistinctKeys(src)
    ensures Get(Extend(target, src), k) == if Get(src, k).Some? then Get(src, k) else Get(target, k)
    decreases src
  {
    if src != [] {
      assert DistinctKeys(src[1..]) by {
        forall i, j | 0 <= i < j < |src[1..]| ensures src[1..][i].0 != src[1..][j].0 {
          assert src[1..][i] == src[i + 1] && src[1..][j] == src[j + 1];
        }
      }
      ExtendGet(Put(target, src[0].0, src[0].1), src[1..], k);
      if src[0].0 == k {
        assert k !in Keys(src[1..]) by {
          forall i | 0 <= i < |src[1..]| ensures src[1..][i].0 != k {
            assert src[1..][i] == src[i + 1];
          }
        }
        GetDefined(src[1..], k);
      }
    }
  }

  /** Extending adds exactly the source's keys. */
  lemma {:induction false} ExtendKeys(target: Tags, src: Tags)
    ensures Keys(Extend(target, src)) == Keys(target) + Keys(src)
    decreases src
  {
    if src != [] {
      PutKeys(target, src[0].0, src[0].1);
      ExtendKeys(Put(target, src[0].0, src[0].1), src[1..]);
      KeysCons(src);
    }
  }

  /** The tags of every point of an entry: `_.extend({}, data.tags, {type: statName, host: host})`. */
  function PointTags(tags: Tags, statName: string, host: string): Tags {
    Extend(Extend([], tags), [("type", Some(JStr(statName))), ("host", Some(JStr(host)))])
  }

  /** Extending with `{type, host}` is writing `type` and then `host`. */
  lemma PointTagsPuts(tags: Tags, statName: string, host: string)
    ensures PointTags(tags, statName, host) ==
      Put(Put(Extend([], tags), "type", Some(JStr(statName))), "host", Some(JStr(host)))
  {
    var forced: Tags := [("type", Some(JStr(statName))), ("host", Some(JStr(host)))];
    var t := Extend([], tags);
    var t1 := Put(t, "type", Some(JStr(statName)));
    assert forced[1..][1..] == [];
    assert Extend(t, forced) == Extend(t1, forced[1..]);
    assert Extend(t1, forced[1..]) == Extend(Put(t1, "host", Some(JStr(host))), []);
  }

  /**
   * A point's tags are the entry's tags with `type` and `host` forced on top of any
   * same-named tag; nothing else is added or changed.
   */
  lemma PointTagsSpec(tags: Tags, statName: string, host: string)
    requires DistinctKeys(tags)
    ensures Get(PointTags(tags, statName, host), "type") == Some(Some(JStr(statName)))
    ensures Get(PointTags(tags, statName, host), "host") == Some(Some(JStr(host)))
    ensures forall k :: k != "type" && k != "host" ==> Get(PointTags(tags, statName, host), k) == Get(tags, k)
    ensures Keys(PointTags(tags, statName, host)) == Keys(tags) + {"type", "host"}
  {
    PointTagsPuts(tags, statName, host);
    var t := Extend([], tags);
    var t1 := Put(t, "type", Some(JStr(statName)));
    forall k | k != "type" && k != "host" ensures Get(t, k) == Get(tags, k) {
      ExtendGet([], tags, k);
      var none: Tags := [];
      assert Get(none, k) == None;
    }
    var none: Tags := [];
    ExtendKeys(none, tags);
    assert Keys(none) == {};
    PutKeys(t, "type", Some(JStr(statName)));
    PutKeys(t1, "host", Some(JStr(host)));
  }

  /** The points of one entry: one per metric, in metric order, all with the same tags. */
  function EntryPoints(tags: Tags, metrics: Fields): (ps: seq<Point>)
    ensures |ps| == |metrics|
    ensures forall j :: 0 <= j < |metrics| ==> ps[j] == Point(metrics[j].0, metrics[j].1, tags)
  {
    if metrics == [] then [] else [Point(metrics[0].0, metrics[0].1, tags)] + EntryPoints(tags, metrics[1..])
  }

  /** The list `writeStats` hands to `flush`: the entries' points in series order. */
  function Points(statName: string, host: string, series: seq<Entry>): seq<Point> {
    if series == [] then []
    else
      var last := series[|series| - 1];
      Points(statName, host, series[..|series| - 1]) + EntryPoints(PointTags(last.tags, statName, host), last.metrics)
  }

  /** The number of metrics over all entries. */
  function MetricCount(series: seq<Entry>): nat {
    if series == [] then 0 else MetricCount(series[..|series| - 1]) + |series[|series| - 1].metrics|
  }

  /** `writeStats` emits exactly one point per (entry, metric) pair. */
  lemma {:induction false} PointsCount(statName: string, host: string, series: seq<Entry>)
    ensures |Points(statName, host, series)| == MetricCount(series)
    decreases |series|
  {
    if series != [] {
      PointsCount(statName, host, series[..|series| - 1]);
    }
  }

  /** The metrics of one entry start after those of the entries before it. */
  lemma {:induction false} MetricCountPrefix(series: seq<Entry>, i: nat)
    requires i < |series|
    ensures MetricCount(series[..i]) + |series[i].metrics| <= MetricCount(series)
    decreases |series|
  {
    var pre := series[..|series| - 1];
    if i < |series| - 1 {
      assert pre[..i] == series[..i];
      MetricCountPrefix(pre, i);
    } else {
      assert series[..i] == pre;
    }
  }

  /**
   * Point number `MetricCount(series[..i]) + j` is metric `j` of entry `i`: its name
   * and value are the metric's key and value, its tags the entry's point tags.
   */
  lemma {:induction false} PointsAt(statName: string, host: string, series: seq<Entry>, i: nat, j: nat)
    requires i < |series| && j < |series[i].metrics|
    ensures MetricCount(series[..i]) + j < |Points(statName, host, series)|
    ensures Points(statName, host, series)[MetricCount(series[..i]) + j] ==
      Point(series[i].metrics[j].0, series[i].metrics[j].1, PointTags(series[i].tags, statName, host))
    decreases |series|
  {
    var pre := series[..|series| - 1];
    PointsCount(statName, host, series);
    MetricCountPrefix(series, i);
    PointsCount(statName, host, pre);
    if i < |series| - 1 {
      assert pre[..i] == series[..i];
      PointsAt(statName, host, pre, i, j);
    } else {
      assert series[..i] == pre;
    }
  }

  /** Every point carries the `type` and `host` tags of its call. */
  lemma EveryPointTagged(statName: string, host: string, series: seq<Entry>, p: Point)
    requires p in Points(statName, host, series)
    ensures Get(p.tags, "type") == Some(Some(JStr(statName)))
    ensures Get(p.tags, "host") == Some(Some(JStr(host)))
    decreases |series|
  {
    var pre := series[..|series| - 1];
    var last := series[|series| - 1];
    if p in Points(statName, host, pre) {
      EveryPointTagged(statName, host, pre, p);
    } else {
      var ps := EntryPoints(PointTags(last.tags, statName, host), last.metrics);
      assert p in ps;
      PointTagsPuts(last.tags, statName, host);
    }
  }

  /** `writeStats`: the nested `_.each` loops that fill `tmp`; `tmp` is what `flush` receives. */
  method WriteStats(statName: string, host: string, series: seq<Entry>) returns (tmp: seq<Point>)
    ensures tmp == Points(statName, host, series)
  {
    tmp := [];
    var i := 0;
    while i < |series|
      invariant 0 <= i <= |series|
      invariant tmp == Points(statName, host, series[..i])
    {
      var data := series[i];
      var tags := Extend(Extend([], data.tags), [("type", Some(JStr(statName))), ("host", Some(JStr(host)))]);
      ghost var before := tmp;
      var j := 0;
      while j < |data.metrics|
        invariant 0 <= j <= |data.metrics|
        invariant tmp == before + EntryPoints(tags, data.metrics[..j])
      {
        EntryPointsSnoc(tags, data.metrics, j);
        tmp := tmp + [Point(data.metrics[j].0, data.metrics[j].1, tags)];
        j := j + 1;
      }
      assert data.metrics[..|data.metrics|] == data.metrics;
      assert series[..i + 1][..i] == series[..i];
      i := i + 1;
    }
    assert series[..|series|] == series;
  }

  lemma EntryPointsSnoc(tags: Tags, metrics: Fields, j: nat)
    requires j < |metrics|
    ensures EntryPoints(tags, metrics[..j + 1]) == EntryPoints(tags, metrics[..j]) + [Point(metrics[j].0, metrics[j].1, tags)]
  {
    var a, b := EntryPoints(tags, metrics[..j + 1]), EntryPoints(tags, metrics[..j]) + [Point(metrics[j].0, metrics[j].1, tags)];
    assert |a| == |b|;
    assert forall k :: 0 <= k < |a| ==> a[k] == b[k];
  }
}
