/**
 * The cache rebuild (`FetchFromDb`): every row of the store-side join
 * overwrites the ad's click counter and stats record in the cache. A failed
 * cache write ends the rebuild at that row; a row that cannot be scanned is
 * skipped.
 */
module Rebuild {
  import opened Wrappers
  import opened Cache
  import opened Keys
  import Decimal
  import Ingress

  /** One row of the join: ad id, its stored clicks, playback time and timeframe. */
  datatype JoinRow = JoinRow(adId: int, clicks: int, playbackTime: real, timeframe: real)

  /**
   * A result row as the loop meets it: `row` is None when scanning it failed;
   * `clicksOk` and `statsOk` say whether its two cache writes succeed.
   */
  datatype RowVisit = RowVisit(row: Option<JoinRow>, clicksOk: bool, statsOk: bool)

  /** Every scanned row has a timeframe the impression can be divided by. */
  predicate RowsReadable(vs: seq<RowVisit>) {
    forall i :: 0 <= i < |vs| && vs[i].row.Some? ==> vs[i].row.value.timeframe != 0.0
  }

  /** The loop goes on past this row: it was skipped, or both of its writes succeeded. */
  predicate Continues(v: RowVisit) {
    v.row.None? || (v.clicksOk && v.statsOk)
  }

  /**
   * The cache after the loop body for one row: `HSET ad-<id> clicks <clicks>`,
   * then `HSET time-<id>` with the row's impression, timeframe and playback.
   * The counter is overwritten, whatever it held before.
   */
  function RebuildRow(ks: Keyspace, v: RowVisit): (r: Keyspace)
    requires v.row.Some? ==> v.row.value.timeframe != 0.0
    ensures v.row.None? || !v.clicksOk ==> r == ks
    ensures v.row.Some? && v.clicksOk ==>
      var id := Decimal.FormatInt(v.row.value.adId);
      ClickKey(id) in r && "clicks" in r[ClickKey(id)] && r[ClickKey(id)]["clicks"] == Int(v.row.value.clicks)
    ensures v.row.Some? && v.clicksOk && v.statsOk ==>
      var row := v.row.value;
      var id := Decimal.FormatInt(row.adId);
      var stats := Ingress.StatsRecord(row.playbackTime, row.timeframe);
      StatsKey(id) in r && forall f :: f in stats ==> f in r[StatsKey(id)] && r[StatsKey(id)][f] == stats[f]
    ensures v.row.Some? && v.clicksOk && !v.statsOk ==>
      var id := Decimal.FormatInt(v.row.value.adId);
      HGetAll(r, StatsKey(id)) == HGetAll(ks, StatsKey(id))
    // the other fields of the counter hash are kept
    ensures v.row.Some? && v.clicksOk ==>
      var id := Decimal.FormatInt(v.row.value.adId);
      forall f :: f != "clicks" ==>
        (f in HGetAll(r, ClickKey(id)) <==> f in HGetAll(ks, ClickKey(id)))
        && (f in HGetAll(ks, ClickKey(id)) ==> r[ClickKey(id)][f] == ks[ClickKey(id)][f])
    // the other fields of the stats hash are kept, and it gains no field beyond the record
    ensures v.row.Some? && v.clicksOk && v.statsOk ==>
      var row := v.row.value;
      var id := Decimal.FormatInt(row.adId);
      var stats := Ingress.StatsRecord(row.playbackTime, row.timeframe);
      (forall f :: f in HGetAll(ks, StatsKey(id)) && f !in stats ==>
         f in r[StatsKey(id)] && r[StatsKey(id)][f] == ks[StatsKey(id)][f])
      && (forall f :: f in r[StatsKey(id)] ==> f in stats || f in HGetAll(ks, StatsKey(id)))
    // no other key appears or changes
    ensures v.row.Some? ==>
      var id := Decimal.FormatInt(v.row.value.adId);
      r.Keys <= ks.Keys + {ClickKey(id), StatsKey(id)}
    ensures v.row.Some? ==>
      var id := Decimal.FormatInt(v.row.value.adId);
      forall k :: k in ks && k != ClickKey(id) && k != StatsKey(id) ==> k in r && r[k] == ks[k]
  {
    match v.row
    case None => ks
    case Some(row) =>
      var id := Decimal.FormatInt(row.adId);
      KeyKindsDisjoint(id, id);
      if !v.clicksOk then ks
      else
        var counted := HSet(ks, ClickKey(id), map["clicks" := Int(row.clicks)]);
        if !v.statsOk then counted
        else HSet(counted, StatsKey(id), Ingress.StatsRecord(row.playbackTime, row.timeframe))
  }

  /** The rebuild loop over the join's rows, in order, stopping after the first failed write. */
  function RebuildAll(ks: Keyspace, vs: seq<RowVisit>): Keyspace
    requires RowsReadable(vs)
    decreases |vs|
  {
    if vs == [] then ks
    else
      var next := RebuildRow(ks, vs[0]);
      if Continues(vs[0]) then RebuildAll(next, vs[1..]) else next
  }

  /** `ks` with every field of `p` written over it: what a batch of `HSET`s does. */
  function Overlay(ks: Keyspace, p: Keyspace): (r: Keyspace)
    ensures r.Keys == ks.Keys + p.Keys
  {
    map k | k in ks.Keys + p.Keys :: HGetAll(ks, k) + HGetAll(p, k)
  }

  lemma HSetIsOverlay(ks: Keyspace, key: string, fields: Hash)
    ensures HSet(ks, key, fields) == Overlay(ks, map[key := fields])
  {
    var a := HSet(ks, key, fields);
    var b := Overlay(ks, map[key := fields]);
    assert forall k :: k in a ==> a[k] == b[k];
  }

  lemma OverlayEmpty(p: Keyspace)
    ensures Overlay(map[], p) == p
  {
    var a := Overlay(map[], p);
    assert forall k :: k in a ==> a[k] == p[k];
  }

  lemma HGetAllOverlay(ks: Keyspace, p: Keyspace, k: string)
    ensures HGetAll(Overlay(ks, p), k) == HGetAll(ks, k) + HGetAll(p, k)
  {
    if k !in ks.Keys + p.Keys {
      assert HGetAll(ks, k) == map[] && HGetAll(p, k) == map[];
      assert HGetAll(ks, k) + HGetAll(p, k) == map[];
    }
  }

  lemma OverlayAssoc(a: Keyspace, b: Keyspace, c: Keyspace)
    ensures Overlay(Overlay(a, b), c) == Overlay(a, Overlay(b, c))
  {
    var l := Overlay(Overlay(a, b), c);
    var r := Overlay(a, Overlay(b, c));
    assert l.Keys == r.Keys;
    forall k | k in l
      ensures l[k] == r[k]
    {
      HGetAllOverlay(a, b, k);
      HGetAllOverlay(b, c, k);
      HashUnionAssoc(HGetAll(a, k), HGetAll(b, k), HGetAll(c, k));
    }
  }

  lemma HashUnionAssoc(a: Hash, b: Hash, c: Hash)
    ensures (a + b) + c == a + (b + c)
  {
    assert forall f :: f in (a + b) + c ==> ((a + b) + c)[f] == (a + (b + c))[f];
  }

  /** Writing the same fields twice is the same as writing them once. */
  lemma OverlayIdempotent(ks: Keyspace, p: Keyspace)
    ensures Overlay(Overlay(ks, p), p) == Overlay(ks, p)
  {
    var l := Overlay(Overlay(ks, p), p);
    var r := Overlay(ks, p);
    forall k | k in l
      ensures l[k] == r[k]
    {
      var a, b := HGetAll(ks, k), HGetAll(p, k);
      assert HGetAll(r, k) == a + b;
      assert (a + b) + b == a + b;
    }
  }

  lemma RebuildRowIsOverlay(ks: Keyspace, v: RowVisit)
    requires v.row.Some? ==> v.row.value.timeframe != 0.0
    ensures RebuildRow(ks, v) == Overlay(ks, RebuildRow(map[], v))
  {
    match v.row
    case None =>
      assert RebuildRow(map[], v) == map[];
      assert forall k :: k in ks ==> Overlay(ks, map[])[k] == ks[k];
    case Some(row) =>
      var id := Decimal.FormatInt(row.adId);
      if !v.clicksOk {
        assert forall k :: k in ks ==> Overlay(ks, map[])[k] == ks[k];
      } else {
        var c := map[ClickKey(id) := map["clicks" := Int(row.clicks)]];
        var t := map[StatsKey(id) := Ingress.StatsRecord(row.playbackTime, row.timeframe)];
        HSetIsOverlay(ks, ClickKey(id), map["clicks" := Int(row.clicks)]);
        HSetIsOverlay(map[], ClickKey(id), map["clicks" := Int(row.clicks)]);
        OverlayEmpty(c);
        if v.statsOk {
          HSetIsOverlay(Overlay(ks, c), StatsKey(id), Ingress.StatsRecord(row.playbackTime, row.timeframe));
          HSetIsOverlay(c, StatsKey(id), Ingress.StatsRecord(row.playbackTime, row.timeframe));
          OverlayAssoc(ks, c, t);
        }
      }
  }

  /**
   * The rebuild writes a fixed set of fields that depends on the rows alone:
   * the same rows written over any cache give that cache overlaid with them.
   */
  lemma {:induction false} RebuildAllIsOverlay(ks: Keyspace, vs: seq<RowVisit>)
    requires RowsReadable(vs)
    ensures RebuildAll(ks, vs) == Overlay(ks, RebuildAll(map[], vs))
    decreases |vs|
  {
    if vs == [] {
      OverlayEmptyRight(ks);
    } else {
      var v := vs[0];
      var row := RebuildRow(map[], v);
      RebuildRowIsOverlay(ks, v);
      if Continues(v) {
        assert RowsReadable(vs[1..]) by {
          forall i | 0 <= i < |vs[1..]| && vs[1..][i].row.Some?
            ensures vs[1..][i].row.value.timeframe != 0.0
          {
            assert vs[1..][i] == vs[i + 1];
          }
        }
        var rest := RebuildAll(map[], vs[1..]);
        RebuildAllIsOverlay(RebuildRow(ks, v), vs[1..]);
        RebuildAllIsOverlay(row, vs[1..]);
        OverlayAssoc(ks, row, rest);
      }
    }
  }

  lemma OverlayEmptyRight(ks: Keyspace)
    ensures Overlay(ks, map[]) == ks
  {
    assert forall k :: k in ks ==> Overlay(ks, map[])[k] == ks[k];
  }

  /** Rebuild determinism: running it twice on the same rows gives the same cache as running it once. */
  lemma RebuildIdempotent(ks: Keyspace, vs: seq<RowVisit>)
    requires RowsReadable(vs)
    ensures RebuildAll(RebuildAll(ks, vs), vs) == RebuildAll(ks, vs)
  {
    var p := RebuildAll(map[], vs);
    RebuildAllIsOverlay(ks, vs);
    RebuildAllIsOverlay(RebuildAll(ks, vs), vs);
    OverlayIdempotent(ks, p);
  }

  /** A failed cache write at row `k` ends the rebuild there: later rows have no effect. */
  lemma {:induction false} RebuildStopsAtFailure(ks: Keyspace, vs: seq<RowVisit>, k: nat)
    requires RowsReadable(vs)
    requires k < |vs| && !Continues(vs[k])
    ensures RowsReadable(vs[..k + 1])
    ensures RebuildAll(ks, vs) == RebuildAll(ks, vs[..k + 1])
    decreases k
  {
    var prefix := vs[..k + 1];
    assert RowsReadable(prefix) by {
      forall i | 0 <= i < |prefix| && prefix[i].row.Some?
        ensures prefix[i].row.value.timeframe != 0.0
      {
        assert prefix[i] == vs[i];
      }
    }
    if 0 < k && Continues(vs[0]) {
      var tail := vs[1..];
      assert RowsReadable(tail) by {
        forall i | 0 <= i < |tail| && tail[i].row.Some?
          ensures tail[i].row.value.timeframe != 0.0
        {
          assert tail[i] == vs[i + 1];
        }
      }
      RebuildStopsAtFailure(RebuildRow(ks, vs[0]), tail, k - 1);
      assert vs[..k + 1][1..] == tail[..k];
    }
  }
}
