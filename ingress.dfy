/**
 * The cache side of accepting a click (`updateMetricsInRedis`): raise the
 * ad's click counter, then overwrite its stats record with the latest event.
 */
module Ingress {
  import opened Cache
  import opened Keys
  import Events

  /**
   * The stats record written for an event: the derived impression and the two
   * raw durations. The durations are kept as `Dec` even when integral (the
   * client would write 25.0 as the text "25"); nothing reads them back.
   */
  function StatsRecord(playbackTime: real, timeframe: real): Hash
    requires timeframe != 0.0
  {
    map[
      "impression" := Int(Events.Impression(playbackTime, timeframe)),
      "timeframe" := Dec(timeframe),
      "playbacktime" := Dec(playbackTime)]
  }

  /** The value `HINCRBY` starts from: the stored counter, 0 when there is none. */
  function StoredClicks(ks: Keyspace, id: string): int {
    var h := HGetAll(ks, ClickKey(id));
    if "clicks" in h && h["clicks"].Int? then h["clicks"].i else 0
  }

  /** Whether the increment goes through: the cache answers and the counter holds an integer. */
  predicate Increments(ks: Keyspace, id: string, incrOk: bool) {
    var h := HGetAll(ks, ClickKey(id));
    incrOk && ("clicks" !in h || h["clicks"].Int?)
  }

  /**
   * The cache after `updateMetricsInRedis(id, timeframe, playbackTime)`.
   * `incrOk` and `setOk` say whether the increment and the stats write reach
   * the cache. The stats record is written only after a successful increment.
   */
  function UpdateMetrics(ks: Keyspace, id: string, timeframe: real, playbackTime: real,
                         incrOk: bool, setOk: bool): (r: Keyspace)
    requires timeframe != 0.0
    // the counter rises by exactly one, starting from 0 when absent
    ensures Increments(ks, id, incrOk) ==>
      ClickKey(id) in r && "clicks" in r[ClickKey(id)]
      && r[ClickKey(id)]["clicks"] == Int(StoredClicks(ks, id) + 1)
    // the other fields of the counter hash are kept
    ensures Increments(ks, id, incrOk) ==>
      forall f :: f != "clicks" ==>
        (f in HGetAll(r, ClickKey(id)) <==> f in HGetAll(ks, ClickKey(id)))
        && (f in HGetAll(ks, ClickKey(id)) ==> r[ClickKey(id)][f] == ks[ClickKey(id)][f])
    // a failed increment writes nothing, in particular no stats record
    ensures !Increments(ks, id, incrOk) ==> r == ks
    // after the increment, the stats record is overwritten field by field when the write goes through
    ensures Increments(ks, id, incrOk) && setOk ==>
      var stats := StatsRecord(playbackTime, timeframe);
      StatsKey(id) in r
      && (forall f :: f in stats ==> f in r[StatsKey(id)] && r[StatsKey(id)][f] == stats[f])
      && (forall f :: f in HGetAll(ks, StatsKey(id)) && f !in stats ==>
            f in r[StatsKey(id)] && r[StatsKey(id)][f] == ks[StatsKey(id)][f])
      && (forall f :: f in r[StatsKey(id)] ==> f in stats || f in HGetAll(ks, StatsKey(id)))
    ensures Increments(ks, id, incrOk) && !setOk ==> HGetAll(r, StatsKey(id)) == HGetAll(ks, StatsKey(id))
    // no other key changes
    ensures r.Keys <= ks.Keys + {ClickKey(id), StatsKey(id)}
    ensures forall k :: k in ks && k != ClickKey(id) && k != StatsKey(id) ==> k in r && r[k] == ks[k]
  {
    KeyKindsDisjoint(id, id);
    if !incrOk then ks
    else match HIncrBy(ks, ClickKey(id), "clicks", 1)
      case Err(_) => ks
      case Ok(counted) =>
        if setOk then HSet(counted, StatsKey(id), StatsRecord(playbackTime, timeframe)) else counted
  }
}
