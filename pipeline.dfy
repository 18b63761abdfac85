/**
 * The click pipeline's state and its operations as the controller performs
 * them: the ingress handler, the consumer, the flush scheduler, the rebuild
 * and the analytics read. Each operation is one sequential step over the
 * cache, the durable store and the broker topic; the outcome of every call
 * into the cache, the store or the broker is a parameter.
 */
module Pipeline {
  import opened Wrappers
  import opened Events
  import opened Cache
  import opened Keys
  import opened Decimal
  import opened Ingress
  import opened Durable
  import opened Rebuild
  import opened Analytics

  /** A message on the click topic: keyed by the ad id's text, carrying the stamped event. */
  datatype Message = Message(key: string, event: ClickEvent)

  /** What the click endpoint answers. */
  datatype ClickReply =
    | Accepted                  // published to the topic
    | Invalid(error: FieldError) // validation failed (the handler panics; the server answers 500)
    | PublishFailed             // the topic refused the message

  /** Every tick that enumerates at all enumerates only click keys. */
  predicate TicksOfClickKeys(ticks: seq<Option<seq<FlushVisit>>>) {
    forall t :: 0 <= t < |ticks| && ticks[t].Some? ==> AllClickKeys(ticks[t].value)
  }

  /** Every tick that enumerates at all enumerates exactly the cache's click keys. */
  predicate TicksEnumerate(ks: Keyspace, ticks: seq<Option<seq<FlushVisit>>>)
    ensures TicksEnumerate(ks, ticks) ==> TicksOfClickKeys(ticks)
  {
    forall t :: 0 <= t < |ticks| && ticks[t].Some? ==> EnumeratesClickKeys(ks, ticks[t].value)
  }

  /** The flush scheduler's ticks until the first one whose key enumeration fails. */
  function FlushTicks(s: Store, ks: Keyspace, ticks: seq<Option<seq<FlushVisit>>>): Store
    requires TicksOfClickKeys(ticks)
    decreases |ticks|
  {
    if ticks == [] || ticks[0].None? then s
    else FlushTicks(FlushAll(s, ks, ticks[0].value), ks, ticks[1..])
  }

  /** The number of ticks the scheduler runs before an enumeration failure stops it. */
  function TicksBeforeFailure(ticks: seq<Option<seq<FlushVisit>>>): (n: nat)
    ensures n <= |ticks|
    ensures forall t :: 0 <= t < n ==> ticks[t].Some?
    ensures n < |ticks| ==> ticks[n].None?
  {
    if ticks == [] || ticks[0].None? then 0 else 1 + TicksBeforeFailure(ticks[1..])
  }

  /** Ticks after the first failed enumeration have no effect: the scheduler has returned. */
  lemma {:induction false} SchedulerEndsAtEnumerationFailure(s: Store, ks: Keyspace, ticks: seq<Option<seq<FlushVisit>>>)
    requires TicksOfClickKeys(ticks)
    ensures TicksOfClickKeys(ticks[..TicksBeforeFailure(ticks)])
    ensures FlushTicks(s, ks, ticks) == FlushTicks(s, ks, ticks[..TicksBeforeFailure(ticks)])
    decreases |ticks|
  {
    var n := TicksBeforeFailure(ticks);
    var prefix := ticks[..n];
    assert TicksOfClickKeys(prefix) by {
      forall t | 0 <= t < |prefix| && prefix[t].Some?
        ensures AllClickKeys(prefix[t].value)
      {
        assert prefix[t] == ticks[t];
      }
    }
    if n > 0 {
      var tail := ticks[1..];
      assert TicksOfClickKeys(tail) by {
        forall t | 0 <= t < |tail| && tail[t].Some?
          ensures AllClickKeys(tail[t].value)
        {
          assert tail[t] == ticks[t + 1];
        }
      }
      SchedulerEndsAtEnumerationFailure(FlushAll(s, ks, ticks[0].value), ks, tail);
      assert prefix[1..] == tail[..n - 1];
    }
  }

  class ClickPipeline {
    /** The aggregate cache. */
    var cache: Keyspace
    /** The durable store. */
    var store: Store
    /** The click topic, in publication order. */
    var published: seq<Message>

    constructor (initial: Store)
      ensures cache == map[] && store == initial && published == []
    {
      cache := map[];
      store := initial;
      published := [];
    }

    /** `updateMetricsInRedis`: count the click in the cache, then record the event's stats. */
    method UpdateMetricsInRedis(id: string, timeframe: real, playbackTime: real, incrOk: bool, setOk: bool)
      requires timeframe != 0.0
      modifies this
      ensures cache == UpdateMetrics(old(cache), id, timeframe, playbackTime, incrOk, setOk)
      ensures store == old(store) && published == old(published)
    {
      if !incrOk {
        return;
      }
      var counted := HIncrBy(cache, ClickKey(id), "clicks", 1);
      if counted.Err? {
        return;
      }
      cache := counted.value;
      if !setOk {
        return;
      }
      cache := HSet(cache, StatsKey(id), StatsRecord(playbackTime, timeframe));
    }

    /**
     * `PostAdds`: validate, stamp the server time, update the cache, and publish
     * the event keyed by its ad id. The answer depends on the publish alone;
     * the cache update happens whatever the publish outcome.
     */
    method PostClick(e: ClickEvent, isIp: string -> bool, now: string,
                     incrOk: bool, setOk: bool, publishOk: bool) returns (reply: ClickReply)
      modifies this
      ensures ValidateInput(e, isIp).Err? ==>
        reply == Invalid(ValidateInput(e, isIp).error) && cache == old(cache) && published == old(published)
      ensures ValidateInput(e, isIp).Ok? ==>
        && cache == UpdateMetrics(old(cache), FormatInt(e.adId), e.timeframe, e.playbackTime, incrOk, setOk)
        && published == old(published) + (if publishOk then [Message(FormatInt(e.adId), e.(timestamp := now))] else [])
        && reply == (if publishOk then Accepted else PublishFailed)
      ensures store == old(store)
    {
      var valid := ValidateInput(e, isIp);
      if valid.Err? {
        return Invalid(valid.error);
      }
      var stamped := e.(timestamp := now);
      UpdateMetricsInRedis(FormatInt(stamped.adId), stamped.timeframe, stamped.playbackTime, incrOk, setOk);
      if !publishOk {
        return PublishFailed;
      }
      published := published + [Message(FormatInt(stamped.adId), stamped)];
      reply := Accepted;
    }

    /** `InsertClick`: append the event's row to `ads_clicks`; report whether the insert succeeded. */
    method InsertClick(e: ClickEvent, insertOk: bool) returns (inserted: bool)
      modifies this
      ensures inserted == insertOk
      ensures store.clickRows == old(store.clickRows) + (if insertOk then [RowOf(e)] else [])
      ensures store.adClicks == old(store.adClicks)
      ensures cache == old(cache) && published == old(published)
    {
      if !insertOk {
        return false;
      }
      store := store.(clickRows := store.clickRows + [RowOf(e)]);
      inserted := true;
    }

    /** `updateMetaClicks`: add one to the ad's stored counter in a transaction that may fail. */
    method UpdateMetaClicks(adId: int, updateOk: bool)
      modifies this
      ensures store.adClicks == if updateOk then AddClick(old(store.adClicks), adId) else old(store.adClicks)
      ensures store.clickRows == old(store.clickRows)
      ensures cache == old(cache) && published == old(published)
    {
      if updateOk {
        store := store.(adClicks := AddClick(store.adClicks, adId));
      }
    }

    /** One turn of the consumer loop: skip an undecodable message, else insert, then count. */
    method ConsumeMessage(d: Delivery)
      modifies this
      ensures store == ConsumeOne(old(store), d)
      ensures cache == old(cache) && published == old(published)
    {
      if d.event.None? {
        return;
      }
      var inserted := InsertClick(d.event.value, d.insertOk);
      if inserted {
        UpdateMetaClicks(d.event.value.adId, d.updateOk);
      }
    }

    /** `KafkaConsumer`: handle the deliveries one after another, never stopping on a failure. */
    method RunConsumer(ds: seq<Delivery>)
      modifies this
      ensures store == ConsumeAll(old(store), ds)
      ensures cache == old(cache) && published == old(published)
    {
      var i := 0;
      while i < |ds|
        invariant 0 <= i <= |ds|
        invariant ConsumeAll(store, ds[i..]) == ConsumeAll(old(store), ds)
        invariant cache == old(cache) && published == old(published)
      {
        assert ds[i..][1..] == ds[i + 1..];
        ConsumeMessage(ds[i]);
        i := i + 1;
      }
    }

    /** `FlushMetricsToSQL`: upsert the ad's stored counter from the cached one; the cache is left as it is. */
    method FlushMetricsToSql(v: FlushVisit)
      requires IsClickKey(v.key)
      modifies this
      ensures store == FlushKey(old(store), cache, v)
      ensures cache == old(cache) && published == old(published)
    {
      var snapshot := if v.readOk then HGetAll(cache, v.key) else map[];
      if !v.txOk {
        return;
      }
      var id := ParseInt(IdOfClickKey(v.key));
      if id.None? || "clicks" !in snapshot || !snapshot["clicks"].Int? {
        return;
      }
      store := store.(adClicks := store.adClicks[id.value := snapshot["clicks"].i]);
    }

    /**
     * One tick of `StartFlushScheduler`: flush every enumerated key in turn.
     * A failed enumeration (None) flushes nothing and ends the scheduler.
     */
    method FlushTick(keys: Option<seq<FlushVisit>>) returns (keepRunning: bool)
      requires keys.Some? ==> EnumeratesClickKeys(cache, keys.value)
      modifies this
      ensures keepRunning == keys.Some?
      ensures store == if keys.Some? then FlushAll(old(store), cache, keys.value) else old(store)
      ensures cache == old(cache) && published == old(published)
    {
      if keys.None? {
        return false;
      }
      var vs := keys.value;
      var i := 0;
      while i < |vs|
        invariant 0 <= i <= |vs|
        invariant FlushAll(store, cache, vs[i..]) == FlushAll(old(store), cache, vs)
        invariant cache == old(cache) && published == old(published)
      {
        assert vs[i..][1..] == vs[i + 1..];
        FlushMetricsToSql(vs[i]);
        i := i + 1;
      }
      keepRunning := true;
    }

    /** `StartFlushScheduler`: run ticks until an enumeration fails; return how many ticks ran. */
    method RunFlushScheduler(ticks: seq<Option<seq<FlushVisit>>>) returns (ran: nat)
      requires TicksEnumerate(cache, ticks)
      modifies this
      ensures cache == old(cache) && published == old(published)
      ensures ran == TicksBeforeFailure(ticks)
      ensures store == FlushTicks(old(store), cache, ticks)
    {
      ran := 0;
      var keepRunning := true;
      while ran < |ticks| && keepRunning
        invariant 0 <= ran <= |ticks|
        invariant keepRunning ==> FlushTicks(store, cache, ticks[ran..]) == FlushTicks(old(store), cache, ticks)
        invariant keepRunning ==> TicksBeforeFailure(ticks) == ran + TicksBeforeFailure(ticks[ran..])
        invariant !keepRunning ==>
          (0 < ran && ticks[ran - 1].None?
           && store == FlushTicks(old(store), cache, ticks) && TicksBeforeFailure(ticks) == ran - 1)
        invariant cache == old(cache) && published == old(published)
      {
        assert ticks[ran..][1..] == ticks[ran + 1..];
        keepRunning := FlushTick(ticks[ran]);
        ran := ran + 1;
      }
      if !keepRunning {
        ran := ran - 1;
      }
    }

    /** `FetchFromDb`: write each row of the join into the cache, stopping at the first failed write. */
    method FetchFromDb(vs: seq<RowVisit>)
      requires RowsReadable(vs)
      modifies this
      ensures cache == RebuildAll(old(cache), vs)
      ensures store == old(store) && published == old(published)
    {
      var i := 0;
      while i < |vs|
        invariant 0 <= i <= |vs|
        invariant RowsReadable(vs[i..])
        invariant RebuildAll(cache, vs[i..]) == RebuildAll(old(cache), vs)
        invariant store == old(store) && published == old(published)
      {
        assert vs[i..][1..] == vs[i + 1..];
        var v := vs[i];
        if v.row.Some? {
          var row := v.row.value;
          var id := FormatInt(row.adId);
          if !v.clicksOk {
            return;
          }
          cache := HSet(cache, ClickKey(id), map["clicks" := Int(row.clicks)]);
          if !v.statsOk {
            return;
          }
          cache := HSet(cache, StatsKey(id), StatsRecord(row.playbackTime, row.timeframe));
        }
        i := i + 1;
      }
    }

    /**
     * `GetAnalytics`: on a miss, rebuild the cache and answer not-found;
     * otherwise answer from the cache without changing anything.
     */
    method GetAnalytics(id: string, clicksReadOk: bool, statsReadOk: bool, vs: seq<RowVisit>)
      returns (reply: AnalyticsReply)
      requires RowsReadable(vs)
      modifies this
      ensures CacheMiss(old(cache), id, clicksReadOk) ==>
        reply == NotFound && cache == RebuildAll(old(cache), vs)
      ensures !CacheMiss(old(cache), id, clicksReadOk) ==>
        reply == ReadMetrics(old(cache), id, statsReadOk) && cache == old(cache)
      ensures store == old(store) && published == old(published)
    {
      if CacheMiss(cache, id, clicksReadOk) {
        FetchFromDb(vs);
        return NotFound;
      }
      reply := ReadMetrics(cache, id, statsReadOk);
    }
  }
}
