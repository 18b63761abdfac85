# Ad click pipeline — a Dafny model

This project models the click-event core of the ad-tracking service: the controller
`controller/addcontroller.go`. It covers how a posted click is validated and counted in the
aggregate cache (Redis), published to the click topic (Kafka), consumed into the durable store
(MySQL), flushed from the cache back into the store on a schedule, and rebuilt into the cache
when an analytics read finds the cache cold.

The cache, the store and the topic become values held by one class, `Pipeline.ClickPipeline`:

- `cache`: a keyspace of hashes. `ad-<id>` holds the field `clicks`; `time-<id>` holds
  `impression`, `timeframe` and `playbacktime` (module `Cache`, module `Keys`).
- `store`: `metadata_ads.clicks` as a map from ad id to counter, and `ads_clicks` as an
  append-only sequence of rows (module `Durable`).
- `published`: the messages on the click topic, in publication order.

Each controller function is a method of that class. Each method is proved against a pure
function of the old state, and the properties are proved about those functions:

- `Events.Impression` specifies `calculateImpression`; `Events.ImpressionCountsTimeframes` states what it computes.
- `Ingress.UpdateMetrics` specifies `updateMetricsInRedis`.
- `Durable.ConsumeOne` and `Durable.ConsumeAll` specify the consumer.
- `Durable.FlushKey` and `Durable.FlushAll` specify the flush.
- `Rebuild.RebuildAll` specifies `FetchFromDb`.
- `Analytics.ReadMetrics` specifies the analytics read.

Whether a call to Redis, MySQL or Kafka succeeds is a boolean parameter. For the loops, these
outcomes come bundled with each item: `Durable.Delivery`, `Durable.FlushVisit` and
`Rebuild.RowVisit`. The IP-address check of the validator library is a parameter
`isIp: string -> bool`. The server clock is a parameter `now`.

Points where the code behaves differently from what a reader might expect, and which the model follows:

- A validation failure panics (`controller/addcontroller.go:89-92`), and the global error
  handler turns the panic into a 500 answer. It is not a 400. The model answers
  `Invalid(field, tag)`.
- Only the ingress handler increments the cache counter. The consumer never touches the cache
  (`controller/addcontroller.go:147-165`).
- Only a missing or empty `ad-<id>` hash counts as a miss and triggers the rebuild. When the
  `time-<id>` record or its `impression` field is missing, the value fails to parse and the
  handler returns without writing a response (`NoReply`, `:325-327`, `:330-332`). gin then sends its default status 200 with an empty body, so the client sees success with no metrics.
- The CTR is computed by truncation and then clamped at zero. The model proves this equals
  `max(0, floor(clicks / impression * 100))` (`Analytics.CtrIsClampedFloor`).

## Model

| member | source | states |
|---|---|---|
| `Events.ValidateInput` | controller/addcontroller.go:71-82 | Validation succeeds exactly when id > 0, ip is non-empty and a well-formed IP, playback > 0 and timeframe > 0. Otherwise it reports the first failing field in declaration order (AddId, Ip, PlaybackTime, Timeframe). The tag is `required` exactly when the value is zero or empty, and `gt`/`ip` otherwise. |
| `Events.ImpressionCountsTimeframes` | controller/addcontroller.go:42-44 | For playback >= 0 and timeframe > 0, the impression is the number of whole timeframes in the playback. It is never negative, and it is 0 exactly when playback < timeframe. |
| `Decimal.Trunc` | controller/addcontroller.go:208 | Go's float-to-int conversion rounds toward zero. For x >= 0 the result n satisfies n <= x < n+1; for x < 0 it satisfies x <= n < x+1. |
| `Decimal.FormatIntRoundTrip` | controller/addcontroller.go:362-363 | The store reads back the decimal text the controller wrote into a key: ParseInt(FormatInt(n)) = Some(n) for every int n. |
| `Decimal.FormatIntInjective` | controller/addcontroller.go:97 | Different ad ids give different id texts, so their cache keys never collide. |
| `Keys.IdOfClickKey` | controller/addcontroller.go:347 | `adID[3:]` of a key matching `ad-*` is the id that rebuilds the key. |
| `Keys.ClickKeyRoundTrip` | controller/addcontroller.go:206-207 | Every `ad-<id>` key matches `ad-*`. Dropping its first 3 characters gives back `<id>`, and the stats key rebuilt from that id is `time-<id>`. |
| `Keys.KeyKindsDisjoint` | controller/addcontroller.go:280-281 | A click key never equals a stats key, and no stats key matches `ad-*`. |
| `Keys.KeysInjective` | controller/addcontroller.go:308-309 | Distinct ids give distinct click keys and distinct stats keys. |
| `Cache.HIncrBy` | controller/addcontroller.go:209 | The increment succeeds exactly when the field is absent or holds an integer. It then sets the field to the old value (0 if absent) plus the increment, keeping all other fields and keys. |
| `Cache.HSet` | controller/addcontroller.go:219 | Writes each given field, keeps the hash's other fields and leaves every other key unchanged. |
| `Cache.ParseFloat` | controller/addcontroller.go:324-333 | A stored field parses exactly when it is present and numeric. Integer and decimal fields parse to their value. |
| `Ingress.UpdateMetrics` | controller/addcontroller.go:205-224 | When the increment goes through, `ad-<id>`.clicks becomes the old count (0 if absent) plus exactly 1, and the hash's other fields are kept. If the increment fails, nothing changes and in particular no stats record is written. After a successful increment, `time-<id>` receives impression, timeframe and playbacktime when the second write succeeds, keeping its other fields and gaining no others, and is unchanged otherwise. No other key appears or changes. |
| `Durable.AddClick` | controller/addcontroller.go:178 | The counter update adds exactly 1 to the ad's clicks. It changes no other ad and creates no row for an unknown ad. |
| `Durable.ConsumeOne` | controller/addcontroller.go:147-165 | An undecodable message or a failed insert writes nothing. A successful insert appends exactly one row `(id, ip, timestamp, timeframe)`. After it, the ad's counter rises by exactly 1, and only if the counter transaction commits. |
| `Durable.ConsumeAllAppends` | controller/addcontroller.go:141-168 | The consumer loop only appends to `ads_clicks`: exactly the inserted rows, in delivery order. It never adds or removes an ad. |
| `Durable.CounterTracksRows` | controller/addcontroller.go:156-162 | While every counter transaction commits, a known ad's counter rises by exactly the number of rows inserted for it (no lost update). |
| `Durable.DrainClicksForOneAd` | controller/addcontroller.go:141-168 | N clicks for one known ad, consumed without failure, leave exactly N new rows, all for that ad, and raise its counter by exactly N. |
| `Durable.FlushKey` | controller/addcontroller.go:346-376 | Suppose the snapshot read and the transaction succeed, the key's suffix reads as an integer id and the cached clicks is an integer. Then the store's clicks for that id become the cached value: the row is inserted if absent and overwritten if present, and other ads are unchanged. Otherwise the store is unchanged. Click rows are never touched. |
| `Durable.FlushKeyIdempotent` | controller/addcontroller.go:362-363 | Flushing a key twice from the same cache leaves the store as after the first flush. |
| `Durable.FlushAllIsPatch` | controller/addcontroller.go:241-244 | A tick overwrites the counters it reaches with values that depend only on the cache and the visits. It is last-writer-wins, not additive. |
| `Durable.FlushAllIdempotent` | controller/addcontroller.go:232-245 | Running a whole tick twice over an unchanged cache leaves the store as after one tick. |
| `Durable.FlushAllSetsCachedClicks` | controller/addcontroller.go:241-244 | After a tick, an ad whose key went through, and was not flushed again later in the tick, holds the cached clicks. |
| `Durable.FlushAllKeepsOthers` | controller/addcontroller.go:241-244 | A tick leaves unchanged the counter of every ad that none of its keys reaches, and leaves the click rows unchanged. |
| `Durable.TickReachesEveryCachedAd` | controller/addcontroller.go:235-244 | Suppose a tick's visits are exactly the cache's `ad-*` keys, each visited once, and every read and transaction succeeds. Then every cached ad with an integer counter, named by no other key, ends the tick holding the cached value in the store. |
| `Rebuild.RebuildRow` | controller/addcontroller.go:280-296 | One join row overwrites `ad-<id>`.clicks with the store's clicks, whatever the cache held before. If that write fails, nothing changes. After it, `time-<id>` gets the row's impression, timeframe and playback when the second write succeeds, and keeps its old contents otherwise. The other fields of both hashes are kept. No other key appears or changes. |
| `Rebuild.RebuildAllIsOverlay` | controller/addcontroller.go:274-297 | The rebuild writes a fixed set of fields that depends only on the rows: the result is the old cache with those fields written over it. |
| `Rebuild.RebuildIdempotent` | controller/addcontroller.go:248-304 | Running the rebuild twice on the same rows gives the same cache as running it once. |
| `Rebuild.RebuildStopsAtFailure` | controller/addcontroller.go:282-296 | A failed cache write at row k ends the rebuild at that row: later rows have no effect. |
| `Analytics.Ctr` | controller/addcontroller.go:334-337 | There is a rate exactly when the impression is non-zero. The rate is never negative. It is the floor of clicks/impression*100 when that ratio is non-negative, and 0 when the ratio is below 1. |
| `Analytics.CtrIsClampedFloor` | controller/addcontroller.go:334-337 | Truncating and then clamping at zero equals max(0, floor(clicks/impression*100)). |
| `Analytics.CtrExamples` | controller/addcontroller.go:334-337 | 5 clicks over impression 2 give 250; 0 clicks give 0; impression 0 gives no rate. |
| `Analytics.ReadMetrics` | controller/addcontroller.go:319-343 | Once the counter hash is found: an unreadable stats record gives RequestTimeout. A missing or unparsable clicks or impression gives no answer. An impression of 0 gives Unavailable. Otherwise the answer carries the parsed clicks and impression and their non-negative rate. |
| `Pipeline.TicksBeforeFailure` | controller/addcontroller.go:235-239 | The scheduler runs exactly the ticks before the first failed key enumeration. |
| `Pipeline.SchedulerEndsAtEnumerationFailure` | controller/addcontroller.go:232-245 | Ticks after the first failed enumeration have no effect on the store. |
| `Pipeline.ClickPipeline.UpdateMetricsInRedis` | controller/addcontroller.go:205-224 | The new cache is `UpdateMetrics` of the old cache. The store and the topic are unchanged. |
| `Pipeline.ClickPipeline.PostClick` | controller/addcontroller.go:83-127 | An invalid event is answered with its field error and changes nothing. A valid event updates the cache whatever the publish outcome. It appends the stamped event keyed by its id text exactly when the publish succeeds, and the answer depends only on the publish. The store is never touched. |
| `Pipeline.ClickPipeline.InsertClick` | controller/addcontroller.go:192-203 | Reports success exactly when the insert succeeds, and only then appends the event's row. Counters are unchanged. |
| `Pipeline.ClickPipeline.UpdateMetaClicks` | controller/addcontroller.go:171-191 | On commit, the ad's counter rises by 1 (for a known ad). On failure, nothing changes. Rows are unchanged. |
| `Pipeline.ClickPipeline.ConsumeMessage` | controller/addcontroller.go:147-165 | The new store is `ConsumeOne` of the old store. The cache and the topic are unchanged. |
| `Pipeline.ClickPipeline.RunConsumer` | controller/addcontroller.go:141-168 | The loop handles every delivery in order and never stops on a failure: the new store is `ConsumeAll` of the old store. |
| `Pipeline.ClickPipeline.FlushMetricsToSql` | controller/addcontroller.go:346-376 | The new store is `FlushKey` of the old store, and the cache is left intact. |
| `Pipeline.ClickPipeline.FlushTick` | controller/addcontroller.go:232-245 | Visits every enumerated `ad-*` key once, in order, giving `FlushAll`. A failed enumeration flushes nothing and ends the scheduler. |
| `Pipeline.ClickPipeline.RunFlushScheduler` | controller/addcontroller.go:227-246 | Runs ticks until the first failed enumeration. It returns how many ticks ran, and the store is the result of those ticks. The cache is unchanged. |
| `Pipeline.ClickPipeline.FetchFromDb` | controller/addcontroller.go:248-304 | The new cache is `RebuildAll` of the old cache over the join's rows. The store is unchanged. |
| `Pipeline.ClickPipeline.GetAnalytics` | controller/addcontroller.go:306-344 | A failed or empty counter read triggers a rebuild and answers NotFound. Otherwise the answer is `ReadMetrics` and the cache is unchanged. |
| `Scenario.ClickThenConsume` | controller/addcontroller.go:83-127 | A click for ad 42 with playback 50 and timeframe 25 is accepted, and the cached counter becomes 1 and the impression 2. Once the click is consumed, the last row is the click's row and ad 42's stored counter has risen by one. |

## Left out

- JSON encoding and decoding (`controller/addcontroller.go:101`, `:148`) are library code. A delivery carries the decoded event, or None when reading or decoding failed. The encode failure at `:102-105` is not modelled.
- The Redis, Kafka and MySQL clients, gin's request and response plumbing, `GetAds` (`:45-70`) and logging are left out. Each command that can fail is a boolean outcome parameter.
- Concurrency is not modelled; each operation is one sequential step, and ingress, consumer and flush steps interleave only at method boundaries. In the ingress handler the cache update goroutine (`:96-99`) runs alongside the encode and the publish, and is awaited only after the 200 answer (`:126`), never on the early returns at `:104` and `:123`. Running it first is sound because the cache update and the publish touch disjoint stores. The consumer loop (`:141-167`) is a standing goroutine: `KafkaConsumer` returns right after starting it, nothing ever waits for it, and it runs alongside the HTTP handlers and the flush scheduler. Only its per-message goroutine (`:156-162`) is awaited (`:164`). The model represents that concurrency by letting consumer steps interleave with the other operations at method boundaries. The goroutines at `:240-244` and `:313-315` are awaited before their caller goes on.
- The hangs caused by one-shot signals are not reproduced; the model continues instead:
  - a failed counter transaction makes the consumer wait forever at `:160`;
  - a failed flush transaction makes the tick wait forever at `:243`;
  - a failed rebuild write makes `GetAnalytics` wait forever at `:315`.
- A flush of an empty snapshot signals once and then runs a statement that fails (`:353-355`). The model treats it as a no-op.
- The ticker interval and timing are left out. The scheduler and the consumer run over finite sequences of ticks and deliveries.
- The rebuild query text (`:249-266`) is left out, and so is its failure (`:268-271`): the Go code only logs it and then calls `rows.Next()` on a nil result set, which panics inside the goroutine started at `:314`; nothing recovers that panic, so the process crashes. The query's rows are an input sequence, and a row that fails to scan is an input marked as such.
- Decimal.Trunc: the int64 range is not modelled. Go's `int(x)` (`:208`, `:334`) gives an implementation-dependent value when x lies outside the int64 range (math.MinInt64 on amd64); the model truncates to the exact unbounded integer.
- Events.ImpressionCountsTimeframes: holds for unbounded integers only. A playback of 1e19 over a timeframe of 1 passes validation, and Go would then store a negative impression on amd64, while the lemma gives 10^19.
- Cache.HIncrBy: `HINCRBY` refuses an increment that would overflow a signed 64-bit integer; the model has unbounded counters and accepts it.
- Float64 arithmetic is idealised as exact real arithmetic, with no rounding, NaN or infinities. Impression 0 makes `Analytics.Ctr` return no rate and the read answer `Unavailable`; Go would convert ±Inf or NaN to an int in a platform-specific way.
- Pipeline.ClickPipeline.FetchFromDb: requires every scanned row to have a non-zero timeframe, for the same reason. The only producer of `ads_clicks` rows, the ingress handler, validates timeframe > 0.
- Pipeline.ClickPipeline.UpdateMetricsInRedis: requires a non-zero timeframe, which its only caller guarantees by validating it first.
- Cache field text is abstracted into `Int`, `Dec` and `NonNumeric`. The stored timeframe and playback are always `Dec`, although the Redis client writes an integral float such as 25.0 as the text `25`; nothing reads these two fields back, so the choice does not affect any result. The flush treats a non-integral numeric counter as refused by the store; MySQL would round it. Only an outside writer could store such a value.
- `Decimal.ParseInt` accepts an optional minus sign followed by digits. The other forms MySQL coerces to an integer, such as a leading `+` or surrounding spaces, are not modelled.
- The validator library's IP check is the parameter `isIp`, and `time.Now()` is the parameter `now`. The panic message text is kept as its (field, tag) pair.
- The `image_url` and `target_url` columns are not modelled, and neither are NULL counters or keys of a non-hash type.
