/**
 * The durable store and the two ways the pipeline writes it: the consumer,
 * which appends a click row and bumps the ad's counter per message, and the
 * flush, which overwrites an ad's counter with the cached value.
 */
module Durable {
  import opened Wrappers
  import opened Events
  import opened Cache
  import opened Keys
  import Decimal

  /** `metadata_ads.clicks` by ad id, and the `ads_clicks` table in insertion order. */
  datatype Store = Store(adClicks: map<int, int>, clickRows: seq<ClickRow>)

  /**
   * One message as the consumer handles it: `event` is the decoded click, or
   * None when reading or decoding the message failed; `insertOk` and
   * `updateOk` say whether the row insert and the counter transaction succeed.
   */
  datatype Delivery = Delivery(event: Option<ClickEvent>, insertOk: bool, updateOk: bool)

  /** `UPDATE metadata_ads SET clicks = clicks + 1 WHERE id = ?`, which matches no row for an unknown ad. */
  function AddClick(adClicks: map<int, int>, id: int): (r: map<int, int>)
    ensures r.Keys == adClicks.Keys
    ensures forall a :: a in r ==> r[a] == adClicks[a] + (if a == id then 1 else 0)
  {
    if id in adClicks then adClicks[id := adClicks[id] + 1] else adClicks
  }

  /** The delivery inserts a row. */
  predicate Inserts(d: Delivery) {
    d.event.Some? && d.insertOk
  }

  /** The delivery inserts a row for ad `a` and then commits the counter update. */
  predicate Counts(d: Delivery, a: int) {
    Inserts(d) && d.updateOk && d.event.value.adId == a
  }

  /**
   * One turn of the consumer loop: insert the row (`InsertClick`), and only if
   * that succeeded add one to the counter (`updateMetaClicks`). An
   * undecodable message or a failed insert writes nothing.
   */
  function ConsumeOne(s: Store, d: Delivery): (r: Store)
    ensures !Inserts(d) ==> r == s
    ensures Inserts(d) ==> r.clickRows == s.clickRows + [RowOf(d.event.value)]
    ensures r.adClicks.Keys == s.adClicks.Keys
    ensures forall a :: a in r.adClicks ==> r.adClicks[a] == s.adClicks[a] + (if Counts(d, a) then 1 else 0)
  {
    match d.event
    case None => s
    case Some(e) =>
      if !d.insertOk then s
      else
        var counted := if d.updateOk then AddClick(s.adClicks, e.adId) else s.adClicks;
        Store(counted, s.clickRows + [RowOf(e)])
  }

  /** The consumer loop over a finite stretch of deliveries, in delivery order. */
  function ConsumeAll(s: Store, ds: seq<Delivery>): Store
    decreases |ds|
  {
    if ds == [] then s else ConsumeAll(ConsumeOne(s, ds[0]), ds[1..])
  }

  /** The rows a stretch of deliveries inserts, in order. */
  function RowsOf(ds: seq<Delivery>): seq<ClickRow> {
    if ds == [] then []
    else (if Inserts(ds[0]) then [RowOf(ds[0].event.value)] else []) + RowsOf(ds[1..])
  }

  /** How many rows are about ad `a`. */
  function CountFor(rows: seq<ClickRow>, a: int): nat {
    if rows == [] then 0 else (if rows[0].adId == a then 1 else 0) + CountFor(rows[1..], a)
  }

  lemma {:induction false} CountForAppend(x: seq<ClickRow>, y: seq<ClickRow>, a: int)
    ensures CountFor(x + y, a) == CountFor(x, a) + CountFor(y, a)
  {
    if x != [] {
      assert (x + y)[1..] == x[1..] + y;
      CountForAppend(x[1..], y, a);
    } else {
      assert x + y == y;
    }
  }

  /** The table is append-only: the consumer adds exactly the inserted rows, in delivery order. */
  lemma {:induction false} ConsumeAllAppends(s: Store, ds: seq<Delivery>)
    ensures ConsumeAll(s, ds).clickRows == s.clickRows + RowsOf(ds)
    ensures ConsumeAll(s, ds).adClicks.Keys == s.adClicks.Keys
    decreases |ds|
  {
    if ds != [] {
      ConsumeAllAppends(ConsumeOne(s, ds[0]), ds[1..]);
    }
  }

  /**
   * No lost update: as long as every counter transaction commits, the counter
   * of a known ad rises by exactly the number of rows inserted for it.
   */
  lemma {:induction false} CounterTracksRows(s: Store, ds: seq<Delivery>, a: int)
    requires a in s.adClicks
    requires forall i :: 0 <= i < |ds| ==> ds[i].updateOk
    ensures a in ConsumeAll(s, ds).adClicks
    ensures ConsumeAll(s, ds).adClicks[a] == s.adClicks[a] + CountFor(RowsOf(ds), a)
    decreases |ds|
  {
    ConsumeAllAppends(s, ds);
    if ds != [] {
      var s' := ConsumeOne(s, ds[0]);
      CounterTracksRows(s', ds[1..], a);
      var first := if Inserts(ds[0]) then [RowOf(ds[0].event.value)] else [];
      CountForAppend(first, RowsOf(ds[1..]), a);
    }
  }

  /**
   * N clicks for one known ad, each decoded and written without failure, leave
   * exactly N new rows, all for that ad, and raise its counter by exactly N.
   */
  lemma DrainClicksForOneAd(s: Store, ds: seq<Delivery>, a: int)
    requires a in s.adClicks
    requires forall i :: 0 <= i < |ds| ==>
      ds[i].event.Some? && ds[i].event.value.adId == a && ds[i].insertOk && ds[i].updateOk
    ensures |ConsumeAll(s, ds).clickRows| == |s.clickRows| + |ds|
    ensures CountFor(ConsumeAll(s, ds).clickRows, a) == CountFor(s.clickRows, a) + |ds|
    ensures a in ConsumeAll(s, ds).adClicks && ConsumeAll(s, ds).adClicks[a] == s.adClicks[a] + |ds|
  {
    ConsumeAllAppends(s, ds);
    AllRowsFor(ds, a);
    CountForAppend(s.clickRows, RowsOf(ds), a);
    CounterTracksRows(s, ds, a);
  }

  lemma {:induction false} AllRowsFor(ds: seq<Delivery>, a: int)
    requires forall i :: 0 <= i < |ds| ==>
      ds[i].event.Some? && ds[i].event.value.adId == a && ds[i].insertOk
    ensures |RowsOf(ds)| == |ds| && CountFor(RowsOf(ds), a) == |ds|
  {
    if ds != [] {
      AllRowsFor(ds[1..], a);
      assert RowsOf(ds) == [RowOf(ds[0].event.value)] + RowsOf(ds[1..]);
      CountForAppend([RowOf(ds[0].event.value)], RowsOf(ds[1..]), a);
    }
  }

  /**
   * One key of a flush tick, as the flush sees it: `readOk` says whether the
   * snapshot read reaches the cache, `txOk` whether the upsert transaction
   * commits.
   */
  datatype FlushVisit = FlushVisit(key: string, readOk: bool, txOk: bool)

  /** The snapshot the flush reads; a failed read leaves it empty. */
  function Snapshot(ks: Keyspace, v: FlushVisit): Hash {
    if v.readOk then HGetAll(ks, v.key) else map[]
  }

  /**
   * The `(id, clicks)` pair the flush's upsert writes, if the statement goes
   * through: the key suffix must be read as an integer id and the snapshot's
   * `clicks` must hold an integer (an empty snapshot binds `""`, which the
   * integer column refuses).
   */
  function Upsert(ks: Keyspace, v: FlushVisit): Option<(int, int)>
    requires IsClickKey(v.key)
  {
    var snap := Snapshot(ks, v);
    var id := Decimal.ParseInt(IdOfClickKey(v.key));
    if v.txOk && id.Some? && "clicks" in snap && snap["clicks"].Int?
    then Some((id.value, snap["clicks"].i))
    else None
  }

  /** The flush of one key goes through: both cache read and transaction succeed and both values are integers. */
  predicate FlushGoesThrough(ks: Keyspace, v: FlushVisit)
    requires IsClickKey(v.key)
  {
    var h := HGetAll(ks, v.key);
    v.readOk && v.txOk && Decimal.ParseInt(IdOfClickKey(v.key)).Some? && "clicks" in h && h["clicks"].Int?
  }

  /**
   * `FlushMetricsToSQL(key)`: insert the ad with the cached clicks, or
   * overwrite the stored clicks if it exists. Last writer wins: the stored
   * value is replaced, not added to. The click rows are never touched.
   */
  function FlushKey(s: Store, ks: Keyspace, v: FlushVisit): (r: Store)
    requires IsClickKey(v.key)
    ensures r.clickRows == s.clickRows
    ensures FlushGoesThrough(ks, v) ==>
      var id := Decimal.ParseInt(IdOfClickKey(v.key)).value;
      r.adClicks == s.adClicks[id := ks[v.key]["clicks"].i]
    ensures !FlushGoesThrough(ks, v) ==> r == s
  {
    match Upsert(ks, v)
    case None => s
    case Some((id, c)) => s.(adClicks := s.adClicks[id := c])
  }

  /** Flushing the same key twice from the same cache snapshot leaves the store as after the first flush. */
  lemma FlushKeyIdempotent(s: Store, ks: Keyspace, v: FlushVisit)
    requires IsClickKey(v.key)
    ensures FlushKey(FlushKey(s, ks, v), ks, v) == FlushKey(s, ks, v)
  {
  }

  predicate AllClickKeys(vs: seq<FlushVisit>) {
    forall i :: 0 <= i < |vs| ==> IsClickKey(vs[i].key)
  }

  /**
   * `KEYS ad-*`: the visits name every click key of the cache exactly once,
   * in the cache's own order, and nothing else.
   */
  predicate EnumeratesClickKeys(ks: Keyspace, vs: seq<FlushVisit>) {
    && AllClickKeys(vs)
    && (forall i :: 0 <= i < |vs| ==> vs[i].key in ks)
    && (forall i, j :: 0 <= i < j < |vs| ==> vs[i].key != vs[j].key)
    && (forall k :: k in ks && IsClickKey(k) ==> exists i :: 0 <= i < |vs| && vs[i].key == k)
  }

  /** One tick of the flush scheduler: the enumerated keys flushed one after another. */
  function FlushAll(s: Store, ks: Keyspace, vs: seq<FlushVisit>): Store
    requires AllClickKeys(vs)
    decreases |vs|
  {
    if vs == [] then s else FlushAll(FlushKey(s, ks, vs[0]), ks, vs[1..])
  }

  /** The counter one key writes, if any. */
  function KeyPatch(ks: Keyspace, v: FlushVisit): map<int, int>
    requires IsClickKey(v.key)
  {
    match Upsert(ks, v) case None => map[] case Some((id, c)) => map[id := c]
  }

  /** The counters a tick writes, later keys overriding earlier ones. */
  function FlushPatch(ks: Keyspace, vs: seq<FlushVisit>): map<int, int>
    requires AllClickKeys(vs)
    decreases |vs|
  {
    if vs == [] then map[] else KeyPatch(ks, vs[0]) + FlushPatch(ks, vs[1..])
  }

  lemma UnionAssoc(a: map<int, int>, b: map<int, int>, c: map<int, int>)
    ensures (a + b) + c == a + (b + c)
  {
    assert forall k :: k in (a + b) + c <==> k in a + (b + c);
    assert forall k :: k in a + (b + c) ==> ((a + b) + c)[k] == (a + (b + c))[k];
  }

  /** A tick overwrites the counters it reaches with values that depend on the cache alone. */
  lemma {:induction false} FlushAllIsPatch(s: Store, ks: Keyspace, vs: seq<FlushVisit>)
    requires AllClickKeys(vs)
    ensures FlushAll(s, ks, vs) == Store(s.adClicks + FlushPatch(ks, vs), s.clickRows)
    decreases |vs|
  {
    if vs != [] {
      var s' := FlushKey(s, ks, vs[0]);
      FlushAllIsPatch(s', ks, vs[1..]);
      var first := KeyPatch(ks, vs[0]);
      assert s'.adClicks == s.adClicks + first;
      UnionAssoc(s.adClicks, first, FlushPatch(ks, vs[1..]));
    }
  }

  /** Running a whole tick twice over an unchanged cache leaves the store as after the first tick. */
  lemma FlushAllIdempotent(s: Store, ks: Keyspace, vs: seq<FlushVisit>)
    requires AllClickKeys(vs)
    ensures FlushAll(FlushAll(s, ks, vs), ks, vs) == FlushAll(s, ks, vs)
  {
    var p := FlushPatch(ks, vs);
    FlushAllIsPatch(s, ks, vs);
    FlushAllIsPatch(FlushAll(s, ks, vs), ks, vs);
    assert (s.adClicks + p) + p == s.adClicks + p;
  }

  /**
   * After a tick, the counter of every ad whose key went through, and was not
   * flushed again later in the tick, equals the cached clicks; the counter of
   * every ad that no key reached is unchanged.
   */
  lemma {:induction false} FlushAllSetsCachedClicks(s: Store, ks: Keyspace, vs: seq<FlushVisit>, j: nat)
    requires AllClickKeys(vs)
    requires j < |vs| && FlushGoesThrough(ks, vs[j])
    requires forall k :: j < k < |vs| && FlushGoesThrough(ks, vs[k]) ==>
      Decimal.ParseInt(IdOfClickKey(vs[k].key)) != Decimal.ParseInt(IdOfClickKey(vs[j].key))
    ensures var id := Decimal.ParseInt(IdOfClickKey(vs[j].key)).value;
      id in FlushAll(s, ks, vs).adClicks && FlushAll(s, ks, vs).adClicks[id] == ks[vs[j].key]["clicks"].i
  {
    FlushAllIsPatch(s, ks, vs);
    PatchHoldsLast(ks, vs, j);
  }

  lemma {:induction false} PatchHoldsLast(ks: Keyspace, vs: seq<FlushVisit>, j: nat)
    requires AllClickKeys(vs)
    requires j < |vs| && FlushGoesThrough(ks, vs[j])
    requires forall k :: j < k < |vs| && FlushGoesThrough(ks, vs[k]) ==>
      Decimal.ParseInt(IdOfClickKey(vs[k].key)) != Decimal.ParseInt(IdOfClickKey(vs[j].key))
    ensures var id := Decimal.ParseInt(IdOfClickKey(vs[j].key)).value;
      id in FlushPatch(ks, vs) && FlushPatch(ks, vs)[id] == ks[vs[j].key]["clicks"].i
  {
    var id := Decimal.ParseInt(IdOfClickKey(vs[j].key)).value;
    if j == 0 {
      PatchMisses(ks, vs[1..], id);
    } else {
      forall k | j - 1 < k < |vs[1..]| && FlushGoesThrough(ks, vs[1..][k])
        ensures Decimal.ParseInt(IdOfClickKey(vs[1..][k].key)) != Decimal.ParseInt(IdOfClickKey(vs[1..][j - 1].key))
      {
        assert vs[1..][k] == vs[k + 1];
      }
      PatchHoldsLast(ks, vs[1..], j - 1);
    }
  }

  /** An id no going-through key maps to is absent from the patch. */
  lemma {:induction false} PatchMisses(ks: Keyspace, vs: seq<FlushVisit>, id: int)
    requires AllClickKeys(vs)
    requires forall k :: 0 <= k < |vs| && FlushGoesThrough(ks, vs[k]) ==>
      Decimal.ParseInt(IdOfClickKey(vs[k].key)) != Some(id)
    ensures id !in FlushPatch(ks, vs)
  {
    if vs != [] {
      assert FlushGoesThrough(ks, vs[0]) ==> Decimal.ParseInt(IdOfClickKey(vs[0].key)) != Some(id);
      PatchMisses(ks, vs[1..], id);
    }
  }

  /** Ads that no key of the tick reaches keep their counter. */
  lemma FlushAllKeepsOthers(s: Store, ks: Keyspace, vs: seq<FlushVisit>, id: int)
    requires AllClickKeys(vs)
    requires forall k :: 0 <= k < |vs| && FlushGoesThrough(ks, vs[k]) ==>
      Decimal.ParseInt(IdOfClickKey(vs[k].key)) != Some(id)
    ensures id in FlushAll(s, ks, vs).adClicks <==> id in s.adClicks
    ensures id in s.adClicks ==> FlushAll(s, ks, vs).adClicks[id] == s.adClicks[id]
    ensures FlushAll(s, ks, vs).clickRows == s.clickRows
  {
    FlushAllIsPatch(s, ks, vs);
    PatchMisses(ks, vs, id);
  }

  /**
   * A tick reaches every cached ad: when the visits enumerate the cache's click
   * keys and every read and transaction succeeds, an ad whose key holds an
   * integer counter, and which no other click key names, ends the tick with the
   * cached value in the store.
   */
  lemma TickReachesEveryCachedAd(s: Store, ks: Keyspace, vs: seq<FlushVisit>, key: string, id: int)
    requires EnumeratesClickKeys(ks, vs)
    requires forall i :: 0 <= i < |vs| ==> vs[i].readOk && vs[i].txOk
    requires key in ks && IsClickKey(key) && "clicks" in ks[key] && ks[key]["clicks"].Int?
    requires Decimal.ParseInt(IdOfClickKey(key)) == Some(id)
    requires forall k :: k in ks && IsClickKey(k) && k != key ==> Decimal.ParseInt(IdOfClickKey(k)) != Some(id)
    ensures id in FlushAll(s, ks, vs).adClicks && FlushAll(s, ks, vs).adClicks[id] == ks[key]["clicks"].i
  {
    var j :| 0 <= j < |vs| && vs[j].key == key;
    assert FlushGoesThrough(ks, vs[j]);
    forall k | j < k < |vs| && FlushGoesThrough(ks, vs[k])
      ensures Decimal.ParseInt(IdOfClickKey(vs[k].key)) != Decimal.ParseInt(IdOfClickKey(vs[j].key))
    {
      assert vs[k].key != key;
    }
    FlushAllSetsCachedClicks(s, ks, vs, j);
  }
}
