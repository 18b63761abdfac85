/**
 * The analytics read (`GetAnalytics`): the click-through rate of an ad,
 * computed from its cached counter and the impression of its latest stats
 * record.
 */
module Analytics {
  import opened Wrappers
  import opened Cache
  import opened Keys
  import Decimal

  /** What the handler answers. */
  datatype AnalyticsReply =
    | NotFound        // the counter was missing: a rebuild ran, the caller must retry
    | RequestTimeout  // the stats record could not be read
    | NoReply         // a stored value did not parse: the handler writes nothing, so gin sends 200 with an empty body
    | Unavailable     // the impression is 0, so there is no ratio
    | Metrics(adId: string, clicks: real, impression: real, ctr: int)

  /**
   * `int(clicks / impression * 100)`, raised to 0 when negative; no value
   * when the impression is 0.
   */
  function Ctr(clicks: real, impression: real): (r: Option<int>)
    ensures r.Some? <==> impression != 0.0
    ensures r.Some? ==> 0 <= r.value
    ensures r.Some? && 0.0 <= clicks / impression * 100.0 ==>
      r.value as real <= clicks / impression * 100.0 < r.value as real + 1.0
    ensures r.Some? && clicks / impression * 100.0 < 1.0 ==> r.value == 0
  {
    if impression == 0.0 then None
    else
      var ctr := Decimal.Trunc(clicks / impression * 100.0);
      Some(if ctr < 0 then 0 else ctr)
  }

  /**
   * Truncating and then clamping at zero is the same as flooring and then
   * clamping: the rate is max(0, floor(clicks / impression * 100)).
   */
  lemma CtrIsClampedFloor(clicks: real, impression: real)
    requires impression != 0.0
    ensures var x := (clicks / impression * 100.0).Floor;
      Ctr(clicks, impression) == Some(if x < 0 then 0 else x)
  {
  }

  /** Worked values: 5 clicks over impression 2 give 250; no clicks give 0. */
  lemma CtrExamples()
    ensures Ctr(5.0, 2.0) == Some(250)
    ensures Ctr(0.0, 2.0) == Some(0)
    ensures Ctr(3.0, 0.0) == None
  {
    assert 5.0 / 2.0 * 100.0 == 250.0;
  }

  /** A cache miss: the counter hash could not be read, or it is empty or absent. */
  predicate CacheMiss(ks: Keyspace, id: string, clicksReadOk: bool) {
    !clicksReadOk || HGetAll(ks, ClickKey(id)) == map[]
  }

  /**
   * The answer once the counter hash was found: read the stats record, parse
   * `clicks` and `impression` as floats, and compute the rate.
   */
  function ReadMetrics(ks: Keyspace, id: string, statsReadOk: bool): (r: AnalyticsReply)
    ensures r != NotFound
    ensures r == RequestTimeout <==> !statsReadOk
    ensures statsReadOk ==>
      (r == NoReply <==>
        ParseFloat(HGetAll(ks, ClickKey(id)), "clicks").None?
        || ParseFloat(HGetAll(ks, StatsKey(id)), "impression").None?)
    ensures r == Unavailable ==> ParseFloat(HGetAll(ks, StatsKey(id)), "impression") == Some(0.0)
    ensures r.Metrics? ==>
      && r.adId == id
      && ParseFloat(HGetAll(ks, ClickKey(id)), "clicks") == Some(r.clicks)
      && ParseFloat(HGetAll(ks, StatsKey(id)), "impression") == Some(r.impression)
      && r.impression != 0.0
      && 0 <= r.ctr
      && Ctr(r.clicks, r.impression) == Some(r.ctr)
  {
    if !statsReadOk then RequestTimeout
    else
      var clicks := ParseFloat(HGetAll(ks, ClickKey(id)), "clicks");
      var impression := ParseFloat(HGetAll(ks, StatsKey(id)), "impression");
      if clicks.None? || impression.None? then NoReply
      else match Ctr(clicks.value, impression.value)
        case None => Unavailable
        case Some(ctr) => Metrics(id, clicks.value, impression.value, ctr)
  }
}
