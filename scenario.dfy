/** The path of one click through the pipeline, from the endpoint to the store. */
module Scenario {
  import opened Wrappers
  import opened Events
  import opened Cache
  import opened Keys
  import opened Decimal
  import opened Durable
  import opened Pipeline

  /**
   * A click for ad 42 from 1.2.3.4 with playback 50 and timeframe 25, posted to
   * an empty cache and then consumed: the cached counter becomes 1, the stats
   * record holds impression 2, the consumer appends the click's row and the
   * stored counter of ad 42 rises by one.
   */
  method ClickThenConsume(isIp: string -> bool, now: string, storedClicks: int)
    returns (reply: ClickReply, cachedClicks: Field, cachedImpression: Field, lastRow: ClickRow, counter: int)
    requires isIp("1.2.3.4")
    ensures reply == Accepted
    ensures cachedClicks == Int(1) && cachedImpression == Int(2)
    ensures lastRow == ClickRow(42, "1.2.3.4", now, 25.0)
    ensures counter == storedClicks + 1
  {
    var p := new ClickPipeline(Store(map[42 := storedClicks], []));
    assert FormatInt(42) == "42" by {
      assert FormatNat(42) == FormatNat(4) + [DigitChar(2)];
    }
    reply := p.PostClick(ClickEvent(42, "", "1.2.3.4", 50.0, 25.0), isIp, now, true, true, true);
    assert 50.0 / 25.0 == 2.0;
    KeyKindsDisjoint("42", "42");
    cachedClicks := p.cache[ClickKey("42")]["clicks"];
    cachedImpression := p.cache[StatsKey("42")]["impression"];
    p.ConsumeMessage(Delivery(Some(p.published[0].event), true, true));
    lastRow := p.store.clickRows[|p.store.clickRows| - 1];
    counter := p.store.adClicks[42];
  }
}
