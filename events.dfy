/**
 * The click event as the ingress handler receives it, its validation rules,
 * the impression derived from it, and the row the consumer persists for it.
 */
module Events {
  import opened Wrappers
  import Decimal

  /** A click as posted by a client; `timestamp` is stamped by the server on acceptance. */
  datatype ClickEvent = ClickEvent(
    adId: int,
    timestamp: string,
    ip: string,
    playbackTime: real,
    timeframe: real)

  /** A validation failure: the struct field that broke a rule, and the rule's tag. */
  datatype FieldError = FieldError(field: string, tag: string)

  /** One row of the `ads_clicks` table. */
  datatype ClickRow = ClickRow(adId: int, ip: string, timestamp: string, timeframe: real)

  /**
   * The struct-tag validation of a click. Fields are checked in declaration
   * order and the first broken rule is reported; within a field `required`
   * (the zero value is refused) is checked before `gt=0` or `ip`.
   * `isIp` stands for the validator library's IP-address check.
   */
  function ValidateInput(e: ClickEvent, isIp: string -> bool): (r: Result<ClickEvent, FieldError>)
    ensures r.Ok? <==> 0 < e.adId && e.ip != "" && isIp(e.ip) && 0.0 < e.playbackTime && 0.0 < e.timeframe
    ensures r.Ok? ==> r.value == e
    ensures r.Err? && r.error.field == "AddId" ==>
      e.adId <= 0 && (r.error.tag == "required" || r.error.tag == "gt")
      && (r.error.tag == "required" <==> e.adId == 0)
    ensures r.Err? && r.error.field == "Ip" ==>
      0 < e.adId && !(e.ip != "" && isIp(e.ip)) && (r.error.tag == "required" || r.error.tag == "ip")
      && (r.error.tag == "required" <==> e.ip == "")
    ensures r.Err? && r.error.field == "PlaybackTime" ==>
      0 < e.adId && e.ip != "" && isIp(e.ip) && e.playbackTime <= 0.0
      && (r.error.tag == "required" || r.error.tag == "gt")
      && (r.error.tag == "required" <==> e.playbackTime == 0.0)
    ensures r.Err? && r.error.field == "Timeframe" ==>
      0 < e.adId && e.ip != "" && isIp(e.ip) && 0.0 < e.playbackTime && e.timeframe <= 0.0
      && (r.error.tag == "required" || r.error.tag == "gt")
      && (r.error.tag == "required" <==> e.timeframe == 0.0)
    ensures r.Err? ==> r.error.field in {"AddId", "Ip", "PlaybackTime", "Timeframe"}
  {
    if e.adId == 0 then Err(FieldError("AddId", "required"))
    else if e.adId < 0 then Err(FieldError("AddId", "gt"))
    else if e.ip == "" then Err(FieldError("Ip", "required"))
    else if !isIp(e.ip) then Err(FieldError("Ip", "ip"))
    else if e.playbackTime == 0.0 then Err(FieldError("PlaybackTime", "required"))
    else if e.playbackTime < 0.0 then Err(FieldError("PlaybackTime", "gt"))
    else if e.timeframe == 0.0 then Err(FieldError("Timeframe", "required"))
    else if e.timeframe < 0.0 then Err(FieldError("Timeframe", "gt"))
    else Ok(e)
  }

  /**
   * `int(playback / timeframe)`: how many whole timeframes the playback spans.
   * Zero whenever the playback is shorter than one timeframe.
   */
  function Impression(playbackTime: real, timeframe: real): int
    requires timeframe != 0.0
  {
    Decimal.Trunc(playbackTime / timeframe)
  }

  /**
   * For the positive values validation admits, the impression is the number of
   * whole timeframes in the playback: never negative, and zero exactly when the
   * playback is shorter than one timeframe.
   */
  lemma ImpressionCountsTimeframes(playbackTime: real, timeframe: real)
    requires 0.0 <= playbackTime && 0.0 < timeframe
    ensures var n := Impression(playbackTime, timeframe);
      0 <= n && n as real * timeframe <= playbackTime < (n + 1) as real * timeframe
    ensures Impression(playbackTime, timeframe) == 0 <==> playbackTime < timeframe
  {
    var q := playbackTime / timeframe;
    var n := Impression(playbackTime, timeframe);
    assert q * timeframe == playbackTime;
    assert n as real <= q < (n + 1) as real;
    MulMonotone(n as real, q, timeframe);
    MulStrict(q, (n + 1) as real, timeframe);
    assert playbackTime < (n + 1) as real * timeframe;
    if 1.0 <= q {
      MulMonotone(1.0, q, timeframe);
    }
  }

  lemma MulMonotone(a: real, b: real, c: real)
    requires a <= b && 0.0 < c
    ensures a * c <= b * c
  {
  }

  lemma MulStrict(a: real, b: real, c: real)
    requires a < b && 0.0 < c
    ensures a * c < b * c
  {
  }

  /** The `ads_clicks` row the consumer inserts for an event. */
  function RowOf(e: ClickEvent): ClickRow {
    ClickRow(e.adId, e.ip, e.timestamp, e.timeframe)
  }
}
