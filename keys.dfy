/**
 * Cache key layout: `ad-<id>` names the hash holding an ad's `clicks`,
 * `time-<id>` the hash holding its latest `impression`, `timeframe` and
 * `playbacktime`. The flush recovers `<id>` by dropping the 3-character prefix.
 */
module Keys {

  function ClickKey(id: string): string {
    "ad-" + id
  }

  function StatsKey(id: string): string {
    "time-" + id
  }

  /** The keys the cache's `KEYS ad-*` enumeration returns. */
  predicate IsClickKey(k: string) {
    3 <= |k| && k[..3] == "ad-"
  }

  /** `adID[3:]`: the id part of a click key. */
  function IdOfClickKey(k: string): (id: string)
    requires IsClickKey(k)
    ensures ClickKey(id) == k
  {
    k[3..]
  }

  /**
   * Round trip: every click key the controller builds is found by the `ad-*`
   * enumeration, dropping its prefix gives back the id, and the stats key
   * rebuilt from that id is the ad's stats key.
   */
  lemma ClickKeyRoundTrip(id: string)
    ensures IsClickKey(ClickKey(id))
    ensures IdOfClickKey(ClickKey(id)) == id
    ensures StatsKey(IdOfClickKey(ClickKey(id))) == StatsKey(id)
  {
    assert ClickKey(id)[3..] == id;
  }

  /** The two kinds of key never coincide, so one ad's records never overwrite each other. */
  lemma {:induction false} KeyKindsDisjoint(a: string, b: string)
    ensures ClickKey(a) != StatsKey(b)
    ensures !IsClickKey(StatsKey(b))
  {
    assert ClickKey(a)[0] == 'a' && StatsKey(b)[0] == 't';
    assert StatsKey(b)[..3] == "tim";
  }

  /** Different ids give different keys of each kind. */
  lemma KeysInjective(a: string, b: string)
    requires a != b
    ensures ClickKey(a) != ClickKey(b) && StatsKey(a) != StatsKey(b)
  {
    assert ClickKey(a)[3..] == a && ClickKey(b)[3..] == b;
    assert StatsKey(a)[5..] == a && StatsKey(b)[5..] == b;
  }
}
