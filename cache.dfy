/**
 * The aggregate cache as the controller uses it: a keyspace of hashes with
 * the three hash commands it issues (read all fields, increment a field,
 * set fields). Connection failures are decided by the caller; these
 * functions give the effect of a command that reaches the cache.
 */
module Cache {
  import opened Wrappers

  /**
   * A stored hash field. The cache keeps text; `Int` stands for the text of an
   * integer, `Dec` for other text a float parser accepts, `NonNumeric` for
   * text it rejects.
   */
  datatype Field = Int(i: int) | Dec(r: real) | NonNumeric(text: string)

  type Hash = map<string, Field>

  type Keyspace = map<string, Hash>

  datatype CacheError = NotAnInteger

  /** `HGETALL key`: the fields of a hash; a missing key reads as the empty hash. */
  function HGetAll(ks: Keyspace, key: string): Hash {
    if key in ks then ks[key] else map[]
  }

  /**
   * `HSET key f1 v1 f2 v2 ...`: each given field is overwritten, the other
   * fields of the hash and every other key are kept.
   */
  function HSet(ks: Keyspace, key: string, fields: Hash): (r: Keyspace)
    ensures r.Keys == ks.Keys + {key}
    ensures forall f :: f in fields ==> f in r[key] && r[key][f] == fields[f]
    ensures forall f :: f in HGetAll(ks, key) && f !in fields ==> f in r[key] && r[key][f] == ks[key][f]
    ensures forall f :: f in r[key] ==> f in fields || f in HGetAll(ks, key)
    ensures forall k :: k in ks && k != key ==> r[k] == ks[k]
  {
    ks[key := HGetAll(ks, key) + fields]
  }

  /**
   * `HINCRBY key field delta`: atomically adds `delta` to an integer field, a missing
   * field counting as 0; a field holding anything but an integer is refused
   * and nothing changes.
   */
  function HIncrBy(ks: Keyspace, key: string, field: string, delta: int): (r: Result<Keyspace, CacheError>)
    ensures r.Ok? <==> field !in HGetAll(ks, key) || HGetAll(ks, key)[field].Int?
    ensures r.Ok? ==>
      var before := if field in HGetAll(ks, key) then HGetAll(ks, key)[field].i else 0;
      && r.value.Keys == ks.Keys + {key}
      && field in r.value[key] && r.value[key][field] == Int(before + delta)
      && (forall f :: f in r.value[key] && f != field ==> f in HGetAll(ks, key) && r.value[key][f] == ks[key][f])
      && (forall f :: f in HGetAll(ks, key) ==> f in r.value[key])
      && (forall k :: k in ks && k != key ==> r.value[k] == ks[k])
  {
    var h := HGetAll(ks, key);
    if field !in h then Ok(HSet(ks, key, map[field := Int(delta)]))
    else match h[field]
      case Int(i) => Ok(HSet(ks, key, map[field := Int(i + delta)]))
      case _ => Err(NotAnInteger)
  }

  /**
   * `strconv.ParseFloat` of a field as read through a Go map: an absent field
   * reads as the empty string, which does not parse.
   */
  function ParseFloat(h: Hash, field: string): (r: Option<real>)
    ensures r.Some? <==> field in h && !h[field].NonNumeric?
    ensures field in h && h[field].Int? ==> r == Some(h[field].i as real)
    ensures field in h && h[field].Dec? ==> r == Some(h[field].r)
  {
    if field !in h then None
    else match h[field]
      case Int(i) => Some(i as real)
      case Dec(x) => Some(x)
      case NonNumeric(_) => None
  }
}
