/**
 * The slice of the Redis hash commands the bot uses, over an in-memory store:
 * HGETALL, HSET with a mapping, and HDEL.  As in Redis, a hash whose last
 * field is deleted disappears, and reading a missing key gives an empty hash.
 */
module RedisHash {

  type Hash = map<string, string>

  type Store = map<string, Hash>

  /** HGETALL: the fields stored under `key`, or none. */
  function HGetAll(s: Store, key: string): (h: Hash)
    ensures key in s ==> h == s[key]
    ensures NoEmptyHash(s) ==> (h == map[] <==> key !in s)
  {
    if key in s then s[key] else map[]
  }

  /** Redis never keeps an empty hash under a key. */
  predicate NoEmptyHash(s: Store) {
    forall k | k in s :: s[k] != map[]
  }

  /** Every key other than `key` reads the same in `s0` and `s1`. */
  ghost predicate OnlyKeyChanged(s0: Store, s1: Store, key: string) {
    forall k | k != key :: HGetAll(s1, k) == HGetAll(s0, k)
  }

  /** HSET key mapping: upserts the given fields and leaves the hash's other fields alone. */
  function HSet(s: Store, key: string, fields: Hash): (r: Store)
    requires fields != map[]
    ensures forall f | f in fields :: f in HGetAll(r, key) && HGetAll(r, key)[f] == fields[f]
    ensures forall f | f !in fields ::
      (f in HGetAll(r, key) <==> f in HGetAll(s, key)) &&
      (f in HGetAll(s, key) ==> HGetAll(r, key)[f] == HGetAll(s, key)[f])
    ensures OnlyKeyChanged(s, r, key)
    ensures NoEmptyHash(s) ==> NoEmptyHash(r)
  {
    s[key := HGetAll(s, key) + fields]
  }

  /** HDEL key field...: removes the named fields; a field that is not there is ignored. */
  function HDel(s: Store, key: string, names: set<string>): (r: Store)
    ensures forall f | f in names :: f !in HGetAll(r, key)
    ensures forall f | f !in names ::
      (f in HGetAll(r, key) <==> f in HGetAll(s, key)) &&
      (f in HGetAll(s, key) ==> HGetAll(r, key)[f] == HGetAll(s, key)[f])
    ensures OnlyKeyChanged(s, r, key)
    ensures NoEmptyHash(s) ==> NoEmptyHash(r)
  {
    var h := HGetAll(s, key) - names;
    if h == map[] then s - {key} else s[key := h]
  }

  /** Deleting fields none of which is present leaves a Redis store exactly as it was. */
  lemma HDelAbsentFields(s: Store, key: string, names: set<string>)
    requires NoEmptyHash(s)
    requires forall f | f in names :: f !in HGetAll(s, key)
    ensures HDel(s, key, names) == s
  {
    var h := HGetAll(s, key);
    assert h - names == h;
    if key !in s {
      assert s - {key} == s;
    }
  }

  /** Deleting the fields just written restores the hash, when none of them existed before. */
  lemma HDelUndoesHSet(s: Store, key: string, fields: Hash)
    requires NoEmptyHash(s)
    requires fields != map[]
    requires forall f | f in fields :: f !in HGetAll(s, key)
    ensures HDel(HSet(s, key, fields), key, fields.Keys) == s
  {
    var h := HGetAll(s, key);
    assert (h + fields) - fields.Keys == h;
    if key !in s {
      assert s[key := fields] - {key} == s;
    }
  }

  /** Seen as a whole hash, HSET is a right-biased union. */
  lemma HSetHash(s: Store, key: string, fields: Hash)
    requires fields != map[]
    ensures HGetAll(HSet(s, key, fields), key) == HGetAll(s, key) + fields
  {
  }

  /** Seen as a whole hash, HDEL is a difference. */
  lemma HDelHash(s: Store, key: string, names: set<string>)
    ensures HGetAll(HDel(s, key, names), key) == HGetAll(s, key) - names
  {
  }

  /** Two writes to the same key change no other key. */
  lemma OnlyKeyChangedTrans(s0: Store, s1: Store, s2: Store, key: string)
    requires OnlyKeyChanged(s0, s1, key) && OnlyKeyChanged(s1, s2, key)
    ensures OnlyKeyChanged(s0, s2, key)
  {
  }
}
