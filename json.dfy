/**
 * JSON values as the ingest function sees them after `json.loads`.
 *
 * An object is an ordered list of members, like the Python dict that
 * `json.loads` returns: keys keep their insertion order, and assigning to a
 * key that is already present replaces its value in place.
 */
module Json {

  datatype Option<T> = None | Some(value: T)

  /** Numbers are kept as their literal text: only their JSON type matters here. */
  datatype JsonValue =
    | JNull
    | JBool(b: bool)
    | JNumber(literal: string)
    | JString(s: string)
    | JArray(items: seq<JsonValue>)
    | JObject(members: seq<Member>)

  datatype Member = Member(key: string, value: JsonValue)

  /** The keys of an object, in order. */
  function Keys(ms: seq<Member>): (ks: seq<string>)
    ensures |ks| == |ms|
  {
    if ms == [] then [] else [ms[0].key] + Keys(ms[1..])
  }

  /** The `i`-th key is the key of the `i`-th member. */
  lemma {:induction false} KeysAt(ms: seq<Member>)
    ensures forall i :: 0 <= i < |ms| ==> Keys(ms)[i] == ms[i].key
  {
    if ms != [] {
      KeysAt(ms[1..]);
    }
  }

  /**
   * Membership and lookup, `key in d` and `d.get(key)`: the value of the
   * first member with this key, or `None` when there is none.
   */
  function Lookup(ms: seq<Member>, key: string): Option<JsonValue>
  {
    if ms == [] then None
    else if ms[0].key == key then Some(ms[0].value)
    else Lookup(ms[1..], key)
  }

  /** A key is found exactly when the object has a member with that key, and what is found is that member's value. */
  lemma {:induction false} LookupFinds(ms: seq<Member>, key: string)
    ensures Lookup(ms, key).None? <==> key !in Keys(ms)
    ensures Lookup(ms, key).Some? ==> Member(key, Lookup(ms, key).value) in ms
  {
    if ms != [] {
      LookupFinds(ms[1..], key);
      assert Keys(ms) == [ms[0].key] + Keys(ms[1..]);
    }
  }

  /** No key occurs twice, as in every Python dict. */
  predicate DistinctKeys(ms: seq<Member>)
  {
    forall i, j :: 0 <= i < j < |ms| ==> ms[i].key != ms[j].key
  }

  /**
   * `d[key] = value` on a dict: an existing key keeps its position and gets
   * the new value; a new key is appended at the end.
   */
  function Put(ms: seq<Member>, key: string, value: JsonValue): (r: seq<Member>)
    ensures Member(key, value) in r
    ensures |ms| <= |r| <= |ms| + 1
  {
    if ms == [] then [Member(key, value)]
    else if ms[0].key == key then [Member(key, value)] + ms[1..]
    else [ms[0]] + Put(ms[1..], key, value)
  }

  /** After assignment the key reads back the new value, and every other key reads as before. */
  lemma {:induction false} PutLookup(ms: seq<Member>, key: string, value: JsonValue)
    ensures Lookup(Put(ms, key, value), key) == Some(value)
    ensures forall k :: k != key ==> Lookup(Put(ms, key, value), k) == Lookup(ms, k)
  {
    if ms != [] && ms[0].key != key {
      PutLookup(ms[1..], key, value);
      assert Put(ms, key, value)[1..] == Put(ms[1..], key, value);
    } else if ms != [] {
      assert Put(ms, key, value)[1..] == ms[1..];
    }
  }

  /** An existing key keeps its place; a new key goes last. */
  lemma {:induction false} PutKeys(ms: seq<Member>, key: string, value: JsonValue)
    ensures Keys(Put(ms, key, value)) == if key in Keys(ms) then Keys(ms) else Keys(ms) + [key]
  {
    if ms != [] {
      var r := Put(ms, key, value);
      assert Keys(ms) == [ms[0].key] + Keys(ms[1..]);
      assert r[1..] == if ms[0].key == key then ms[1..] else Put(ms[1..], key, value);
      assert Keys(r) == [r[0].key] + Keys(r[1..]);
      if ms[0].key != key {
        PutKeys(ms[1..], key, value);
      }
    }
  }

  /** Assigning a key the dict does not hold appends one member and leaves the others as they were. */
  lemma {:induction false} PutNewKeyAppends(ms: seq<Member>, key: string, value: JsonValue)
    requires key !in Keys(ms)
    ensures Put(ms, key, value) == ms + [Member(key, value)]
  {
    if ms != [] {
      var m, rest := ms[0], ms[1..];
      assert Keys(ms) == [m.key] + Keys(rest);
      PutNewKeyAppends(rest, key, value);
      assert ms + [Member(key, value)] == [m] + (rest + [Member(key, value)]);
    }
  }

  /** Assignment keeps a dict a dict: no key is duplicated by `Put`. */
  lemma PutKeepsDistinctKeys(ms: seq<Member>, key: string, value: JsonValue)
    requires DistinctKeys(ms)
    ensures DistinctKeys(Put(ms, key, value))
  {
    var r := Put(ms, key, value);
    PutKeys(ms, key, value);
    KeysAt(ms);
    KeysAt(r);
    var ks, rks := Keys(ms), Keys(r);
    forall i, j | 0 <= i < j < |r| ensures r[i].key != r[j].key {
      assert rks[i] == r[i].key && rks[j] == r[j].key;
      if key in ks {
        assert ks[i] == ms[i].key && ks[j] == ms[j].key;
      } else {
        if j < |ms| {
          assert ks[i] == ms[i].key && ks[j] == ms[j].key;
        } else {
          assert rks[j] == key && rks[i] == ks[i];
        }
      }
    }
  }
}
