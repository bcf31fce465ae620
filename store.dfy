/**
 * The two collections the user service works on, under one congregation:
 * pending signups and user records, each keyed by a store-generated key,
 * and the store's `update` (merge) operation.
 */
module Store {
  import opened JsValues

  /** A pending registration, as the service receives it (with its `$key`). */
  datatype Signup = Signup(key: Key, name: JsString, phone: JsString, password: JsString)

  /** What a record in the users collection looks like: it has some field and no `$key`. */
  predicate StoredRecord(r: Record) {
    r != map[] && KeyField !in r
  }

  /** `users.filter(el => el.username === name).length` is non-zero. */
  predicate Taken(users: map<Key, Record>, name: JsString) {
    exists k :: k in users && Lookup(users[k], UsernameField) == Some(name)
  }

  /**
   * `users.filter(el => el.$key !== userKey && el.username === name).length`
   * is non-zero. Both sides of each comparison may be `undefined`.
   */
  predicate TakenByOther(users: map<Key, Record>, userKey: Option<Key>, name: Option<JsString>) {
    exists k :: k in users && Some(k) != userKey && Lookup(users[k], UsernameField) == name
  }

  /** No two records carry the same username. */
  ghost predicate UniqueUsernames(users: map<Key, Record>) {
    forall k1, k2 :: k1 in users && k2 in users && k1 != k2 && UsernameField in users[k1] ==>
      Lookup(users[k2], UsernameField) != Some(users[k1][UsernameField])
  }

  /**
   * `object(path).update(payload)`: the payload's fields overwrite those of
   * the record at `key`, every other field stays; an absent record is created
   * from the payload unless the payload is empty.
   */
  function MergeAt(users: map<Key, Record>, key: Key, payload: Record): (r: map<Key, Record>)
    ensures forall k :: k != key ==> (k in r <==> k in users)
    ensures forall k :: k != key && k in users ==> r[k] == users[k]
    ensures key in r <==> key in users || payload != map[]
    ensures key in r ==> forall f :: f in r[key] <==> f in payload || (key in users && f in users[key])
    ensures key in r ==> forall f :: f in payload ==> r[key][f] == payload[f]
    ensures key in users ==> forall f :: f in users[key] && f !in payload ==> r[key][f] == users[key][f]
  {
    if key in users then users[key := users[key] + payload]
    else if payload == map[] then users
    else users[key := payload]
  }

  /** A merge of a payload without `$key` keeps every record stored-shaped. */
  lemma MergeKeepsRecordsStored(users: map<Key, Record>, key: Key, payload: Record)
    requires forall k :: k in users ==> StoredRecord(users[k])
    requires KeyField !in payload
    ensures var after := MergeAt(users, key, payload);
            forall k :: k in after ==> StoredRecord(after[k])
  {
  }
}
