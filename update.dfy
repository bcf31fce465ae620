/**
 * The partial update of `updateUser`: which of the caller's fields are
 * written, and what the users collection looks like after the merge.
 */
module Update {
  import opened JsValues
  import opened Store

  /** JavaScript truthiness of a string-valued property: present and not empty. */
  predicate Truthy(v: Option<JsString>) {
    v.Some? && v.value != []
  }

  /** The path segment `${userKey}`: the caller's `$key`, or the text "undefined" without one. */
  function TargetKey(user: Record): (k: Key)
    ensures KeyField in user ==> k == user[KeyField]
    ensures KeyField !in user ==> k == Undefined
  {
    if KeyField in user then user[KeyField] else Undefined
  }

  /**
   * The caller's object after `updateUser` has deleted `$key`, a truthy
   * `password`, and a `username` that another record in the snapshot
   * `users` already carries. This object is the update payload.
   */
  function StrippedPayload(users: map<Key, Record>, user: Record): (payload: Record)
    ensures KeyField !in payload
    ensures forall f :: f in payload ==> f in user && payload[f] == user[f]
    ensures forall f :: f in user && f != KeyField && f != PasswordField && f != UsernameField ==> f in payload
    ensures PasswordField in payload <==> PasswordField in user && user[PasswordField] == []
    ensures UsernameField in payload <==>
      UsernameField in user && !TakenByOther(users, Lookup(user, KeyField), Some(user[UsernameField]))
  {
    var userKey := Lookup(user, KeyField);
    var withoutKey := user - {KeyField};
    var withoutPassword :=
      if Truthy(Lookup(withoutKey, PasswordField)) then withoutKey - {PasswordField} else withoutKey;
    if TakenByOther(users, userKey, Lookup(withoutPassword, UsernameField))
    then withoutPassword - {UsernameField}
    else withoutPassword
  }

  /** The users collection after a successful `updateUser(user)` against the snapshot `users`. */
  function UpdatedUsers(users: map<Key, Record>, user: Record): map<Key, Record>
  {
    MergeAt(users, TargetKey(user), StrippedPayload(users, user))
  }

  /**
   * A truthy password never reaches the store: the stored password of the
   * target record is what it was. An empty password is not truthy, so it
   * is written.
   */
  lemma UpdatePasswordRule(users: map<Key, Record>, user: Record)
    ensures var key := TargetKey(user);
            var after := UpdatedUsers(users, user);
            Truthy(Lookup(user, PasswordField)) && key in users ==>
              key in after && Lookup(after[key], PasswordField) == Lookup(users[key], PasswordField)
    ensures var key := TargetKey(user);
            var after := UpdatedUsers(users, user);
            Lookup(user, PasswordField) == Some([]) ==>
              key in after && Lookup(after[key], PasswordField) == Some([])
  {
  }

  /**
   * The boolean `updateUser` resolves with (whether `username` survived in
   * the payload) says whether the stored username now is the caller's: true
   * exactly when no other record had it, and then the target record holds it.
   */
  lemma UpdateReportsUsername(users: map<Key, Record>, user: Record)
    ensures var payload := StrippedPayload(users, user);
            UsernameField in payload <==>
              UsernameField in user && !TakenByOther(users, Lookup(user, KeyField), Lookup(user, UsernameField))
    ensures var payload := StrippedPayload(users, user);
            var key := TargetKey(user);
            var after := UpdatedUsers(users, user);
            UsernameField in payload ==> key in after && after[key][UsernameField] == user[UsernameField]
    ensures var payload := StrippedPayload(users, user);
            var key := TargetKey(user);
            var after := UpdatedUsers(users, user);
            UsernameField !in payload && key in users ==>
              key in after && Lookup(after[key], UsernameField) == Lookup(users[key], UsernameField)
  {
  }

  /** An update never gives a record a username another record already carries. */
  lemma UpdateKeepsUsernamesUnique(users: map<Key, Record>, user: Record)
    requires UniqueUsernames(users)
    ensures UniqueUsernames(UpdatedUsers(users, user))
  {
  }
}
