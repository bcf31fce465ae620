/**
 * `UserService`: the signups and users collections of the caller's
 * congregation, held as two maps, and the operations that read them, approve
 * a signup, update a user and remove entries.
 *
 * Each collision check runs on a snapshot of the users collection taken
 * before the write. Whether a store write succeeds is given as a parameter.
 */
module UserServiceModel {
  import opened JsValues
  import opened Store
  import opened Approval
  import opened Update

  /** The caller's `user` object; `updateUser` deletes properties from it in place. */
  class User {
    var fields: Record

    constructor (fields: Record)
      ensures this.fields == fields
    {
      this.fields := fields;
    }
  }

  /** What `resetPassword` hands to the credential service: `changePassword(account, credential)`. */
  datatype CredentialChange = CredentialChange(account: Option<Key>, credential: Option<JsString>)

  class UserService {
    /** `/signup/{congregation}/` */
    var signups: map<Key, Signup>
    /** `{congregation}/users` */
    var users: map<Key, Record>

    /**
     * The store's own shape rule for the users collection: a stored node is
     * never empty (the store drops empty nodes) and never has a `$key` child.
     */
    ghost predicate Valid()
      reads this
    {
      forall k :: k in users ==> StoredRecord(users[k])
    }

    constructor (signups: map<Key, Signup>, users: map<Key, Record>)
      requires forall k :: k in users ==> StoredRecord(users[k])
      ensures Valid()
      ensures this.signups == signups && this.users == users
    {
      this.signups := signups;
      this.users := users;
    }

    /** `getSignups`: the pending signups as they stand; nothing changes. */
    method GetSignups() returns (snapshot: map<Key, Signup>)
      ensures snapshot == signups
    {
      snapshot := signups;
    }

    /** `getUsers`: the user records as they stand; nothing changes. */
    method GetUsers() returns (snapshot: map<Key, Record>)
      ensures snapshot == users
    {
      snapshot := users;
    }

    /**
     * `approveUser`: build the member record, resolve its username against a
     * snapshot, push it under the store-generated `newKey`, and only when the
     * push resolves remove the signup.
     */
    method ApproveUser(signup: Signup, newKey: Key, pushSucceeds: bool, removeSucceeds: bool)
      returns (done: Promise<()>)
      requires Valid()
      requires newKey !in users
      requires Taken(users, signup.phone) ==> SuffixAvailable(users, signup.phone)
      modifies this
      ensures Valid()
      ensures done.Resolved? <==> pushSucceeds && removeSucceeds
      ensures !pushSucceeds ==> users == old(users) && signups == old(signups)
      ensures pushSucceeds ==> newKey in users && users == old(users)[newKey := users[newKey]]
      ensures pushSucceeds ==> UsernameField in users[newKey]
      ensures pushSucceeds ==> IsResolvedUsername(old(users), signup.phone, users[newKey][UsernameField])
      ensures pushSucceeds ==> users[newKey] == MemberRecord(signup)[UsernameField := users[newKey][UsernameField]]
      ensures pushSucceeds ==> !Taken(old(users), users[newKey][UsernameField])
      ensures pushSucceeds ==> signups == if removeSucceeds then old(signups) - {signup.key} else old(signups)
      ensures old(UniqueUsernames(users)) ==> UniqueUsernames(users)
    {
      var user := MemberRecord(signup);
      var snapshot := GetUsers();
      var username := ResolveUsername(snapshot, user[UsernameField]);
      user := user[UsernameField := username];
      if !pushSucceeds {
        return Rejected;
      }
      if UniqueUsernames(users) {
        ApprovalKeepsUsernamesUnique(users, newKey, signup, username);
      }
      users := users[newKey := user];
      done := RemoveSignup(signup.key, removeSucceeds);
    }

    /** `removeSignup(key)`: delete that one signup; an absent key is a no-op. */
    method RemoveSignup(key: Key, succeeds: bool) returns (done: Promise<()>)
      modifies this
      ensures users == old(users)
      ensures signups == if succeeds then old(signups) - {key} else old(signups)
      ensures done.Resolved? <==> succeeds
    {
      if !succeeds {
        return Rejected;
      }
      signups := signups - {key};
      done := Resolved(());
    }

    /**
     * `resetPassword(user)`: forward the user's key and username to the
     * credential service. No stored field is touched.
     */
    method ResetPassword(user: User) returns (request: CredentialChange)
      ensures request.account == Lookup(user.fields, KeyField)
      ensures request.credential == Lookup(user.fields, UsernameField)
    {
      request := CredentialChange(Lookup(user.fields, KeyField), Lookup(user.fields, UsernameField));
    }

    /**
     * `updateUser(user)`: strip `$key` and a truthy `password` from the
     * caller's object, strip `username` when another record in the snapshot
     * has it, merge what remains into the record at the caller's key, and
     * resolve with whether `username` was kept.
     */
    method UpdateUser(user: User, writeSucceeds: bool) returns (done: Promise<bool>)
      requires Valid()
      modifies this, user
      ensures Valid()
      ensures user.fields == StrippedPayload(old(users), old(user.fields))
      ensures signups == old(signups)
      ensures writeSucceeds ==> users == MergeAt(old(users), TargetKey(old(user.fields)), user.fields)
      ensures writeSucceeds ==> done == Resolved(UsernameField in user.fields)
      ensures !writeSucceeds ==> users == old(users) && done == Rejected
      ensures old(UniqueUsernames(users)) ==> UniqueUsernames(users)
    {
      var userKey := Lookup(user.fields, KeyField);
      var target := TargetKey(user.fields);
      user.fields := user.fields - {KeyField};
      if Truthy(Lookup(user.fields, PasswordField)) {
        user.fields := user.fields - {PasswordField};
      }
      var snapshot := GetUsers();
      if TakenByOther(snapshot, userKey, Lookup(user.fields, UsernameField)) {
        user.fields := user.fields - {UsernameField};
      }
      assert user.fields == StrippedPayload(old(users), old(user.fields));
      if !writeSucceeds {
        return Rejected;
      }
      if UniqueUsernames(users) {
        UpdateKeepsUsernamesUnique(users, old(user.fields));
      }
      MergeKeepsRecordsStored(users, target, user.fields);
      users := MergeAt(users, target, user.fields);
      done := Resolved(UsernameField in user.fields);
    }

    /** `removeUser(userKey)`: delete that one record; an absent key is a no-op. */
    method RemoveUser(userKey: Key, succeeds: bool) returns (done: Promise<()>)
      requires Valid()
      modifies this
      ensures Valid()
      ensures signups == old(signups)
      ensures users == if succeeds then old(users) - {userKey} else old(users)
      ensures done.Resolved? <==> succeeds
      ensures old(UniqueUsernames(users)) ==> UniqueUsernames(users)
    {
      if !succeeds {
        return Rejected;
      }
      users := users - {userKey};
      done := Resolved(());
    }
  }
}
