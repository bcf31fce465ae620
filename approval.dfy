/**
 * Turning a signup into a member record and choosing its username: the phone
 * number, or, when some record already uses it, the phone number followed by
 * one code unit found by the suffix loop of `approveUser`.
 */
module Approval {
  import opened JsValues
  import opened Store

  /** `code` starts at 'a' and is incremented before the first test, so 'b' is tried first. */
  const FirstSuffixCode := 'a' as int + 1

  /** `String.fromCharCode` repeats with this period. */
  const CodeWindow := 0x1_0000

  /** The record `approveUser` builds before resolving collisions. */
  function MemberRecord(signup: Signup): (r: Record)
    ensures r.Keys == {NameField, PhoneField, UsernameField, PasswordField, RoleField}
    ensures StoredRecord(r)
    ensures r[NameField] == signup.name && r[PhoneField] == signup.phone
    ensures r[UsernameField] == signup.phone
    ensures r[PasswordField] == signup.password && r[RoleField] == Member
  {
    map[NameField := signup.name, PhoneField := signup.phone, UsernameField := signup.phone,
        PasswordField := signup.password, RoleField := Member]
  }

  /** `user.username + String.fromCharCode(code)`. */
  function Suffixed(phone: JsString, code: int): (s: JsString)
    ensures |s| == |phone| + 1 && s[..|phone|] == phone && s[|phone|] == FromCharCode(code)
  {
    phone + [FromCharCode(code)]
  }

  /** Some one-unit suffix of `phone` is free, so the suffix loop stops. */
  ghost predicate SuffixAvailable(users: map<Key, Record>, phone: JsString) {
    exists code :: FirstSuffixCode <= code < FirstSuffixCode + CodeWindow && !Taken(users, Suffixed(phone, code))
  }

  /** `code` is where the suffix loop stops: free, and every code tried before it taken. */
  ghost predicate IsFirstFreeCode(users: map<Key, Record>, phone: JsString, code: int) {
    && FirstSuffixCode <= code
    && !Taken(users, Suffixed(phone, code))
    && forall c :: FirstSuffixCode <= c < code ==> Taken(users, Suffixed(phone, c))
  }

  /** The username `approveUser` stores for a signup with this phone, given the snapshot `users`. */
  ghost predicate IsResolvedUsername(users: map<Key, Record>, phone: JsString, username: JsString) {
    if Taken(users, phone) then
      exists code :: IsFirstFreeCode(users, phone, code) && username == Suffixed(phone, code)
    else
      username == phone
  }

  /**
   * The collision check of `approveUser` on a snapshot of the users
   * collection, with its do-while suffix loop. The loop has no bound of its
   * own; it ends because some suffix is free.
   */
  method ResolveUsername(users: map<Key, Record>, phone: JsString) returns (username: JsString)
    requires Taken(users, phone) ==> SuffixAvailable(users, phone)
    ensures IsResolvedUsername(users, phone, username)
    ensures !Taken(users, username)
  {
    username := phone;
    if Taken(users, username) {
      ghost var free :| FirstSuffixCode <= free < FirstSuffixCode + CodeWindow && !Taken(users, Suffixed(phone, free));
      var code := 'a' as int;
      code := code + 1;
      while Taken(users, username + [FromCharCode(code)])
        invariant FirstSuffixCode <= code <= free
        invariant forall c :: FirstSuffixCode <= c < code ==> Taken(users, Suffixed(phone, c))
        decreases free - code
      {
        code := code + 1;
      }
      username := username + [FromCharCode(code)];
      assert IsFirstFreeCode(users, phone, code);
    }
  }

  /** The resolved username is determined by the snapshot and the phone. */
  lemma ResolvedUsernameIsDetermined(users: map<Key, Record>, phone: JsString, u1: JsString, u2: JsString)
    requires IsResolvedUsername(users, phone, u1) && IsResolvedUsername(users, phone, u2)
    ensures u1 == u2
  {
  }

  /**
   * Pigeonhole: if every suffix code in [lo, hi) is taken, the snapshot holds
   * at least hi - lo records, one per suffix.
   */
  lemma {:induction false} TakenSuffixesNeedRecords(users: map<Key, Record>, phone: JsString, lo: int, hi: int)
    requires 0 <= lo <= hi <= CodeWindow
    requires forall c :: lo <= c < hi ==> Taken(users, Suffixed(phone, c))
    ensures hi - lo <= |users|
    decreases hi - lo
  {
    if lo < hi {
      assert Taken(users, Suffixed(phone, hi - 1));
      var k :| k in users && Lookup(users[k], UsernameField) == Some(Suffixed(phone, hi - 1));
      var rest := users - {k};
      forall c | lo <= c < hi - 1
        ensures Taken(rest, Suffixed(phone, c))
      {
        var j :| j in users && Lookup(users[j], UsernameField) == Some(Suffixed(phone, c));
        assert Suffixed(phone, c)[|phone|] != Suffixed(phone, hi - 1)[|phone|];
        assert j in rest;
      }
      TakenSuffixesNeedRecords(rest, phone, lo, hi - 1);
      assert rest.Keys == users.Keys - {k};
    }
  }

  /**
   * With fewer records than there are code units after 'a', some suffix in
   * 'b'..U+FFFF is free; in particular the suffix loop stops.
   */
  lemma SmallSnapshotLeavesSuffixFree(users: map<Key, Record>, phone: JsString)
    requires |users| < CodeWindow - FirstSuffixCode
    ensures exists code :: FirstSuffixCode <= code < CodeWindow && !Taken(users, Suffixed(phone, code))
    ensures SuffixAvailable(users, phone)
  {
    if forall c :: FirstSuffixCode <= c < CodeWindow ==> Taken(users, Suffixed(phone, c)) {
      TakenSuffixesNeedRecords(users, phone, FirstSuffixCode, CodeWindow);
    }
  }

  /**
   * When the phone is taken and the snapshot is smaller than the code-unit
   * range, the stored username is the phone followed by exactly one code
   * unit above 'a' (the loop has not wrapped around).
   */
  lemma SuffixFollowsA(users: map<Key, Record>, phone: JsString, username: JsString)
    requires |users| < CodeWindow - FirstSuffixCode
    requires Taken(users, phone) && IsResolvedUsername(users, phone, username)
    ensures |username| == |phone| + 1 && username[..|phone|] == phone
    ensures 'a' as int < username[|phone|]
  {
    var code :| IsFirstFreeCode(users, phone, code) && username == Suffixed(phone, code);
    SmallSnapshotLeavesSuffixFree(users, phone);
    var free :| FirstSuffixCode <= free < CodeWindow && !Taken(users, Suffixed(phone, free));
    assert code <= free;
  }

  /** Adding the approved record under a fresh key keeps usernames unique. */
  lemma ApprovalKeepsUsernamesUnique(users: map<Key, Record>, newKey: Key, signup: Signup, username: JsString)
    requires UniqueUsernames(users) && newKey !in users
    requires IsResolvedUsername(users, signup.phone, username)
    ensures UniqueUsernames(users[newKey := MemberRecord(signup)[UsernameField := username]])
  {
  }
}
