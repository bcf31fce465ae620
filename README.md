# CongAssist user service, modelled in Dafny

This project models `UserService` of CongAssist. The service manages the membership records of one congregation in a hosted key-value store. It turns pending signups into member accounts. It picks a username that no other account uses, applies partial updates to accounts, and deletes signups and accounts.

The store, under the caller's congregation, is a class `UserService` with two map fields:

- `signups`: store key to `Signup`;
- `users`: store key to a record, a map from property name to string.

JavaScript strings are sequences of UTF-16 code units (`JsValues.JsString`), because `String.fromCharCode` reduces its argument modulo 2^16. A property that is absent reads as `undefined` (`JsValues.Lookup`). The caller's `user` object, which `updateUser` edits in place, is a class `User` whose `fields` the method reassigns.

Modules:

- `JsValues`: strings, records, `undefined`, and promises.
- `Store`: signups, the collision predicates, username uniqueness, and the store's merging `update`.
- `Approval`: the member record and the suffix loop of `approveUser`, with its termination and freshness lemmas.
- `Update`: the payload of `updateUser` and what the merge does with it.
- `Scenarios`: worked examples on concrete collections.
- `UserServiceModel`: the `UserService` class and its operations.

The suffix loop is modelled as written. `code` starts at `'a'` and is incremented before the first test, so the first suffix tried is `'b'` and `'a'` is tried only after the code has wrapped around. One might expect `'a'` to be the first suffix; the code never tries it first, and `Scenarios.SuffixASkipped` shows this. Nothing stops the loop at `'z'`. It ends only because some one-unit suffix is free. `Approval.SmallSnapshotLeavesSuffixFree` proves that this holds whenever the collection has fewer than 65438 records.

## Model

| member | source | states |
|---|---|---|
| `UserServiceModel.UserService.GetSignups` | src/app/services/user.service.ts:20-23 | returns the pending signups as they stand, without changing anything |
| `UserServiceModel.UserService.GetUsers` | src/app/services/user.service.ts:61-64 | returns the user records as they stand, without changing anything |
| `UserServiceModel.UserService.ApproveUser` | src/app/services/user.service.ts:32-53 | a failed push changes neither collection. A successful push adds exactly one record, under a key not present before, and leaves every existing record unchanged. The record is the member record with the resolved username, which no record in the snapshot carried. The signup is removed only after the push, and only if the removal succeeds. The promise resolves iff both writes succeed. Unique usernames stay unique. |
| `UserServiceModel.UserService.RemoveSignup` | src/app/services/user.service.ts:73-76 | on success deletes exactly that key from the signups (a no-op when absent); the users collection is unchanged |
| `UserServiceModel.UserService.ResetPassword` | src/app/services/user.service.ts:85-87 | forwards the object's `$key` and `username` to the credential service as account and new credential; it has no modifies clause, so no stored field changes |
| `UserServiceModel.UserService.UpdateUser` | src/app/services/user.service.ts:96-110 | the caller's object loses `$key`, a truthy password, and a username another record has. What remains is merged into the record at the caller's key, and the signups are unchanged. The promise resolves with whether `username` survived; a failed write changes no record. The store keeps no `$key` and keeps unique usernames unique. |
| `UserServiceModel.UserService.RemoveUser` | src/app/services/user.service.ts:119-122 | on success deletes exactly that key from the users (a no-op when absent); the signups are unchanged and uniqueness is kept |
| `JsValues.FromCharCode` | src/app/services/user.service.ts:47-48 | yields the code itself inside 0..0xFFFF and otherwise the code modulo 2^16 |
| `Approval.MemberRecord` | src/app/services/user.service.ts:34-40 | the record has exactly the five fields. `name`, `phone` and `password` come from the signup, `username` is the phone, and `role` is "member". It has no `$key`. |
| `Approval.Suffixed` | src/app/services/user.service.ts:47-48 | the candidate is the phone followed by exactly one code unit, `String.fromCharCode(code)` |
| `Approval.ResolveUsername` | src/app/services/user.service.ts:42-50 | an untaken phone is the username unchanged. A taken phone gets the suffix of the first free code from 'b' upward, every earlier code being taken. The result is carried by no record of the snapshot. |
| `Approval.ResolvedUsernameIsDetermined` | src/app/services/user.service.ts:43-48 | the snapshot and the phone determine the chosen username |
| `Approval.TakenSuffixesNeedRecords` | src/app/services/user.service.ts:44-47 | if every suffix code in a range is taken, the snapshot holds at least as many records as the range has codes |
| `Approval.SmallSnapshotLeavesSuffixFree` | src/app/services/user.service.ts:44-47 | with fewer than 65438 records some suffix in 'b'..U+FFFF is free, so the loop ends |
| `Approval.SuffixFollowsA` | src/app/services/user.service.ts:43-48 | with fewer than 65438 records and the phone taken, the username is the phone plus exactly one code unit above 'a' |
| `Approval.ApprovalKeepsUsernamesUnique` | src/app/services/user.service.ts:42-52 | pushing the approved record under a fresh key keeps all usernames distinct |
| `Store.MergeAt` | src/app/services/user.service.ts:109 | payload fields take the payload's values. Fields absent from the payload keep their old values, and no field is lost. Every other record is untouched. An absent record is created unless the payload is empty. |
| `Store.MergeKeepsRecordsStored` | src/app/services/user.service.ts:109 | merging a payload without `$key` never writes `$key` and leaves no empty record |
| `Update.TargetKey` | src/app/services/user.service.ts:98 | the update goes to the caller's `$key`, or to the path segment "undefined" when it has none |
| `Update.StrippedPayload` | src/app/services/user.service.ts:98-107 | the payload never holds `$key`. It holds a password iff the caller's is the empty string. It holds `username` iff the caller supplied one that no other record carries. Every other field passes through with its value. |
| `Update.UpdatePasswordRule` | src/app/services/user.service.ts:100 | a truthy password leaves the stored password as it was; an empty password is written |
| `Update.UpdateReportsUsername` | src/app/services/user.service.ts:102-109 | the result is true iff the caller's username collides with no other record. The target then holds that username; otherwise the stored username is unchanged. |
| `Update.UpdateKeepsUsernamesUnique` | src/app/services/user.service.ts:102-109 | an update never creates a username that another record has, so unique usernames stay unique |
| `Scenarios.ThirdSuffixAfterTwoTaken` | src/app/services/user.service.ts:43-48 | with "555", "555a" and "555b" taken, phone "555" becomes "555c" |
| `Scenarios.SuffixASkipped` | src/app/services/user.service.ts:44-47 | with only "555" taken, the username is "555b", not "555a" |
| `Scenarios.UpdateCollisionKeepsUsername` | src/app/services/user.service.ts:102-109 | with users "bob" and "carl", renaming "carl" to "bob" drops the username from the payload (result false) and keeps "carl" |
| `Scenarios.UpdateFreeUsernameStored` | src/app/services/user.service.ts:102-109 | with users "bob" and "carl", renaming "carl" to "dave" keeps the username in the payload (result true) and stores "dave" |
| `Scenarios.NoStopAtZ` | src/app/services/user.service.ts:44-48 | with "555" and "555b" to "555z" taken, the loop runs past 'z' and yields "555{" |
| `Scenarios.UpdatePasswordStripped` | src/app/services/user.service.ts:98-109 | an update carrying password "x" and a new phone stores the phone and keeps the old password |

## Left out

- Live subscriptions: `getSignups` and `getUsers` return the maps as they stand. The observable stream and its later emissions are not modelled.
- Timing of the collision checks: in the source they run in asynchronous `forEach` callbacks that race with the push or update and may fire again later. The model runs each check on a synchronous snapshot taken before the write. Concurrent operations, and the duplicates they can create, are not modelled.
- Congregations: one `UserService` object stands for the collections under the congregation that `getCongregation()` returns. Store paths are not modelled.
- Store key generation: the key of a pushed record is a parameter, required to be absent from the users collection.
- Store keys are assumed to be non-empty single path segments. An empty key would make the source's paths address the whole collection (`removeUser("")` builds `{congregation}/users/`), which the model does not capture.
- Store failures: each write's success is a boolean parameter. Rejection reasons are not modelled.
- `AuthService.changePassword` is not part of this model. `ResetPassword` returns the request it forwards, not the outcome.
- `Approval.ResolveUsername` and `UserServiceModel.UserService.ApproveUser` require some one-unit suffix of the phone to be free when the phone is taken. Without one, the source's loop never ends; the model covers only runs in which it ends.
- Property values other than strings, and Firebase's rejection of `undefined` values and of `$` in field names, are not modelled.
- src/app/app.module.ts: module wiring and configuration, with no logic of its own.
