# Delete users element action — a verified model

This project models the server side of the CMS's "Delete users" element
action (`DeleteUsers::performAction` and `DeleteUsers::_getUndeletableUserIds`).
When an editor selects users in the user index and runs "Delete…", the action:

1. takes the users the element query selected;
2. works out the ids it refuses to delete: for a caller who is not an admin,
   the id of every admin; for an admin, only the caller's own id;
3. reads the `transferContentTo` parameter, taking the first element when it
   is an array whose index 0 is set, and, when that value is truthy in PHP's
   sense, looks the heir up with `getUserById`, throwing before anything is
   deleted if no user is found;
4. walks the selected users in query order and calls `deleteUser(user, heir)`
   for every one whose id is not protected, all with the same heir (or null);
5. sets the message "Users deleted." and returns `true`.

Files:

- `php_values.dfy` (module `PhpValues`): the values a "mixed" action parameter
  can hold, PHP's conversion to boolean (`Truthy`), and `isset($a[0])` on an
  array (`HasFirst`).
- `delete_users.dfy` (module `DeleteUsers`): the users, the caller, the
  outcome and the log of `deleteUser` calls as datatypes; each step as a
  function (`AdminIds`, `UndeletableUserIds`, `TransferContentToId`,
  `ResolveTransferTarget`, `Deletions`) and the whole action as `Perform`;
  the lemmas that state what the action guarantees; and two classes:
  `UsersService` (the users service, recording every `deleteUser` call) and
  `DeleteUsersAction` (the action object with its parameter and message),
  whose `PerformAction` method runs the deletion loop and is proved to do
  exactly what `Perform` describes.

The framework services are inputs: the query result is a `seq<User>`; the
accounts the admin query sees are a `seq<User>` from which `AdminIds` takes
the admins' ids; `getUserById` is a `map<Value, User>` keyed by the value it
is called with (request parameters usually arrive as strings, and how the
service turns one into an id is not visible); the caller is an id and an
admin flag.

The exception thrown for an unknown heir interpolates `$transferContentTo`,
which at that point is the failed lookup's result (null), not the id that was
looked up. The model follows the code: `NoSuchUser.shown` is always `None`.
An array with more than one element is not refused: when its index 0 holds a
non-null value only that element is used; otherwise the whole array is passed
to `getUserById`.

## Model

| member | source | states |
|---|---|---|
| DeleteUsers.AdminIds | src/elementactions/DeleteUsers.php:166 | an id is in the result iff some admin account has it |
| DeleteUsers.UndeletableUserIds | src/elementactions/DeleteUsers.php:161-172 | for a non-admin caller the protected ids are exactly the admins' ids; for an admin, exactly the caller's own id |
| DeleteUsers.ResolveTransferTarget | src/elementactions/DeleteUsers.php:103-122 | fails iff the normalised id is truthy and names no user, and then the error shows no user (not the id); a falsy id gives no heir; a found heir is the user the lookup returns |
| DeleteUsers.Deletions | src/elementactions/DeleteUsers.php:125-131 | never more calls than selected users; every call deletes a selected, unprotected user and passes the one heir |
| DeleteUsers.DeletionsComplete | src/elementactions/DeleteUsers.php:125-131 | every selected user whose id is not protected is deleted |
| DeleteUsers.DeletionsAppend | src/elementactions/DeleteUsers.php:125-131 | the calls for a concatenation of selections are the calls for each part, in order |
| DeleteUsers.DeletionsCount | src/elementactions/DeleteUsers.php:125-131 | an unprotected user is deleted exactly as often as the query lists it; a protected user never |
| DeleteUsers.DeletionsKeepOrder | src/elementactions/DeleteUsers.php:125-131 | of two unprotected users, the one listed first in the query is deleted first |
| DeleteUsers.Perform | src/elementactions/DeleteUsers.php:97-136 | when the action throws, nothing is deleted and no message is set; when it returns, it returns true with "Users deleted."; every deleted user was selected and is not protected |
| DeleteUsers.UnknownHeirDeletesNothing | src/elementactions/DeleteUsers.php:110-117 | a truthy id that names no user throws an error showing no user, with zero deletions and no message |
| DeleteUsers.ThrowsOnlyForUnknownHeir | src/elementactions/DeleteUsers.php:110-122 | the action throws if and only if the normalised id is truthy and names no user |
| DeleteUsers.FalsyHeirTransfersNothing | src/elementactions/DeleteUsers.php:119-129 | a falsy normalised id (null, false, 0, "", "0", empty array) means success with every deletion passing a null heir |
| PhpValues.Truthy | src/elementactions/DeleteUsers.php:110 | PHP's boolean conversion: null, false, 0, "", "0" and the empty array are false; every other value is true |
| PhpValues.HasFirst | src/elementactions/DeleteUsers.php:105 | `is_array($v) && isset($v[0])`: an array whose index 0 exists and holds a non-null value; such an array is always truthy |
| DeleteUsers.TransferContentToId | src/elementactions/DeleteUsers.php:105-108 | the first element of an array whose index 0 holds a non-null value, any other value unchanged; the result is null only for a null parameter; its properties are FirstElementOnly and ScalarAndSingletonAgree |
| DeleteUsers.FirstElementOnly | src/elementactions/DeleteUsers.php:103-108 | of an array whose first element is set, the first element is the id and the remaining elements change nothing about the run |
| DeleteUsers.NullFirstElementKeepsArray | src/elementactions/DeleteUsers.php:105-117 | `[null, 5]` is not unwrapped: the whole array is looked up, and with only user 5 in the directory the action throws |
| DeleteUsers.ScalarAndSingletonAgree | src/elementactions/DeleteUsers.php:105-108 | a non-null value that is not itself an array with a set first element gives the same run whether passed alone or as the only element of an array |
| DeleteUsers.LookUp | src/elementactions/DeleteUsers.php:112 | `getUserById` finds a user iff the value is in the directory, and the user found is the directory's entry for it |
| DeleteUsers.UsersService.GetUserById | src/elementactions/DeleteUsers.php:112 | the service's lookup returns what `LookUp` states: a user iff the value is in the directory, that entry's user |
| DeleteUsers.SuccessDeletesExactlyUnprotected | src/elementactions/DeleteUsers.php:125-131 | on success, a user is deleted iff it was selected and is not protected, and every call passes the resolved heir |
| DeleteUsers.NonAdminNeverDeletesAdmin | src/elementactions/DeleteUsers.php:163-166 | for a non-admin caller, when the admin query sees every selected admin, no deleted user is an admin or has an admin's id |
| DeleteUsers.UnseenAdminDeletedByNonAdmin | src/elementactions/DeleteUsers.php:163-166 | a selected admin the admin query does not see is deleted even when the caller is not an admin |
| DeleteUsers.AdminDeletesAllButSelf | src/elementactions/DeleteUsers.php:167-171 | an admin caller never deletes their own account, and on success every other selected user, admin or not, is deleted |
| DeleteUsers.HeirNotExcluded | src/elementactions/DeleteUsers.php:112-131 | a selected, unprotected heir is itself deleted, with itself as heir |
| DeleteUsers.EmptySelectionSucceeds | src/elementactions/DeleteUsers.php:125-135 | with an empty selection and a valid heir the action deletes nothing and still reports "Users deleted." |
| DeleteUsers.AdminSelectionExample | src/elementactions/DeleteUsers.php:97-136 | admin 2 selecting users 1, 2, 3 with heir ["4", 9]: users 1 and 3 are deleted in that order with user 4 as heir, and the action succeeds |
| DeleteUsers.UsersService.DeleteUser | src/elementactions/DeleteUsers.php:129 | each deleteUser call is appended to the service's log |
| DeleteUsers.DeleteUsersAction.PerformAction | src/elementactions/DeleteUsers.php:97-136 | the users service receives exactly the calls of `Perform`, in order; the outcome is `Perform`'s; the message is set to "Users deleted." on success and left unchanged when the action throws |

## Left out

- `getTriggerHtml` (the browser-side script): it only emits JavaScript. Its
  selection check refuses a selection containing a protected id, while the
  server-side action silently skips such ids; only the server side is modelled.
- `getName`, `isDestructive`, `defineParams`: translation and framework metadata.
- The persistence behind `$query->all()`, `User::find()->admin()->ids()`,
  `getUserById` and `deleteUser`: unseen services, modelled as inputs and as
  a log of calls. Any default status filter of the admin query is not part of
  this model: `AdminIds` sees exactly the accounts it is given.
- DeleteUsers.DeleteUsersAction.PerformAction: does not model a `deleteUser`
  call that throws part-way through (the exception would propagate after the
  earlier deletions); the modelled service always records the call.
- `in_array` compares loosely in PHP; ids are modelled as integers, for
  which loose and strict membership agree.
- PHP floats and arrays whose keys are not 0, 1, … in order are not among the
  modelled parameter values.
- The text of the exception message and its translation: the model records
  only the value the message interpolates. The success message also goes
  through translation; the model stores the untranslated "Users deleted.".
- `src/controllers/RebrandController.php`, `src/debug/DeprecatedPanel.php`
  and `src/events/UserActivateEvent.php`: file uploads and image handling,
  view rendering over the deprecation-log service, and a plain event holder;
  none of them is part of this model.
