/**
 The "Delete users" element action: given the users an element query selected,
 it works out which user ids may not be deleted, resolves the user that is to
 receive the deleted users' content, and asks the users service to delete every
 selected user that is not protected, all with that same content heir.

 The framework services the action talks to are inputs here: the query result
 is a sequence of users, the accounts the admin query sees are a sequence of
 users, `getUserById` is a map from the value it is called with to a user, and
 the users service records every `deleteUser` call in order.
 */
module DeleteUsers {
  import opened PhpValues

  datatype Option<+T> = None | Some(value: T)

  /** A user element: its id and whether it is an admin. */
  datatype User = User(id: int, isAdmin: bool)

  /** The signed-in user on whose behalf the action runs. */
  datatype Caller = Caller(id: int, isAdmin: bool)

  /** The exception the action throws when the content heir does not exist.
      `shown` is the value its message interpolates: the result of the failed
      lookup, not the id that was looked up. */
  datatype Error = NoSuchUser(shown: Option<User>)

  datatype Result<+T> = Ok(value: T) | Err(error: Error)

  /** How performAction ends: it throws, or it returns a boolean. */
  datatype Outcome = Threw(error: Error) | Returned(value: bool)

  /** One call `deleteUser(user, transferContentTo)` to the users service. */
  datatype Deletion = Deletion(user: User, transferContentTo: Option<User>)

  /** Everything one performAction call does: the deleteUser calls it makes,
      in order, how it ends, and the message it sets (None: it sets none). */
  datatype Run = Run(deletions: seq<Deletion>, outcome: Outcome, message: Option<string>)

  const UsersDeleted: string := "Users deleted."

  /** True iff some account that is an admin has this id. */
  ghost predicate IsAdminId(accounts: seq<User>, id: int) {
    exists u :: u in accounts && u.isAdmin && u.id == id
  }

  // ---------------------------------------------------------------------------
  // The protected ids
  // ---------------------------------------------------------------------------

  /** The ids of the admins among the accounts, in account order
      (`User::find()->admin()->ids()`). */
  function AdminIds(accounts: seq<User>): (ids: seq<int>)
    ensures forall id :: id in ids <==> IsAdminId(accounts, id)
  {
    if accounts == [] then []
    else
      var rest := AdminIds(accounts[1..]);
      assert forall u :: u in accounts <==> u == accounts[0] || u in accounts[1..];
      if accounts[0].isAdmin then [accounts[0].id] + rest else rest
  }

  /** The ids this action refuses to delete: for a caller who is not an admin,
      every admin's id; for an admin, only the caller's own id. */
  function UndeletableUserIds(caller: Caller, accounts: seq<User>): (ids: seq<int>)
    ensures !caller.isAdmin ==> forall id :: id in ids <==> IsAdminId(accounts, id)
    ensures caller.isAdmin ==> forall id :: id in ids <==> id == caller.id
  {
    if !caller.isAdmin then AdminIds(accounts) else [caller.id]
  }

  // ---------------------------------------------------------------------------
  // The content heir
  // ---------------------------------------------------------------------------

  /** The transferContentTo parameter as the action uses it: the first element
      of an array that has one, any other value unchanged. */
  function TransferContentToId(param: Value): (id: Value)
    ensures id == Null <==> param == Null
  {
    if HasFirst(param) then param.items[0] else param
  }

  /** `getUserById`: the user the service finds for a value, if any. */
  function LookUp(directory: map<Value, User>, id: Value): (found: Option<User>)
    ensures found.Some? <==> id in directory
    ensures found.Some? ==> found.value == directory[id]
  {
    if id in directory then Some(directory[id]) else None
  }

  /** The user that inherits the deleted users' content (None: nobody), or the
      exception thrown when a truthy id names no user. */
  function ResolveTransferTarget(param: Value, directory: map<Value, User>): (r: Result<Option<User>>)
    ensures var id := TransferContentToId(param);
      (r.Err? <==> Truthy(id) && id !in directory) &&
      (r.Err? ==> r.error.shown == None) &&
      (r == Ok(None) <==> !Truthy(id)) &&
      (r.Ok? && r.value.Some? ==> id in directory && r.value.value == directory[id])
  {
    var id := TransferContentToId(param);
    if Truthy(id) then
      var found := LookUp(directory, id);
      if found.None? then Err(NoSuchUser(found)) else Ok(found)
    else
      Ok(None)
  }

  // ---------------------------------------------------------------------------
  // The deletions
  // ---------------------------------------------------------------------------

  /** The deleteUser calls the loop makes over `users`: one per user whose id
      is not protected, in query order, all with the same content heir. */
  function Deletions(users: seq<User>, undeletable: seq<int>, heir: Option<User>): (log: seq<Deletion>)
    ensures |log| <= |users|
    ensures forall d :: d in log ==> d.transferContentTo == heir && d.user in users && d.user.id !in undeletable
  {
    if users == [] then []
    else
      var rest := Deletions(users[1..], undeletable, heir);
      if users[0].id in undeletable then rest else [Deletion(users[0], heir)] + rest
  }

  /** No unprotected user of the query is left out. */
  lemma {:induction false} DeletionsComplete(users: seq<User>, undeletable: seq<int>, heir: Option<User>, u: User)
    requires u in users && u.id !in undeletable
    ensures Deletion(u, heir) in Deletions(users, undeletable, heir)
  {
    if u != users[0] {
      DeletionsComplete(users[1..], undeletable, heir, u);
    }
  }

  /** The calls for a concatenation are the calls for each part, in order. */
  lemma {:induction false} DeletionsAppend(a: seq<User>, b: seq<User>, undeletable: seq<int>, heir: Option<User>)
    ensures Deletions(a + b, undeletable, heir) == Deletions(a, undeletable, heir) + Deletions(b, undeletable, heir)
  {
    if a != [] {
      assert (a + b)[1..] == a[1..] + b;
      DeletionsAppend(a[1..], b, undeletable, heir);
    } else {
      assert a + b == b;
    }
  }

  /** Each unprotected user is deleted exactly as many times as the query lists
      it, and a protected one never. */
  lemma {:induction false} DeletionsCount(users: seq<User>, undeletable: seq<int>, heir: Option<User>, u: User)
    ensures multiset(Deletions(users, undeletable, heir))[Deletion(u, heir)]
         == if u.id in undeletable then 0 else multiset(users)[u]
  {
    if users != [] {
      DeletionsCount(users[1..], undeletable, heir, u);
      assert users == [users[0]] + users[1..];
      assert multiset(users) == multiset{users[0]} + multiset(users[1..]);
    }
  }

  /** Query order is kept: of two unprotected users, the one the query lists
      first is deleted first; `p` and `q` are the positions of their calls. */
  lemma DeletionsKeepOrder(users: seq<User>, undeletable: seq<int>, heir: Option<User>, i: nat, j: nat)
    returns (p: nat, q: nat)
    requires i < j < |users|
    requires users[i].id !in undeletable && users[j].id !in undeletable
    ensures p < q < |Deletions(users, undeletable, heir)|
    ensures Deletions(users, undeletable, heir)[p] == Deletion(users[i], heir)
    ensures Deletions(users, undeletable, heir)[q] == Deletion(users[j], heir)
  {
    var front, back := users[..j], users[j..];
    assert users == front + back;
    DeletionsAppend(front, back, undeletable, heir);
    var f, b := Deletions(front, undeletable, heir), Deletions(back, undeletable, heir);
    assert users[i] in front && users[j] in back;
    DeletionsComplete(front, undeletable, heir, users[i]);
    DeletionsComplete(back, undeletable, heir, users[j]);
    var k :| 0 <= k < |b| && b[k] == Deletion(users[j], heir);
    p :| 0 <= p < |f| && f[p] == Deletion(users[i], heir);
    q := |f| + k;
    assert (f + b)[q] == b[k];
  }

  // ---------------------------------------------------------------------------
  // performAction as a whole
  // ---------------------------------------------------------------------------

  /** What performAction does, given the query result, the caller, the
      accounts the admin query sees, getUserById and the transferContentTo
      parameter. */
  function Perform(query: seq<User>, caller: Caller, accounts: seq<User>,
                   directory: map<Value, User>, param: Value): (run: Run)
    ensures run.outcome.Threw? ==> run.deletions == [] && run.message == None
    ensures run.outcome.Returned? ==> run.outcome.value && run.message == Some(UsersDeleted)
    ensures forall d :: d in run.deletions ==>
              d.user in query && d.user.id !in UndeletableUserIds(caller, accounts)
  {
    match ResolveTransferTarget(param, directory)
    case Err(e) => Run([], Threw(e), None)
    case Ok(heir) =>
      Run(Deletions(query, UndeletableUserIds(caller, accounts), heir), Returned(true), Some(UsersDeleted))
  }

  /** A truthy id that names no user makes the action throw before any
      deletion, with a message that does not carry the id. */
  lemma UnknownHeirDeletesNothing(query: seq<User>, caller: Caller, accounts: seq<User>,
                                  directory: map<Value, User>, param: Value)
    requires Truthy(TransferContentToId(param)) && TransferContentToId(param) !in directory
    ensures var run := Perform(query, caller, accounts, directory, param);
      run.outcome == Threw(NoSuchUser(None)) && run.deletions == [] && run.message == None
  {
  }

  /** The action throws only for a truthy id that names no user. */
  lemma ThrowsOnlyForUnknownHeir(query: seq<User>, caller: Caller, accounts: seq<User>,
                                 directory: map<Value, User>, param: Value)
    ensures Perform(query, caller, accounts, directory, param).outcome.Threw?
        <==> Truthy(TransferContentToId(param)) && TransferContentToId(param) !in directory
  {
  }

  /** A falsy id (null, false, 0, "", "0", an empty array) means no heir:
      every deletion passes null, and the action succeeds. */
  lemma FalsyHeirTransfersNothing(query: seq<User>, caller: Caller, accounts: seq<User>,
                                  directory: map<Value, User>, param: Value)
    requires !Truthy(TransferContentToId(param))
    ensures var run := Perform(query, caller, accounts, directory, param);
      run.outcome == Returned(true) &&
      forall d :: d in run.deletions ==> d.transferContentTo == None
  {
  }

  /** Of an array whose first element is set, only that element is used. */
  lemma FirstElementOnly(query: seq<User>, caller: Caller, accounts: seq<User>,
                         directory: map<Value, User>, first: Value, rest: seq<Value>)
    requires first != Null
    ensures TransferContentToId(Arr([first] + rest)) == first
    ensures Perform(query, caller, accounts, directory, Arr([first] + rest))
         == Perform(query, caller, accounts, directory, Arr([first]))
  {
  }

  /** An array whose index 0 holds null is not unwrapped: the whole array goes
      to getUserById, and when the service finds nothing for it (here, a
      directory that knows only user 5) the action throws. */
  lemma NullFirstElementKeepsArray()
    ensures TransferContentToId(Arr([Null, Int(5)])) == Arr([Null, Int(5)])
    ensures Perform([], Caller(1, true), [], map[Int(5) := User(5, false)], Arr([Null, Int(5)])).outcome
         == Threw(NoSuchUser(None))
  {
  }

  /** A value passed on its own and the same value as the only element of an
      array lead to the same run. */
  lemma ScalarAndSingletonAgree(query: seq<User>, caller: Caller, accounts: seq<User>,
                                directory: map<Value, User>, v: Value)
    requires v != Null && !HasFirst(v)
    ensures Perform(query, caller, accounts, directory, Arr([v]))
         == Perform(query, caller, accounts, directory, v)
  {
  }

  /** On success the deleted users are exactly the unprotected users of the
      query, each with the one resolved heir. */
  lemma SuccessDeletesExactlyUnprotected(query: seq<User>, caller: Caller, accounts: seq<User>,
                                         directory: map<Value, User>, param: Value)
    requires Perform(query, caller, accounts, directory, param).outcome.Returned?
    ensures ResolveTransferTarget(param, directory).Ok?
    ensures var run := Perform(query, caller, accounts, directory, param);
      var heir := ResolveTransferTarget(param, directory).value;
      var undeletable := UndeletableUserIds(caller, accounts);
      (forall d :: d in run.deletions ==> d.transferContentTo == heir) &&
      (forall u :: Deletion(u, heir) in run.deletions <==> u in query && u.id !in undeletable)
  {
    var heir := ResolveTransferTarget(param, directory).value;
    var undeletable := UndeletableUserIds(caller, accounts);
    forall u | u in query && u.id !in undeletable
      ensures Deletion(u, heir) in Perform(query, caller, accounts, directory, param).deletions
    {
      DeletionsComplete(query, undeletable, heir, u);
    }
  }

  /** A caller who is not an admin never has an admin deleted, as long as the
      admin query sees every selected admin. */
  lemma NonAdminNeverDeletesAdmin(query: seq<User>, caller: Caller, accounts: seq<User>,
                                  directory: map<Value, User>, param: Value)
    requires !caller.isAdmin
    requires forall u :: u in query && u.isAdmin ==> u in accounts
    ensures forall d :: d in Perform(query, caller, accounts, directory, param).deletions ==>
              !d.user.isAdmin && !IsAdminId(accounts, d.user.id)
  {
  }

  /** The protection rests on the admin query alone: a selected admin that the
      admin query does not see is deleted even by a caller who is not an admin. */
  lemma UnseenAdminDeletedByNonAdmin()
    ensures Perform([User(7, true)], Caller(1, false), [], map[], Null).deletions
         == [Deletion(User(7, true), None)]
  {
  }

  /** An admin never has their own account deleted, but does have every other
      selected user deleted, admins included, when the action succeeds. */
  lemma AdminDeletesAllButSelf(query: seq<User>, caller: Caller, accounts: seq<User>,
                               directory: map<Value, User>, param: Value, u: User)
    requires caller.isAdmin
    ensures forall d :: d in Perform(query, caller, accounts, directory, param).deletions ==>
              d.user.id != caller.id
    ensures Perform(query, caller, accounts, directory, param).outcome.Returned? && u in query && u.id != caller.id
        ==> exists d :: d in Perform(query, caller, accounts, directory, param).deletions && d.user == u
  {
    var run := Perform(query, caller, accounts, directory, param);
    if run.outcome.Returned? && u in query && u.id != caller.id {
      DeletionsComplete(query, UndeletableUserIds(caller, accounts), ResolveTransferTarget(param, directory).value, u);
    }
  }

  /** The heir is not kept out of the batch: selected and unprotected, it is
      deleted too, with itself as the heir. */
  lemma HeirNotExcluded(query: seq<User>, caller: Caller, accounts: seq<User>,
                        directory: map<Value, User>, param: Value, heir: User)
    requires ResolveTransferTarget(param, directory) == Ok(Some(heir))
    requires heir in query && heir.id !in UndeletableUserIds(caller, accounts)
    ensures Deletion(heir, Some(heir)) in Perform(query, caller, accounts, directory, param).deletions
  {
    DeletionsComplete(query, UndeletableUserIds(caller, accounts), Some(heir), heir);
  }

  /** With nothing selected the action still reports success. */
  lemma EmptySelectionSucceeds(caller: Caller, accounts: seq<User>,
                               directory: map<Value, User>, param: Value)
    requires ResolveTransferTarget(param, directory).Ok?
    ensures Perform([], caller, accounts, directory, param) == Run([], Returned(true), Some(UsersDeleted))
  {
  }

  /** An admin (id 2) selects users 1, 2 and 3 and names user 4, by the string
      "4" inside an array, as heir: users 1 and 3 are deleted, in that order,
      with user 4 as heir; the admin's own account is skipped. */
  lemma AdminSelectionExample()
    ensures var u1, u2, u3, u4 := User(1, false), User(2, true), User(3, false), User(4, false);
      Perform([u1, u2, u3], Caller(2, true), [u1, u2, u3, u4], map[Str("4") := u4], Arr([Str("4"), Int(9)]))
        == Run([Deletion(u1, Some(u4)), Deletion(u3, Some(u4))], Returned(true), Some(UsersDeleted))
  {
    var u1, u2, u3, u4 := User(1, false), User(2, true), User(3, false), User(4, false);
    var query := [u1, u2, u3];
    assert TransferContentToId(Arr([Str("4"), Int(9)])) == Str("4");
    assert UndeletableUserIds(Caller(2, true), [u1, u2, u3, u4]) == [2];
    assert query[1..] == [u2, u3] && [u2, u3][1..] == [u3] && [u3][1..] == [];
    assert Deletions([u3], [2], Some(u4)) == [Deletion(u3, Some(u4))];
    assert Deletions([u2, u3], [2], Some(u4)) == [Deletion(u3, Some(u4))];
    assert Deletions(query, [2], Some(u4)) == [Deletion(u1, Some(u4)), Deletion(u3, Some(u4))];
  }

  // ---------------------------------------------------------------------------
  // The objects: the users service and the action
  // ---------------------------------------------------------------------------

  /** The users service (`Craft::$app->users`) as the action sees it: the
      users getUserById finds, and the deleteUser calls made so far. */
  class UsersService {
    const directory: map<Value, User>
    var deleted: seq<Deletion>

    constructor (directory: map<Value, User>)
      ensures this.directory == directory && deleted == []
    {
      this.directory := directory;
      deleted := [];
    }

    /** getUserById */
    method GetUserById(id: Value) returns (found: Option<User>)
      ensures found == LookUp(directory, id)
    {
      if id in directory {
        found := Some(directory[id]);
      } else {
        found := None;
      }
    }

    /** deleteUser: recorded, in call order. */
    method DeleteUser(user: User, transferContentTo: Option<User>)
      modifies this
      ensures deleted == old(deleted) + [Deletion(user, transferContentTo)]
    {
      deleted := deleted + [Deletion(user, transferContentTo)];
    }
  }

  /** The action object: its transferContentTo parameter and the message it
      reports back. */
  class DeleteUsersAction {
    const transferContentTo: Value
    var message: Option<string>

    constructor (transferContentTo: Value)
      ensures this.transferContentTo == transferContentTo && message == None
    {
      this.transferContentTo := transferContentTo;
      message := None;
    }

    /** performAction: the users service receives exactly the deleteUser calls
        Perform describes, and the outcome and message are Perform's. */
    method PerformAction(query: seq<User>, caller: Caller, accounts: seq<User>, users: UsersService)
      returns (outcome: Outcome)
      modifies this, users
      ensures var run := Perform(query, caller, accounts, users.directory, transferContentTo);
        outcome == run.outcome &&
        users.deleted == old(users.deleted) + run.deletions &&
        message == (if run.message.Some? then run.message else old(message))
    {
      var undeletableIds := UndeletableUserIds(caller, accounts);

      var id := TransferContentToId(transferContentTo);
      var heir: Option<User>;
      if Truthy(id) {
        heir := users.GetUserById(id);
        if heir.None? {
          outcome := Threw(NoSuchUser(heir));
          return;
        }
      } else {
        heir := None;
      }

      var i := 0;
      while i < |query|
        invariant 0 <= i <= |query|
        invariant users.deleted == old(users.deleted) + Deletions(query[..i], undeletableIds, heir)
      {
        var user := query[i];
        if user.id !in undeletableIds {
          users.DeleteUser(user, heir);
        }
        assert query[..i + 1] == query[..i] + [user];
        DeletionsAppend(query[..i], [user], undeletableIds, heir);
        i := i + 1;
      }
      assert query[..i] == query;

      message := Some(UsersDeleted);
      outcome := Returned(true);
    }
  }
}
