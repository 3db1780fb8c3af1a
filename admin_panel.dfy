/** The tenant administrator's page: a working list of users, a snapshot
    of it for cancelling, a status line and the set of rows marked for
    deletion. The page adds draft users, folds edits into the working
    list, saves drafts and edits through the create and update calls and
    merges what they return, deletes the marked users and restores the
    snapshot. The calls themselves are parameters. */
module AdminPage {
  import opened Wrappers
  import opened Collections
  import opened UserModel
  import SdkSaveChangedUsers

  const NoEntitlement := "No remaining entitlement - purchase additional subscription"
  const ErrorUpdatingUser := "Error updating user"
  const WrittenToStore := "Changes written successfully to the Identity Store"
  const UnknownCreateError := "Unknown error saving new users"
  const UnknownUpdateError := "Unknown error saving changed users"
  const NoChanges := "No changes to write"

  /** The draft row the add button appends; its id is the click's timestamp. */
  function Draft(newId: string, tenantId: string, organisationName: Option<string>): (u: UserData)
    ensures u.id == newId && u.tenantId == tenantId && u.organisationName == organisationName
    ensures u.firstName == "" && u.lastName == "" && u.email == ""
    ensures u.isNew && !u.isChanged && !u.isValid
  {
    UserData(newId, "", "", "", tenantId, organisationName, true, false, false)
  }

  /** `Object.assign(target, source)` for two user records: every field of
      the source is copied, except an organisation name the source lacks. */
  function Assign(target: UserData, source: UserData): (r: UserData)
    ensures r.(organisationName := source.organisationName) == source
    ensures r.organisationName == if source.organisationName.Some? then source.organisationName else target.organisationName
  {
    source.(organisationName := if source.organisationName.Some? then source.organisationName else target.organisationName)
  }

  /** The working list after an edited record is folded in: the first
      record with the same id takes the record's fields and every other
      record is kept; no record with that id makes `Object.assign` throw,
      which is `None`. */
  function WithChanges(users: seq<UserData>, changedUser: UserData): (r: Option<seq<UserData>>)
    ensures r.None? <==> forall j :: 0 <= j < |users| ==> users[j].id != changedUser.id
    ensures r.Some? ==> |r.value| == |users|
                        && exists k :: 0 <= k < |users| && users[k].id == changedUser.id
                             && (forall j :: 0 <= j < k ==> users[j].id != changedUser.id)
                             && r.value[k] == Assign(users[k], changedUser)
                             && (forall j :: 0 <= j < |users| && j != k ==> r.value[j] == users[j])
  {
    var k := FindIndex(users, ById, changedUser.id);
    if k == -1 then None else Some(users[k := Assign(users[k], changedUser)])
  }

  /** A draft that passed validation, to be created. */
  predicate ToCreate(u: UserData) {
    u.isNew && u.isValid
  }

  /** An edited record that passed validation, to be updated. */
  predicate ToUpdate(u: UserData) {
    u.isChanged && u.isValid
  }

  /** A local record after the create call: the first added record with
      its email lends it its id and `isNew` flag. */
  function WithCreatedId(u: UserData, added: seq<UserData>): UserData {
    match Find(added, ByEmail, u.email)
    case Some(m) => u.(id := m.id, isNew := m.isNew)
    case None => u
  }

  /** A local record after the update call: the first updated record with
      its id lends it its `isChanged` flag. */
  function WithUpdatedFlag(u: UserData, updated: seq<UserData>): UserData {
    match Find(updated, ById, u.id)
    case Some(m) => u.(isChanged := m.isChanged)
    case None => u
  }

  /** The `forEach` that rewrites each local record after the create call. */
  method MergeCreated(usersCopy: seq<UserData>, added: seq<UserData>) returns (r: seq<UserData>)
    ensures |r| == |usersCopy|
    ensures forall i :: 0 <= i < |r| ==> r[i] == WithCreatedId(usersCopy[i], added)
  {
    r := usersCopy;
    var index := 0;
    while index < |r|
      invariant 0 <= index <= |r| == |usersCopy|
      invariant forall i :: 0 <= i < index ==> r[i] == WithCreatedId(usersCopy[i], added)
      invariant forall i :: index <= i < |r| ==> r[i] == usersCopy[i]
    {
      var user := r[index];
      var matchedNewUser := Find(added, ByEmail, user.email);
      if matchedNewUser.Some? {
        r := r[index := user.(id := matchedNewUser.value.id, isNew := matchedNewUser.value.isNew)];
      }
      index := index + 1;
    }
  }

  /** The `forEach` that rewrites each local record after the update call. */
  method MergeUpdated(usersCopy: seq<UserData>, updated: seq<UserData>) returns (r: seq<UserData>)
    ensures |r| == |usersCopy|
    ensures forall i :: 0 <= i < |r| ==> r[i] == WithUpdatedFlag(usersCopy[i], updated)
  {
    r := usersCopy;
    var index := 0;
    while index < |r|
      invariant 0 <= index <= |r| == |usersCopy|
      invariant forall i :: 0 <= i < index ==> r[i] == WithUpdatedFlag(usersCopy[i], updated)
      invariant forall i :: index <= i < |r| ==> r[i] == usersCopy[i]
    {
      var user := r[index];
      var matchedChangedUser := Find(updated, ById, user.id);
      if matchedChangedUser.Some? {
        r := r[index := user.(isChanged := matchedChangedUser.value.isChanged)];
      }
      index := index + 1;
    }
  }

  /** The status a failed call leaves: a `ManageUsersError`'s own message,
      otherwise the call's generic message. */
  function ErrorStatus(e: Error, unknown: string): (m: string)
    ensures e.ManageUsersError? ==> m == e.message
    ensures e.PlainError? ==> m == unknown
  {
    if e.ManageUsersError? then e.message else unknown
  }

  /** What a save leaves on the page: the status line, and the list that
      becomes both the working list and the snapshot (`None` when the lists
      are left as they were). */
  datatype SaveEffect = SaveEffect(status: string, saved: Option<seq<UserData>>)

  /** The save's local variables between the two calls: the outcome text
      so far and the shadow copy of the working list. */
  datatype Progress = Progress(outcome: string, usersCopy: seq<UserData>)

  /** The create call returned a response whose `usersAdded` can be read. */
  predicate ReturnedRecords(c: Result<Option<NewUsersResponse>, Error>) {
    c.Success? && c.value.Some? && c.value.value.usersAdded.Some?
  }

  /** The create half of the save. Nothing to create leaves the progress
      as it was; a failure ends the save with its status. Reading the
      outcome throws a `TypeError`, which is not a `ManageUsersError`, when
      the call answers `undefined` (`None`, which it does for an empty list)
      or a response without `usersAdded`. Success records the call's
      message and merges the returned ids into the copy. */
  function CreatePhase(users: seq<UserData>, newUsers: seq<UserData>,
                       create: seq<UserData> -> Result<Option<NewUsersResponse>, Error>): (r: Result<Progress, string>)
    ensures newUsers == [] ==> r == Success(Progress("", users))
    ensures newUsers != [] && create(newUsers).Failure? ==> r == Failure(ErrorStatus(create(newUsers).error, UnknownCreateError))
    ensures newUsers != [] && create(newUsers).Success? && !ReturnedRecords(create(newUsers)) ==> r == Failure(UnknownCreateError)
    ensures newUsers != [] && ReturnedRecords(create(newUsers)) ==>
              (r.Success? && r.value.outcome == create(newUsers).value.value.message)
    ensures r.Success? ==>
              (|r.value.usersCopy| == |users|
               && forall i :: 0 <= i < |users| ==> r.value.usersCopy[i].(id := users[i].id, isNew := users[i].isNew) == users[i])
  {
    if |newUsers| == 0 then Success(Progress("", users))
    else match create(newUsers)
      case Failure(e) => Failure(ErrorStatus(e, UnknownCreateError))
      case Success(None) => Failure(UnknownCreateError)
      case Success(Some(response)) =>
        match response.usersAdded
        case None => Failure(UnknownCreateError)
        case Some(added) =>
          Success(Progress(response.message,
                           if |added| > 0 then seq(|users|, i requires 0 <= i < |users| => WithCreatedId(users[i], added))
                           else users))
  }

  /** The update half of the save: nothing to update leaves the progress
      as it was; a failure ends the save with its status; success appends
      the call's message (after "; " when there is an outcome already) and
      merges the returned flags into the copy. */
  function UpdatePhase(p: Progress, changedUsers: seq<UserData>,
                       update: seq<UserData> -> Result<SdkSaveChangedUsers.ChangedUsersResponse, Error>): (r: Result<Progress, string>)
    ensures changedUsers == [] ==> r == Success(p)
    ensures changedUsers != [] && update(changedUsers).Failure? ==> r == Failure(ErrorStatus(update(changedUsers).error, UnknownUpdateError))
    ensures changedUsers != [] && update(changedUsers).Success? ==>
              (r.Success? && r.value.outcome == (if p.outcome == "" then "" else p.outcome + "; ") + update(changedUsers).value.message)
    ensures r.Success? ==>
              (|r.value.usersCopy| == |p.usersCopy|
               && forall i :: 0 <= i < |p.usersCopy| ==> r.value.usersCopy[i].(isChanged := p.usersCopy[i].isChanged) == p.usersCopy[i])
  {
    if |changedUsers| == 0 then Success(p)
    else match update(changedUsers)
      case Failure(e) => Failure(ErrorStatus(e, UnknownUpdateError))
      case Success(response) =>
        Success(Progress((if |p.outcome| > 0 then p.outcome + "; " else p.outcome) + response.message,
                         if |response.usersUpdated| > 0 then seq(|p.usersCopy|, i requires 0 <= i < |p.usersCopy| => WithUpdatedFlag(p.usersCopy[i], response.usersUpdated))
                         else p.usersCopy))
  }

  /** `handleClickSaveChanges` given the two calls: the validated drafts
      are created, then the validated edits updated, and the status chosen
      by which kinds were sent. */
  function SaveChangesEffect(users: seq<UserData>,
                             create: seq<UserData> -> Result<Option<NewUsersResponse>, Error>,
                             update: seq<UserData> -> Result<SdkSaveChangedUsers.ChangedUsersResponse, Error>): (r: SaveEffect)
    ensures Filter(users, ToCreate) == [] && Filter(users, ToUpdate) == [] ==> r == SaveEffect(NoChanges, None)
    ensures r.saved.Some? ==> |r.saved.value| == |users| && (Filter(users, ToCreate) != [] || Filter(users, ToUpdate) != [])
  {
    var newUsers := Filter(users, ToCreate);
    var changedUsers := Filter(users, ToUpdate);
    match CreatePhase(users, newUsers, create)
    case Failure(status) => SaveEffect(status, None)
    case Success(afterCreate) =>
      match UpdatePhase(afterCreate, changedUsers, update)
      case Failure(status) => SaveEffect(status, None)
      case Success(afterUpdate) =>
        if |newUsers| > 0 && |changedUsers| > 0 then SaveEffect(WrittenToStore, Some(afterUpdate.usersCopy))
        else if |newUsers| > 0 || |changedUsers| > 0 then SaveEffect(afterUpdate.outcome, Some(afterUpdate.usersCopy))
        else SaveEffect(NoChanges, None)
  }

  /** The create half of the save as the page runs it, merging the
      returned ids into the copy record by record. */
  method SaveNewUsersStep(users: seq<UserData>, newUsers: seq<UserData>,
                          create: seq<UserData> -> Result<Option<NewUsersResponse>, Error>) returns (r: Result<Progress, string>)
    ensures r == CreatePhase(users, newUsers, create)
  {
    if |newUsers| == 0 {
      return Success(Progress("", users));
    }
    var created := create(newUsers);
    if created.Failure? {
      return Failure(ErrorStatus(created.error, UnknownCreateError));
    }
    if !ReturnedRecords(created) {
      return Failure(UnknownCreateError);
    }
    var saveNewUsersOutcome := created.value.value;
    var added := saveNewUsersOutcome.usersAdded.value;
    var usersCopy := users;
    if |added| > 0 {
      usersCopy := MergeCreated(users, added);
      assert usersCopy == seq(|users|, i requires 0 <= i < |users| => WithCreatedId(users[i], added));
    }
    r := Success(Progress(saveNewUsersOutcome.message, usersCopy));
  }

  /** The update half of the save as the page runs it, merging the
      returned flags into the copy record by record. */
  method SaveChangedUsersStep(p: Progress, changedUsers: seq<UserData>,
                              update: seq<UserData> -> Result<SdkSaveChangedUsers.ChangedUsersResponse, Error>)
    returns (r: Result<Progress, string>)
    ensures r == UpdatePhase(p, changedUsers, update)
  {
    if |changedUsers| == 0 {
      return Success(p);
    }
    match update(changedUsers) {
      case Failure(e) =>
        r := Failure(ErrorStatus(e, UnknownUpdateError));
      case Success(saveChangedUsersOutcome) =>
        var outcome := if |p.outcome| > 0 then p.outcome + "; " else p.outcome;
        var usersCopy := p.usersCopy;
        var updated := saveChangedUsersOutcome.usersUpdated;
        if |updated| > 0 {
          usersCopy := MergeUpdated(p.usersCopy, updated);
          assert usersCopy == seq(|p.usersCopy|, i requires 0 <= i < |p.usersCopy| => WithUpdatedFlag(p.usersCopy[i], updated));
        }
        r := Success(Progress(outcome + saveChangedUsersOutcome.message, usersCopy));
    }
  }

  /** `splice(start, 1)` at the position `findIndex` gave: a position of the
      list removes that element, and -1 counts from the end, removing the
      last element of a non-empty list. */
  function SpliceOne(s: seq<UserData>, k: int): (r: seq<UserData>)
    requires -1 <= k < |s|
    ensures k >= 0 ==> r == s[..k] + s[k + 1..]
    ensures k == -1 && s != [] ==> r == s[..|s| - 1]
    ensures k == -1 && s == [] ==> r == []
  {
    var start := if k < 0 then (if |s| + k > 0 then |s| + k else 0) else k;
    if start < |s| then s[..start] + s[start + 1..] else s
  }

  /** The working list after the first `n` returned ids were spliced out:
      each id removes one record, while any are left. */
  function RemoveDeleted(users: seq<UserData>, ids: seq<string>, n: nat): (r: seq<UserData>)
    requires n <= |ids|
    ensures |r| == if n <= |users| then |users| - n else 0
  {
    if n == 0 then users
    else
      var s := RemoveDeleted(users, ids, n - 1);
      SpliceOne(s, FindIndex(s, ById, ids[n - 1]))
  }

  /** Some record has the id. */
  predicate HasUser(users: seq<UserData>, id: string) {
    exists j :: 0 <= j < |users| && users[j].id == id
  }

  /** No two records share an id. */
  predicate UniqueIds(users: seq<UserData>) {
    forall i, j :: 0 <= i < j < |users| ==> users[i].id != users[j].id
  }

  /** The administrator's page state. */
  class AdminPanel {
    const tenantId: string
    const organisationName: Option<string>
    /** The entitlement's user count; `None` until it has been fetched. */
    var userCount: Option<nat>
    var users: seq<UserData>
    var originalUsers: seq<UserData>
    var statusMessage: string
    /** The `Set` of ids marked for deletion, in insertion order. */
    var rowsToDelete: seq<string>
    var disableDeleteButton: bool
    /** Whether the working list and the snapshot hold the same record
        objects. A delete (lines 287-288) and a save of both kinds (lines
        236-237) store one array as both; the load (line 65), a save of
        one kind (line 243) and a cancel (line 302) store a
        `structuredClone`. While the records are shared, the working list
        only grows by appended drafts, so the snapshot is its prefix. */
    var snapshotShared: bool
    /** Whether the two shared commits take a copy instead, as line 243
        does. The page as written is `false`; `true` is the correction
        under which the snapshot is a rollback point. */
    const clonesOnCommit: bool

    /** The marked ids form a set, the delete button is disabled exactly
        when none is marked, and a shared snapshot is the working list's
        prefix (a copying page never shares). */
    ghost predicate Valid()
      reads this
    {
      && Distinct(rowsToDelete) && (disableDeleteButton <==> rowsToDelete == [])
      && (snapshotShared ==> |originalUsers| <= |users| && originalUsers == users[..|originalUsers|])
      && (clonesOnCommit ==> !snapshotShared)
    }

    /** The page as first rendered, for the tenant and organisation read
        from the signed-in user. */
    constructor(tenantId: string, organisationName: Option<string>, userCount: Option<nat>, clonesOnCommit: bool)
      ensures Valid()
      ensures this.tenantId == tenantId && this.organisationName == organisationName && this.userCount == userCount
      ensures users == [] && originalUsers == [] && statusMessage == "" && rowsToDelete == [] && disableDeleteButton
      ensures !snapshotShared && this.clonesOnCommit == clonesOnCommit
    {
      this.tenantId := tenantId;
      this.organisationName := organisationName;
      this.userCount := userCount;
      this.clonesOnCommit := clonesOnCommit;
      snapshotShared := false;
      users := [];
      originalUsers := [];
      statusMessage := "";
      rowsToDelete := [];
      disableDeleteButton := true;
    }

    /** The fetch effect: the retrieved users become the working list and
        (as a copy) the snapshot; an empty answer empties both. */
    method LoadUsers(retrieved: seq<UserData>)
      requires Valid()
      modifies this
      ensures Valid()
      ensures users == retrieved && originalUsers == retrieved && !snapshotShared
      ensures statusMessage == old(statusMessage) && rowsToDelete == old(rowsToDelete)
      ensures disableDeleteButton == old(disableDeleteButton) && userCount == old(userCount)
    {
      users := retrieved;
      originalUsers := retrieved;
      snapshotShared := false;
    }

    /** `reportStatus`: the status line shows the message. */
    method ReportStatus(message: string)
      requires Valid()
      modifies this
      ensures Valid()
      ensures statusMessage == message
      ensures users == old(users) && originalUsers == old(originalUsers) && snapshotShared == old(snapshotShared)
      ensures rowsToDelete == old(rowsToDelete) && disableDeleteButton == old(disableDeleteButton)
      ensures userCount == old(userCount)
    {
      statusMessage := message;
    }

    /** `handleClickAddUser`: with the entitlement used up the status says
        so and nothing is added; otherwise one draft is appended. Before
        the entitlement is known the handler throws and changes nothing. */
    method AddUser(newId: string)
      requires Valid()
      modifies this
      ensures Valid()
      ensures userCount.None? ==> users == old(users) && statusMessage == old(statusMessage)
      ensures userCount.Some? && |old(users)| >= userCount.value ==>
                users == old(users) && statusMessage == NoEntitlement
      ensures userCount.Some? && |old(users)| < userCount.value ==>
                users == old(users) + [Draft(newId, tenantId, organisationName)] && statusMessage == old(statusMessage)
      ensures originalUsers == old(originalUsers) && snapshotShared == old(snapshotShared)
      ensures rowsToDelete == old(rowsToDelete)
      ensures disableDeleteButton == old(disableDeleteButton) && userCount == old(userCount)
    {
      if userCount.None? {
        return;
      }
      if |users| >= userCount.value {
        statusMessage := NoEntitlement;
        return;
      }
      var usersLocal := users;
      var newUser := Draft(newId, tenantId, organisationName);
      usersLocal := usersLocal + [newUser];
      users := usersLocal;
    }

    /** `updateUserSetWithChanges`: the edited record is folded into the
        working list; with no record of that id the status reports the
        error and the list is kept. Only the array is copied, so the fold
        writes into the record object itself: a snapshot that shares the
        records takes the edit too, and one held as a copy does not. */
    method UpdateUserSetWithChanges(changedUser: UserData)
      requires Valid()
      modifies this
      ensures Valid()
      ensures WithChanges(old(users), changedUser).Some? ==>
                users == WithChanges(old(users), changedUser).value && statusMessage == old(statusMessage)
      ensures WithChanges(old(users), changedUser).None? ==>
                users == old(users) && statusMessage == ErrorUpdatingUser
      ensures old(snapshotShared) ==> originalUsers == users[..|old(originalUsers)|]
      ensures !old(snapshotShared) ==> originalUsers == old(originalUsers)
      ensures snapshotShared == old(snapshotShared) && rowsToDelete == old(rowsToDelete)
      ensures disableDeleteButton == old(disableDeleteButton) && userCount == old(userCount)
    {
      var usersLocal := users;
      var userIndex := FindIndex(usersLocal, ById, changedUser.id);
      if userIndex == -1 {
        statusMessage := ErrorUpdatingUser;
      } else {
        usersLocal := usersLocal[userIndex := Assign(usersLocal[userIndex], changedUser)];
        users := usersLocal;
        if snapshotShared && userIndex < |originalUsers| {
          originalUsers := originalUsers[userIndex := users[userIndex]];
        }
      }
    }

    /** `handleClickSaveChanges`: the validated drafts go to `create`, then
        the validated edits to `update`; a failure stops the save and only
        reports; otherwise the merged list becomes the working list and the
        snapshot. */
    method SaveChanges(create: seq<UserData> -> Result<Option<NewUsersResponse>, Error>,
                       update: seq<UserData> -> Result<SdkSaveChangedUsers.ChangedUsersResponse, Error>)
      requires Valid()
      modifies this
      ensures Valid()
      ensures var e := SaveChangesEffect(old(users), create, update);
              && statusMessage == e.status
              && (e.saved.Some? ==> users == e.saved.value && originalUsers == e.saved.value)
              && (e.saved.None? ==> users == old(users) && originalUsers == old(originalUsers))
              && (e.saved.Some? ==> snapshotShared == (!clonesOnCommit && Filter(old(users), ToCreate) != []
                                                       && Filter(old(users), ToUpdate) != []))
              && (e.saved.None? ==> snapshotShared == old(snapshotShared))
      ensures rowsToDelete == old(rowsToDelete) && disableDeleteButton == old(disableDeleteButton)
      ensures userCount == old(userCount)
    {
      var newUsers := Filter(users, ToCreate);
      var changedUsers := Filter(users, ToUpdate);
      var created := SaveNewUsersStep(users, newUsers, create);
      if created.Failure? {
        statusMessage := created.error;
        return;
      }
      var updated := SaveChangedUsersStep(created.value, changedUsers, update);
      if updated.Failure? {
        statusMessage := updated.error;
        return;
      }
      var usersCopy := updated.value.usersCopy;
      if |newUsers| > 0 && |changedUsers| > 0 {
        Commit(usersCopy, !clonesOnCommit, WrittenToStore);
      } else if |newUsers| > 0 || |changedUsers| > 0 {
        Commit(usersCopy, false, updated.value.outcome);
      } else {
        statusMessage := NoChanges;
      }
    }

    /** The end of a successful save: one list becomes the working list
        and the snapshot, shared or as a copy, and the status is set. */
    method Commit(saved: seq<UserData>, shared: bool, status: string)
      requires Valid() && (clonesOnCommit ==> !shared)
      modifies this
      ensures Valid()
      ensures users == saved && originalUsers == saved && snapshotShared == shared && statusMessage == status
      ensures rowsToDelete == old(rowsToDelete) && disableDeleteButton == old(disableDeleteButton)
      ensures userCount == old(userCount)
    {
      users := saved;
      originalUsers := saved;
      snapshotShared := shared;
      statusMessage := status;
    }

    /** `deleteToggleChanges`: the row's id leaves the marked set if it was
        in it and joins it otherwise; the delete button follows. */
    method DeleteToggle(user: UserData)
      requires Valid()
      modifies this
      ensures Valid()
      ensures user.id in old(rowsToDelete) ==> rowsToDelete == Remove(old(rowsToDelete), user.id)
      ensures user.id !in old(rowsToDelete) ==> rowsToDelete == old(rowsToDelete) + [user.id]
      ensures users == old(users) && originalUsers == old(originalUsers) && snapshotShared == old(snapshotShared)
      ensures statusMessage == old(statusMessage) && userCount == old(userCount)
    {
      var tempUsers := rowsToDelete;
      if user.id in rowsToDelete {
        RemoveKeepsDistinct(tempUsers, user.id);
        tempUsers := Remove(tempUsers, user.id);
        rowsToDelete := tempUsers;
      } else {
        tempUsers := tempUsers + [user.id];
        rowsToDelete := tempUsers;
      }
      disableDeleteButton := |tempUsers| == 0;
    }

    /** `handleClickDeleteUser`: the marked ids go to `delete`; on success
        each returned id is spliced out of the working list, which also
        becomes the snapshot, the status shows the answer's message and the
        marks are cleared; a failure only shows its message. */
    method DeleteSelected(delete: seq<string> -> Result<DeleteUsersOutcome, Error>)
      requires Valid()
      modifies this
      ensures Valid()
      ensures delete(old(rowsToDelete)).Failure? ==>
                statusMessage == delete(old(rowsToDelete)).error.message
                && users == old(users) && originalUsers == old(originalUsers) && snapshotShared == old(snapshotShared)
                && rowsToDelete == old(rowsToDelete) && disableDeleteButton == old(disableDeleteButton)
      ensures delete(old(rowsToDelete)).Success? ==>
                var outcome := delete(old(rowsToDelete)).value;
                && users == RemoveDeleted(old(users), outcome.usersDeleted, |outcome.usersDeleted|)
                && originalUsers == users && snapshotShared == !clonesOnCommit
                && statusMessage == outcome.message && rowsToDelete == [] && disableDeleteButton
      ensures userCount == old(userCount)
    {
      match delete(rowsToDelete) {
        case Failure(e) =>
          statusMessage := e.message;
        case Success(deleteUsersOutcome) =>
          var usersCopy := SpliceDeleted(users, deleteUsersOutcome.usersDeleted);
          statusMessage := deleteUsersOutcome.message;
          users := usersCopy;
          originalUsers := usersCopy;
          snapshotShared := !clonesOnCommit;
          rowsToDelete := [];
          disableDeleteButton := true;
      }
    }

    /** `handleCancelClick`: the working list becomes a copy of the
        snapshot, which it no longer shares records with. A shared
        snapshot holds every edit folded in since the commit, so then the
        cancel only drops the drafts added since. */
    method Cancel()
      requires Valid()
      modifies this
      ensures Valid()
      ensures users == old(originalUsers) && originalUsers == old(originalUsers) && !snapshotShared
      ensures old(snapshotShared) ==> users == old(users)[..|old(originalUsers)|]
      ensures statusMessage == old(statusMessage) && rowsToDelete == old(rowsToDelete)
      ensures disableDeleteButton == old(disableDeleteButton) && userCount == old(userCount)
    {
      users := originalUsers;
      snapshotShared := false;
    }
  }

  /** The loop of `handleClickDeleteUser`: each returned id is spliced out
      of a copy of the working list, in the order returned. */
  method SpliceDeleted(users: seq<UserData>, usersDeleted: seq<string>) returns (usersCopy: seq<UserData>)
    ensures usersCopy == RemoveDeleted(users, usersDeleted, |usersDeleted|)
  {
    usersCopy := users;
    var i := 0;
    while i < |usersDeleted|
      invariant 0 <= i <= |usersDeleted|
      invariant usersCopy == RemoveDeleted(users, usersDeleted, i)
    {
      var deletedUserId := usersDeleted[i];
      var userIndex := FindIndex(usersCopy, ById, deletedUserId);
      RemoveDeletedStep(users, usersDeleted, i);
      usersCopy := SpliceOne(usersCopy, userIndex);
      i := i + 1;
    }
  }

  /** One more returned id splices out the first record with that id. */
  lemma RemoveDeletedStep(users: seq<UserData>, ids: seq<string>, i: nat)
    requires i < |ids|
    ensures var s := RemoveDeleted(users, ids, i);
            RemoveDeleted(users, ids, i + 1) == SpliceOne(s, FindIndex(s, ById, ids[i]))
  {
  }

  /** `Set.delete`: the sequence without `x`, order kept. */
  function Remove(s: seq<string>, x: string): (r: seq<string>)
    ensures forall y :: y in r <==> y in s && y != x
    ensures |r| <= |s|
  {
    if s == [] then []
    else if s[0] == x then Remove(s[1..], x)
    else [s[0]] + Remove(s[1..], x)
  }

  lemma {:induction false} RemoveKeepsDistinct(s: seq<string>, x: string)
    requires Distinct(s)
    ensures Distinct(Remove(s, x))
  {
    if s != [] {
      RemoveKeepsDistinct(s[1..], x);
      assert s[0] !in s[1..];
    }
  }

  /** Toggling a row twice restores the marked set's members. */
  lemma ToggleTwiceRestores(rows: seq<string>, id: string)
    requires Distinct(rows)
    ensures id in rows ==> forall y :: y in Remove(rows, id) + [id] <==> y in rows
    ensures id !in rows ==> Remove(rows + [id], id) == rows
  {
    if id !in rows {
      RemoveAbsentAppended(rows, id);
    }
  }

  lemma {:induction false} RemoveAbsentAppended(rows: seq<string>, id: string)
    requires id !in rows
    ensures Remove(rows + [id], id) == rows
  {
    if rows != [] {
      assert (rows + [id])[1..] == rows[1..] + [id];
      RemoveAbsentAppended(rows[1..], id);
    } else {
      assert [id][1..] == [];
    }
  }

  /** Exactly the validated drafts are sent to create and exactly the
      validated edits to update, in list order. */
  lemma SaveSendsValidated(users: seq<UserData>)
    ensures forall i :: 0 <= i < |users| ==> (ToCreate(users[i]) <==> users[i] in Filter(users, ToCreate))
    ensures forall i :: 0 <= i < |users| ==> (ToUpdate(users[i]) <==> users[i] in Filter(users, ToUpdate))
  {
    FilterIndicesComplete(users, ToCreate);
    FilterIndicesComplete(users, ToUpdate);
  }

  /** The status and lists a save leaves, case by case: nothing to send
      reports "No changes to write" and keeps the lists; a failed create
      reports its error and skips the update; both kinds saved report the
      fixed success message; one kind saved reports that call's message;
      a failed update reports its error. Every completed save replaces the
      working list and the snapshot with the merged list. */
  lemma SaveChangesOutcomes(users: seq<UserData>,
                            create: seq<UserData> -> Result<Option<NewUsersResponse>, Error>,
                            update: seq<UserData> -> Result<SdkSaveChangedUsers.ChangedUsersResponse, Error>)
    ensures var e := SaveChangesEffect(users, create, update);
            var newUsers := Filter(users, ToCreate);
            var changedUsers := Filter(users, ToUpdate);
            && (newUsers == [] && changedUsers == [] ==> e == SaveEffect(NoChanges, None))
            && (newUsers != [] && create(newUsers).Failure? ==>
                  e == SaveEffect(ErrorStatus(create(newUsers).error, UnknownCreateError), None))
            && (newUsers != [] && create(newUsers).Success? && !ReturnedRecords(create(newUsers)) ==> e == SaveEffect(UnknownCreateError, None))
            && (newUsers != [] && ReturnedRecords(create(newUsers)) && changedUsers != []
                  && update(changedUsers).Failure? ==>
                  e == SaveEffect(ErrorStatus(update(changedUsers).error, UnknownUpdateError), None))
            && (newUsers != [] && ReturnedRecords(create(newUsers)) && changedUsers != []
                  && update(changedUsers).Success? ==>
                  e.status == WrittenToStore && e.saved.Some?)
            && (newUsers != [] && ReturnedRecords(create(newUsers)) && changedUsers == [] ==>
                  e.status == create(newUsers).value.value.message && e.saved.Some?)
            && (newUsers == [] && changedUsers != [] && update(changedUsers).Failure? ==>
                  e == SaveEffect(ErrorStatus(update(changedUsers).error, UnknownUpdateError), None))
            && (newUsers == [] && changedUsers != [] && update(changedUsers).Success? ==>
                  e.status == update(changedUsers).value.message && e.saved.Some?)
  {
  }

  /** A completed save changes local records only in the merged fields:
      a record whose email some added record has takes the first such
      record's id and `isNew`, a record whose id some updated record has
      takes the first such record's `isChanged`, and nothing else changes. */
  lemma SaveMergesOnlyIdsAndFlags(users: seq<UserData>,
                                  create: seq<UserData> -> Result<Option<NewUsersResponse>, Error>,
                                  update: seq<UserData> -> Result<SdkSaveChangedUsers.ChangedUsersResponse, Error>)
    ensures var e := SaveChangesEffect(users, create, update);
            e.saved.Some? ==>
              |e.saved.value| == |users|
              && forall i :: 0 <= i < |users| ==>
                   e.saved.value[i].(id := users[i].id, isNew := users[i].isNew, isChanged := users[i].isChanged) == users[i]
  {
    var e := SaveChangesEffect(users, create, update);
    if e.saved.Some? {
      var c := CreatePhase(users, Filter(users, ToCreate), create);
      var u := UpdatePhase(c.value, Filter(users, ToUpdate), update);
      assert e.saved.value == u.value.usersCopy;
    }
  }

  /** The working list after the save merge of ids: the first added
      record with the same email decides the id and the `isNew` flag, and
      a record no added record matches is unchanged. */
  lemma CreatedIdMerge(u: UserData, added: seq<UserData>)
    ensures var r := WithCreatedId(u, added);
            && r.(id := u.id, isNew := u.isNew) == u
            && ((exists j :: 0 <= j < |added| && added[j].email == u.email) ==>
                  exists j :: 0 <= j < |added| && added[j].email == u.email && r.id == added[j].id && r.isNew == added[j].isNew
                              && forall l :: 0 <= l < j ==> added[l].email != u.email)
            && ((forall j :: 0 <= j < |added| ==> added[j].email != u.email) ==> r == u)
  {
  }

  /** The filter keeping the users whose id is not among `ids`. */
  function NotAmong(ids: seq<string>): UserData -> bool {
    (u: UserData) => u.id !in ids
  }

  /** The filter keeping the users whose id is not `id`. */
  function OtherThan(id: string): UserData -> bool {
    (u: UserData) => u.id != id
  }

  /** Splicing out a returned id removes exactly that user when ids are
      unique and every returned id names a user: after the first `n` ids
      the list is the original one without those ids, in order. */
  lemma {:induction false} DeleteRemovesReturnedIds(users: seq<UserData>, ids: seq<string>, n: nat)
    requires n <= |ids|
    requires UniqueIds(users) && Distinct(ids)
    requires forall m :: 0 <= m < |ids| ==> HasUser(users, ids[m])
    ensures RemoveDeleted(users, ids, n) == Filter(users, NotAmong(ids[..n]))
  {
    if n == 0 {
      forall i | 0 <= i < |users| ensures NotAmong(ids[..0])(users[i]) {
        assert ids[..0] == [];
      }
      FilterKeepsAll(users, NotAmong(ids[..0]));
    } else {
      DeleteRemovesReturnedIds(users, ids, n - 1);
      var id := ids[n - 1];
      assert HasUser(users, id);
      var w :| 0 <= w < |users| && users[w].id == id;
      assert id !in ids[..n - 1];
      var s := RemoveDeleted(users, ids, n - 1);
      SpliceUniqueId(users, NotAmong(ids[..n - 1]), s, id, w, OtherThan(id));
      calc {
        RemoveDeleted(users, ids, n);
        SpliceOne(s, FindIndex(s, ById, id));
        Filter(s, OtherThan(id));
        { DropOneMoreId(users, ids, n); }
        Filter(users, NotAmong(ids[..n]));
      }
    }
  }

  /** Dropping the users with one more id is filtering by the longer list. */
  lemma DropOneMoreId(users: seq<UserData>, ids: seq<string>, n: nat)
    requires 0 < n <= |ids|
    ensures Filter(Filter(users, NotAmong(ids[..n - 1])), OtherThan(ids[n - 1])) == Filter(users, NotAmong(ids[..n]))
  {
    forall x: UserData ensures NotAmong(ids[..n])(x) == (NotAmong(ids[..n - 1])(x) && OtherThan(ids[n - 1])(x)) {
      assert ids[..n] == ids[..n - 1] + [ids[n - 1]];
    }
    FilterCompose(users, NotAmong(ids[..n - 1]), OtherThan(ids[n - 1]), NotAmong(ids[..n]));
  }

  /** In a filtered list of users with unique ids, splicing out the
      position `findIndex` gives for a kept user's id removes that user
      and nothing else. */
  lemma SpliceUniqueId(users: seq<UserData>, p: UserData -> bool, s: seq<UserData>, id: string, w: nat, q: UserData -> bool)
    requires UniqueIds(users) && s == Filter(users, p)
    requires w < |users| && users[w].id == id && p(users[w])
    requires forall u :: q(u) == (u.id != id)
    ensures SpliceOne(s, FindIndex(s, ById, id)) == Filter(s, q)
  {
    var idx := FilterIndices(users, p);
    FilterIndicesComplete(users, p);
    var k :| 0 <= k < |idx| && idx[k] == w;
    assert s[k].id == id;
    forall j | 0 <= j < |s| && j != k
      ensures s[j].id != id
    {
      assert s[j] == users[idx[j]] && idx[j] != w;
    }
    var f := FindIndex(s, ById, id);
    assert f == k by {
      assert KeyOf(s[k], ById) == id;
      assert KeyOf(s[f], ById) == s[f].id == id;
    }
    RemoveOneIsFilter(s, k, q);
  }

  /** A returned id that names no user makes `findIndex` answer -1, so the
      splice removes the last user instead. */
  lemma MissingIdRemovesLastUser(users: seq<UserData>, id: string)
    requires users != [] && forall j :: 0 <= j < |users| ==> users[j].id != id
    ensures RemoveDeleted(users, [id], 1) == users[..|users| - 1]
  {
  }
}
