/** Sequences of page and row events that show where the page's shared
    record objects decide what the user sees: the row's revert test reads
    the record the page last wrote, and the snapshot taken by a delete
    shares its records with the working list. Each scenario runs the page
    and row methods on a fresh page. */
module AdminScenarios {
  import opened Wrappers
  import opened Collections
  import opened UserModel
  import opened AdminPage
  import opened UserRow

  /** As written: a persisted user's first name is typed over and left
      (the page's record now holds the new name); typing the stored name
      back keeps the row dirty, and typing the new name again clears it,
      so after the next blur the save sends nothing although the name
      differs from the stored one. */
  method BlurredValueMasksRevert(u: UserData, name: string)
      returns (dirtyAtStored: bool, toUpdate: seq<UserData>, shown: UserData)
    requires !u.isNew && !u.isChanged && name != "" && name != u.firstName
    ensures dirtyAtStored
    ensures shown.firstName == name && shown.firstName != u.firstName && !shown.isChanged
    ensures toUpdate == []
  {
    var page := new AdminPanel(u.tenantId, u.organisationName, None, false);
    page.LoadUsers([u]);
    var row := new UserRowState(page, 0);
    row.HandleChange(FirstName, name);
    row.HandleBlur(FirstName, name);
    assert page.users == [row.userDetails];
    row.HandleChange(FirstName, u.firstName);
    dirtyAtStored := row.userDetails.isChanged;
    row.HandleChange(FirstName, name);
    assert !row.userDetails.isChanged;
    row.HandleBlur(FirstName, name);
    assert page.users == [row.userDetails];
    toUpdate := Filter(page.users, ToUpdate);
    shown := page.users[0];
  }

  /** A delete of `u2` from the loaded list `[u1, u2]`. */
  method LoadAndDeleteSecond(u1: UserData, u2: UserData, clonesOnCommit: bool) returns (page: AdminPanel)
    requires u1.id != u2.id
    ensures fresh(page) && page.Valid()
    ensures page.users == [u1] && page.originalUsers == [u1]
    ensures page.clonesOnCommit == clonesOnCommit && page.snapshotShared == !clonesOnCommit
  {
    page := new AdminPanel(u1.tenantId, u1.organisationName, None, clonesOnCommit);
    page.LoadUsers([u1, u2]);
    page.DeleteToggle(u2);
    var answer: Result<DeleteUsersOutcome, Error> := Success(DeleteUsersOutcome("", "", [u2.id]));
    page.DeleteSelected(ids => answer);
    assert FindIndex([u1, u2], ById, u2.id) == 1;
    assert RemoveDeleted([u1, u2], [u2.id], 1) == SpliceOne([u1, u2], 1) == [u1];
  }

  /** As written: after a delete, an edit folded into the page reaches
      the snapshot through the shared record, so a cancel keeps it. */
  method EditAfterDeleteSurvivesCancel(u1: UserData, u2: UserData, name: string) returns (shown: seq<UserData>)
    requires u1.id != u2.id
    ensures shown == [u1.(firstName := name)]
  {
    var page := LoadAndDeleteSecond(u1, u2, false);
    page.UpdateUserSetWithChanges(u1.(firstName := name));
    assert FindIndex([u1], ById, u1.id) == 0;
    page.Cancel();
    shown := page.users;
  }

  /** Corrected: when the delete stores a copy as the snapshot, a cancel
      undoes the edit and restores the list as the delete left it. */
  method CopiedSnapshotUndoesEdit(u1: UserData, u2: UserData, name: string) returns (shown: seq<UserData>)
    requires u1.id != u2.id
    ensures shown == [u1]
  {
    var page := LoadAndDeleteSecond(u1, u2, true);
    page.UpdateUserSetWithChanges(u1.(firstName := name));
    page.Cancel();
    shown := page.users;
  }
}
