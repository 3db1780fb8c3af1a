/** The browser-side update of edited users: one attribute-update call per
    changed record, in order. An accepted record has its `isChanged` flag
    cleared in place and is reported as updated; a rejected one leaves the
    rejection message and a detail line naming its id. */
module SdkSaveChangedUsers {
  import opened Collections
  import opened UserModel

  /** The directory's answer to one update call. */
  datatype UpdateOutcome = Updated | UpdateRejected

  /** The loop's variables; `updated` holds positions of the pushed records. */
  datatype ChangedState = ChangedState(batch: seq<UserData>, updated: seq<nat>, message: string, details: string)

  datatype ChangedUsersResponse = ChangedUsersResponse(message: string, details: string, usersUpdated: seq<UserData>)

  const ChangesSaved := "Changes saved successfully"

  function Step(s: ChangedState, i: nat, o: UpdateOutcome): ChangedState
    requires i < |s.batch|
  {
    match o
    case Updated =>
      s.(batch := s.batch[i := s.batch[i].(isChanged := false)], updated := s.updated + [i])
    case UpdateRejected =>
      s.(message := UnableToSave, details := s.details + "Error updating user " + s.batch[i].id + "\n")
  }

  /** The state after the first `n` records. */
  function Run(batch: seq<UserData>, outcomes: seq<UpdateOutcome>, n: nat): (s: ChangedState)
    requires n <= |batch| == |outcomes|
    ensures |s.batch| == |batch|
    ensures forall j :: 0 <= j < |s.updated| ==> s.updated[j] < n
  {
    if n == 0 then ChangedState(batch, [], "", "")
    else Step(Run(batch, outcomes, n - 1), n - 1, outcomes[n - 1])
  }

  /** The response as the code builds it: the success test reads the
      response object's own `message`, which is still the empty string it
      was initialised with, so any update at all yields the success message,
      replacing a rejection message. */
  function RespondAsWritten(s: ChangedState): (r: ChangedUsersResponse)
    requires forall j :: 0 <= j < |s.updated| ==> s.updated[j] < |s.batch|
    ensures |s.updated| > 0 ==> r.message == ChangesSaved
    ensures |s.updated| == 0 ==> r.message == s.message
    ensures r.details == s.details && |r.usersUpdated| == |s.updated|
    ensures forall j :: 0 <= j < |s.updated| ==> r.usersUpdated[j] == s.batch[s.updated[j]]
  {
    var responseObjectMessage := "";
    var message := if responseObjectMessage == "" && |s.updated| > 0 then ChangesSaved else s.message;
    ChangedUsersResponse(message, s.details, seq(|s.updated|, j requires 0 <= j < |s.updated| => s.batch[s.updated[j]]))
  }

  /** The response as intended, and as the create path does it: the success
      message only when the loop left no rejection message. */
  function Respond(s: ChangedState): (r: ChangedUsersResponse)
    requires forall j :: 0 <= j < |s.updated| ==> s.updated[j] < |s.batch|
    ensures s.message != "" ==> r.message == s.message
    ensures s.message == "" ==> r.message == (if |s.updated| > 0 then ChangesSaved else "")
    ensures r.details == s.details && |r.usersUpdated| == |s.updated|
    ensures forall j :: 0 <= j < |s.updated| ==> r.usersUpdated[j] == s.batch[s.updated[j]]
  {
    var message := if s.message == "" && |s.updated| > 0 then ChangesSaved else s.message;
    ChangedUsersResponse(message, s.details, seq(|s.updated|, j requires 0 <= j < |s.updated| => s.batch[s.updated[j]]))
  }

  /** `saveChangedUsers` as written: the records are patched in place, and
      the success test reads the response object's own message, which is
      still the empty string it was created with. */
  method SaveChangedUsers(changedUsers: array<UserData>, outcomes: seq<UpdateOutcome>) returns (response: ChangedUsersResponse)
    requires changedUsers.Length == |outcomes|
    modifies changedUsers
    ensures var s := Run(old(changedUsers[..]), outcomes, |outcomes|);
            changedUsers[..] == s.batch && response == RespondAsWritten(s)
  {
    var responseObject := ChangedUsersResponse("", "", []);
    var usersUpdated: seq<nat> := [];
    var responseMessage := "";
    var responseDetails := "";
    ghost var records := changedUsers[..];
    var i := 0;
    while i < changedUsers.Length
      invariant 0 <= i <= changedUsers.Length
      invariant Run(records, outcomes, i) == ChangedState(changedUsers[..], usersUpdated, responseMessage, responseDetails)
    {
      ghost var before := ChangedState(changedUsers[..], usersUpdated, responseMessage, responseDetails);
      assert Run(records, outcomes, i + 1) == Step(before, i, outcomes[i]);
      match outcomes[i] {
        case Updated =>
          changedUsers[i] := changedUsers[i].(isChanged := false);
          usersUpdated := usersUpdated + [i];
        case UpdateRejected =>
          responseMessage := UnableToSave;
          responseDetails := responseDetails + "Error updating user " + changedUsers[i].id + "\n";
      }
      i := i + 1;
    }
    if responseObject.message == "" && |usersUpdated| > 0 {
      responseMessage := ChangesSaved;
    }
    var patched := changedUsers[..];
    response := responseObject.(message := responseMessage, details := responseDetails,
                                usersUpdated := seq(|usersUpdated|, j requires 0 <= j < |usersUpdated| => patched[usersUpdated[j]]));
    assert response.usersUpdated == RespondAsWritten(Run(records, outcomes, |outcomes|)).usersUpdated;
  }

  /** Each of the first `n` records was accepted. */
  predicate AllUpdated(outcomes: seq<UpdateOutcome>, n: nat)
    requires n <= |outcomes|
  {
    forall i :: 0 <= i < n ==> outcomes[i].Updated?
  }

  /** Some of the first `n` records was accepted. */
  predicate SomeUpdated(outcomes: seq<UpdateOutcome>, n: nat)
    requires n <= |outcomes|
  {
    exists i :: 0 <= i < n && outcomes[i].Updated?
  }

  /** Something is reported as updated exactly when some record was accepted. */
  lemma {:induction false} UpdatedIffSomeAccepted(batch: seq<UserData>, outcomes: seq<UpdateOutcome>, n: nat)
    requires n <= |batch| == |outcomes|
    ensures |Run(batch, outcomes, n).updated| > 0 <==> SomeUpdated(outcomes, n)
  {
    if n > 0 {
      UpdatedIffSomeAccepted(batch, outcomes, n - 1);
    }
  }

  /** The loop's message is empty exactly when nothing was rejected, and the
      rejection message otherwise. */
  lemma {:induction false} MessageRecordsRejection(batch: seq<UserData>, outcomes: seq<UpdateOutcome>, n: nat)
    requires n <= |batch| == |outcomes|
    ensures var m := Run(batch, outcomes, n).message;
            (m == "" <==> AllUpdated(outcomes, n)) && (m == "" || m == UnableToSave)
  {
    if n > 0 {
      MessageRecordsRejection(batch, outcomes, n - 1);
    }
  }

  /** As written, after the first `n` records the caller sees the success
      message exactly when some record was accepted, whatever was rejected
      beside it, and otherwise the loop's own message. */
  lemma AsWrittenMessage(batch: seq<UserData>, outcomes: seq<UpdateOutcome>, n: nat)
    requires n <= |batch| == |outcomes|
    ensures var s := Run(batch, outcomes, n);
            RespondAsWritten(s).message == (if SomeUpdated(outcomes, n) then ChangesSaved else s.message)
  {
    UpdatedIffSomeAccepted(batch, outcomes, n);
  }

  /** As written, the success message is shown exactly when some record was
      accepted, and the rejection message only when every record was
      rejected. */
  lemma AsWrittenRejectionShown(batch: seq<UserData>, outcomes: seq<UpdateOutcome>, n: nat)
    requires n <= |batch| == |outcomes|
    ensures var m := RespondAsWritten(Run(batch, outcomes, n)).message;
            && (m == ChangesSaved <==> SomeUpdated(outcomes, n))
            && (m == UnableToSave <==> n > 0 && !SomeUpdated(outcomes, n))
  {
    AsWrittenMessage(batch, outcomes, n);
    MessageRecordsRejection(batch, outcomes, n);
    if n > 0 && !SomeUpdated(outcomes, n) {
      assert !outcomes[0].Updated?;
    }
  }

  /** With the corrected test, after the first `n` records the caller sees
      the success message exactly when there were records and all were
      accepted, and the rejection message exactly when one was rejected. */
  lemma SaveChangedUsersMessage(batch: seq<UserData>, outcomes: seq<UpdateOutcome>, n: nat)
    requires n <= |batch| == |outcomes|
    ensures var m := Respond(Run(batch, outcomes, n)).message;
            && (m == ChangesSaved <==> n > 0 && AllUpdated(outcomes, n))
            && (m == UnableToSave <==> !AllUpdated(outcomes, n))
            && (m == "" <==> n == 0)
  {
    UpdatedIffSomeAccepted(batch, outcomes, n);
    MessageRecordsRejection(batch, outcomes, n);
    if n > 0 && AllUpdated(outcomes, n) {
      assert outcomes[0].Updated?;
    }
  }

  /** Only the `isChanged` flags of accepted records change, and each of
      them is cleared. */
  lemma {:induction false} AcceptedRecordsAreClean(batch: seq<UserData>, outcomes: seq<UpdateOutcome>, n: nat)
    requires n <= |batch| == |outcomes|
    ensures var b := Run(batch, outcomes, n).batch;
            forall i :: 0 <= i < |batch| ==>
              b[i] == if i < n && outcomes[i].Updated? then batch[i].(isChanged := false) else batch[i]
  {
    if n > 0 {
      AcceptedRecordsAreClean(batch, outcomes, n - 1);
    }
  }

  /** Every record is accounted for once: the updated records and the
      detail lines together number the records seen (when no id holds a
      line break). */
  lemma {:induction false} UpdatedPlusDetailLines(batch: seq<UserData>, outcomes: seq<UpdateOutcome>, n: nat)
    requires n <= |batch| == |outcomes|
    requires forall i :: 0 <= i < |batch| ==> '\n' !in batch[i].id
    ensures var s := Run(batch, outcomes, n);
            |s.updated| + Count(s.details, '\n') == n
  {
    if n > 0 {
      UpdatedPlusDetailLines(batch, outcomes, n - 1);
      var s := Run(batch, outcomes, n - 1);
      if outcomes[n - 1].UpdateRejected? {
        AcceptedRecordsAreClean(batch, outcomes, n - 1);
        var id := s.batch[n - 1].id;
        assert id == batch[n - 1].id;
        DetailLineCounts(s.details, id);
      }
    }
  }

  /** A rejection's detail line adds one line break. */
  lemma DetailLineCounts(details: string, id: string)
    requires '\n' !in id
    ensures Count(details + "Error updating user " + id + "\n", '\n') == Count(details, '\n') + 1
  {
    var prefix := "Error updating user ";
    assert '\n' !in prefix;
    var line := prefix + id;
    CountTerminatedLine(details, line, '\n');
    assert details + prefix + id + "\n" == details + line + ['\n'];
  }

  /** The code as written reports success over a rejection: one accepted
      and one rejected record give the success message, while the details
      still name the rejected record. */
  lemma AsWrittenHidesRejection(u1: UserData, u2: UserData)
    ensures var s := Run([u1, u2], [Updated, UpdateRejected], 2);
            var r := RespondAsWritten(s);
            r.message == ChangesSaved && r.details == "Error updating user " + u2.id + "\n"
            && Respond(s).message == UnableToSave
  {
    var b := [u1, u2];
    var o := [Updated, UpdateRejected];
    var v1 := u1.(isChanged := false);
    assert Run(b, o, 1) == ChangedState([v1, u2], [0], "", "");
    assert Run(b, o, 2) == ChangedState([v1, u2], [0], UnableToSave, "" + "Error updating user " + u2.id + "\n");
  }
}
