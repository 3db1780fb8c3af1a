/** Batch deletion in the user-management Lambda: one delete call per id of
    the set, in the set's order. Every failure adds a line naming the id as
    a JSON string (marked " (not found)" for unknown ids) under a common
    header. The call succeeds only when every id was deleted, with a
    singular or plural message; otherwise it throws an error whose message
    is the JSON of the message, the details and an empty deleted list. */
module LambdaDelete {
  import opened Wrappers
  import opened Collections
  import opened UserModel
  import opened Json
  import SdkDeleteUsers

  /** The loop's variables; `deleted` is a `Set` in insertion order. */
  datatype DeleteState = DeleteState(deleted: seq<string>, message: string, details: string)

  const ErrorDeleting := "Error deleting users"
  const Header := "The following user IDs could not be deleted:"

  /** The detail text one failing id adds. */
  function FailureLine(id: string, o: DeleteOutcome): string {
    "\n" + Quote(id) + (if o.NotFound? then " (not found)" else "")
  }

  /** One iteration: a deletion adds the id to the set; a failure sets the
      message if it is empty, starts the details with the header if they
      are empty, and appends the id's line. */
  function Step(s: DeleteState, id: string, o: DeleteOutcome): DeleteState {
    if o.Deleted? then s.(deleted := if id in s.deleted then s.deleted else s.deleted + [id])
    else
      s.(message := if s.message == "" then ErrorDeleting else s.message,
         details := (if s.details == "" then Header else s.details) + FailureLine(id, o))
  }

  /** The state after the first `n` ids. */
  function Run(rows: seq<string>, outcomes: seq<DeleteOutcome>, n: nat): DeleteState
    requires n <= |rows| == |outcomes|
  {
    if n == 0 then DeleteState([], "", "")
    else Step(Run(rows, outcomes, n - 1), rows[n - 1], outcomes[n - 1])
  }

  /** The message of a full success: plural for more than one id, singular
      otherwise, also for an empty set. */
  function SuccessMessage(count: nat): string {
    (if count > 1 then "All users" else "User") + " successfully deleted"
  }

  /** `JSON.stringify` of the thrown response object, whose deleted list is
      always empty. */
  function FailurePayload(message: string, details: string): string {
    "{\"message\":" + Quote(message) + ",\"details\":" + Quote(details) + ",\"usersDeleted\":[]}"
  }

  /** What `deleteUsers` returns or throws, given the set's ids in order. */
  function DeleteUsersResult(rows: seq<string>, outcomes: seq<DeleteOutcome>): (r: Result<DeleteUsersOutcome, Error>)
    requires |rows| == |outcomes|
    ensures r.Success? ==> r.value.message == SuccessMessage(|rows|) && |r.value.usersDeleted| == |rows|
    ensures r.Failure? ==> r.error.PlainError?
  {
    var s := Run(rows, outcomes, |rows|);
    if |s.deleted| == |rows| then Success(DeleteUsersOutcome(SuccessMessage(|s.deleted|), s.details, s.deleted))
    else Failure(PlainError(FailurePayload(s.message, s.details)))
  }

  /** `deleteUsers` over the set of ids to delete. */
  method DeleteUsers(rowsForDeletion: seq<string>, outcomes: seq<DeleteOutcome>) returns (r: Result<DeleteUsersOutcome, Error>)
    requires Distinct(rowsForDeletion) && |rowsForDeletion| == |outcomes|
    ensures r == DeleteUsersResult(rowsForDeletion, outcomes)
  {
    var usersDeleted: seq<string> := [];
    var responseMessage := "";
    var responseDetails := "";
    var i := 0;
    while i < |rowsForDeletion|
      invariant 0 <= i <= |rowsForDeletion|
      invariant Run(rowsForDeletion, outcomes, i) == DeleteState(usersDeleted, responseMessage, responseDetails)
    {
      ghost var before := DeleteState(usersDeleted, responseMessage, responseDetails);
      assert Run(rowsForDeletion, outcomes, i + 1) == Step(before, rowsForDeletion[i], outcomes[i]);
      var userId := rowsForDeletion[i];
      if outcomes[i].Deleted? {
        if userId !in usersDeleted {
          usersDeleted := usersDeleted + [userId];
        }
      } else {
        if responseMessage == "" {
          responseMessage := ErrorDeleting;
        }
        if responseDetails == "" {
          responseDetails := Header;
        }
        var line := "\n" + Quote(userId);
        if outcomes[i].NotFound? {
          line := line + " (not found)";
        }
        responseDetails := responseDetails + line;
      }
      i := i + 1;
    }
    assert Run(rowsForDeletion, outcomes, |rowsForDeletion|) == DeleteState(usersDeleted, responseMessage, responseDetails);
    if |usersDeleted| == |rowsForDeletion| {
      if |usersDeleted| > 1 {
        responseMessage := "All users";
      } else {
        responseMessage := "User";
      }
      responseMessage := responseMessage + " successfully deleted";
      assert responseMessage == SuccessMessage(|usersDeleted|);
    } else {
      return Failure(PlainError(FailurePayload(responseMessage, responseDetails)));
    }
    return Success(DeleteUsersOutcome(responseMessage, responseDetails, usersDeleted));
  }

  /** The Lambda and the browser-side variant collect the same deleted ids. */
  lemma {:induction false} SameDeletedAsBrowser(rows: seq<string>, outcomes: seq<DeleteOutcome>, n: nat)
    requires n <= |rows| == |outcomes|
    ensures Run(rows, outcomes, n).deleted == SdkDeleteUsers.Run(rows, outcomes, n).deleted
  {
    if n > 0 {
      SameDeletedAsBrowser(rows, outcomes, n - 1);
    }
  }

  /** The failure lines of the first `n` ids, in order. */
  function FailureLines(rows: seq<string>, outcomes: seq<DeleteOutcome>, n: nat): seq<string>
    requires n <= |rows| == |outcomes|
  {
    if n == 0 then []
    else FailureLines(rows, outcomes, n - 1) + if outcomes[n - 1].Deleted? then [] else [FailureLine(rows[n - 1], outcomes[n - 1])]
  }

  /** The message the loop leaves is the generic error exactly when some
      id failed, and empty otherwise. */
  lemma {:induction false} MessageIffFailure(rows: seq<string>, outcomes: seq<DeleteOutcome>, n: nat)
    requires n <= |rows| == |outcomes|
    ensures Run(rows, outcomes, n).message == if AllWereDeleted(outcomes, n) then "" else ErrorDeleting
  {
    if n > 0 {
      MessageIffFailure(rows, outcomes, n - 1);
      if !AllWereDeleted(outcomes, n - 1) {
        assert !AllWereDeleted(outcomes, n);
      }
    }
  }

  /** The details are empty when nothing failed and otherwise the header
      followed by one line per failing id, in order. */
  lemma {:induction false} DetailsAreHeaderAndLines(rows: seq<string>, outcomes: seq<DeleteOutcome>, n: nat)
    requires n <= |rows| == |outcomes|
    ensures Run(rows, outcomes, n).details == if AllWereDeleted(outcomes, n) then "" else Header + Concat(FailureLines(rows, outcomes, n))
  {
    if n > 0 {
      DetailsAreHeaderAndLines(rows, outcomes, n - 1);
      var s0 := Run(rows, outcomes, n - 1);
      var o := outcomes[n - 1];
      var lines0 := FailureLines(rows, outcomes, n - 1);
      var allBefore := AllWereDeleted(outcomes, n - 1);
      if !o.Deleted? {
        var line := FailureLine(rows[n - 1], o);
        assert FailureLines(rows, outcomes, n) == lines0 + [line];
        assert Run(rows, outcomes, n).details == (if s0.details == "" then Header else s0.details) + line;
        if allBefore {
          NoFailureLines(rows, outcomes, n - 1);
        }
        DetailsGrow(s0.details, lines0, line, allBefore);
        assert !AllWereDeleted(outcomes, n);
      } else {
        assert FailureLines(rows, outcomes, n) == lines0;
        if !allBefore {
          assert !AllWereDeleted(outcomes, n);
        }
      }
    }
  }

  /** One more failure line under the header. */
  lemma DetailsGrow(details0: string, lines0: seq<string>, line: string, allBefore: bool)
    requires details0 == if allBefore then "" else Header + Concat(lines0)
    requires allBefore ==> lines0 == []
    ensures (if details0 == "" then Header else details0) + line == Header + Concat(lines0 + [line])
  {
    assert (lines0 + [line])[..|lines0|] == lines0;
    assert Concat(lines0 + [line]) == Concat(lines0) + line;
    if !allBefore {
      assert |details0| > 0;
      AppendAssociates(Header, Concat(lines0), line);
    }
  }

  lemma AppendAssociates(a: string, b: string, c: string)
    ensures (a + b) + c == a + (b + c)
  {
  }

  /** The details are empty exactly when every id was deleted. */
  lemma DetailsIffFailure(rows: seq<string>, outcomes: seq<DeleteOutcome>, n: nat)
    requires n <= |rows| == |outcomes|
    ensures Run(rows, outcomes, n).details == "" <==> AllWereDeleted(outcomes, n)
  {
    DetailsAreHeaderAndLines(rows, outcomes, n);
    assert |Header| > 0;
  }

  /** No failure, no failure lines. */
  lemma {:induction false} NoFailureLines(rows: seq<string>, outcomes: seq<DeleteOutcome>, n: nat)
    requires n <= |rows| == |outcomes| && AllWereDeleted(outcomes, n)
    ensures FailureLines(rows, outcomes, n) == []
  {
    if n > 0 {
      NoFailureLines(rows, outcomes, n - 1);
    }
  }

  /** How many of the first `n` ids failed. */
  function FailureCount(outcomes: seq<DeleteOutcome>, n: nat): nat
    requires n <= |outcomes|
  {
    if n == 0 then 0 else FailureCount(outcomes, n - 1) + if outcomes[n - 1].Deleted? then 0 else 1
  }

  /** A failure line holds exactly one line break, its first character. */
  lemma FailureLineBreaks(id: string, o: DeleteOutcome)
    ensures Count(FailureLine(id, o), '\n') == 1
  {
    var q := Quote(id) + (if o.NotFound? then " (not found)" else "");
    QuoteHasNoLineBreak(id);
    assert '\n' !in q;
    CountAbsent(q, '\n');
    CountAppend("\n", q, '\n');
    assert Count("\n", '\n') == 1 by {
      assert "\n"[..0] == [];
    }
    assert FailureLine(id, o) == "\n" + q;
  }

  /** There is one failure line per failing id, and each holds one line
      break, whatever characters the ids hold, since quoting escapes line
      breaks. */
  lemma {:induction false} OneLinePerFailure(rows: seq<string>, outcomes: seq<DeleteOutcome>, n: nat)
    requires n <= |rows| == |outcomes|
    ensures var lines := FailureLines(rows, outcomes, n);
            |lines| == FailureCount(outcomes, n) && forall k :: 0 <= k < |lines| ==> Count(lines[k], '\n') == 1
  {
    if n > 0 {
      OneLinePerFailure(rows, outcomes, n - 1);
      if !outcomes[n - 1].Deleted? {
        FailureLineBreaks(rows[n - 1], outcomes[n - 1]);
      }
    }
  }

  /** The details of a failed call hold exactly one line break per failing id. */
  lemma DetailLinesCountFailures(rows: seq<string>, outcomes: seq<DeleteOutcome>, n: nat)
    requires n <= |rows| == |outcomes|
    ensures Count(Run(rows, outcomes, n).details, '\n') == FailureCount(outcomes, n)
  {
    DetailsAreHeaderAndLines(rows, outcomes, n);
    OneLinePerFailure(rows, outcomes, n);
    var lines := FailureLines(rows, outcomes, n);
    CountConcat(lines, '\n');
    if AllWereDeleted(outcomes, n) {
      NoFailureLines(rows, outcomes, n);
    } else {
      CountAbsent(Header, '\n');
      CountAppend(Header, Concat(lines), '\n');
    }
  }

  /** For a set of ids: the call succeeds exactly when every id was
      deleted, and then reports every id, empty details and the singular or
      plural message; otherwise the thrown payload carries the generic
      message, the header and the failure lines, and no deleted ids. */
  lemma DeleteUsersOutcomes(rows: seq<string>, outcomes: seq<DeleteOutcome>)
    requires Distinct(rows) && |rows| == |outcomes|
    ensures var r := DeleteUsersResult(rows, outcomes);
            && (r.Success? <==> AllWereDeleted(outcomes, |rows|))
            && (r.Success? ==> r.value == DeleteUsersOutcome(SuccessMessage(|rows|), "", rows))
            && (r.Failure? ==> r.error == PlainError(FailurePayload(ErrorDeleting, Header + Concat(FailureLines(rows, outcomes, |rows|)))))
  {
    var n := |rows|;
    SameDeletedAsBrowser(rows, outcomes, n);
    SdkDeleteUsers.DeletedCount(rows, outcomes, n);
    DetailsAreHeaderAndLines(rows, outcomes, n);
    MessageIffFailure(rows, outcomes, n);
    if AllWereDeleted(outcomes, n) {
      AllDeletedInOrder(rows, outcomes, n);
    }
  }

  /** When every id is deleted, the set holds them in order. */
  lemma {:induction false} AllDeletedInOrder(rows: seq<string>, outcomes: seq<DeleteOutcome>, n: nat)
    requires n <= |rows| == |outcomes| && Distinct(rows) && AllWereDeleted(outcomes, n)
    ensures Run(rows, outcomes, n).deleted == rows[..n]
  {
    if n > 0 {
      AllDeletedInOrder(rows, outcomes, n - 1);
      assert rows[n - 1] !in rows[..n - 1];
      assert rows[..n - 1] + [rows[n - 1]] == rows[..n];
    }
  }

  /** The singular message is used for zero and one ids, the plural one
      from two on. */
  lemma SuccessMessageByCount(count: nat)
    ensures SuccessMessage(count) == if count > 1 then "All users successfully deleted" else "User successfully deleted"
    ensures SuccessMessage(0) == "User successfully deleted"
  {
  }
}
