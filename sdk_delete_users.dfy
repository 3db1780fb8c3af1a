/** The browser-side deletion of the selected rows: one delete call per id,
    in the selection's iteration order. Ids the directory does not know
    (drafts created in this session still carry their placeholder id)
    produce the "refresh the page" message and a detail line; other errors
    name the first failing id unless a message is already set. */
module SdkDeleteUsers {
  import opened Collections
  import opened UserModel

  /** The loop's variables; `deleted` is a `Set` in insertion order. */
  datatype DeleteState = DeleteState(deleted: seq<string>, message: string, details: string)

  const RefreshFirst := "Page must be refreshed before deleting newly-created users"
  const AllDeleted := "All users successfully deleted"

  function Step(s: DeleteState, id: string, o: DeleteOutcome): DeleteState {
    match o
    case Deleted => s.(deleted := if id in s.deleted then s.deleted else s.deleted + [id])
    case NotFound => s.(message := RefreshFirst, details := s.details + "User with ID " + id + " not deleted\n")
    case DeleteFailed => if s.message == "" then s.(message := "Error deleting user with ID " + id) else s
  }

  /** The state after the first `n` ids. */
  function Run(rows: seq<string>, outcomes: seq<DeleteOutcome>, n: nat): DeleteState
    requires n <= |rows| == |outcomes|
  {
    if n == 0 then DeleteState([], "", "")
    else Step(Run(rows, outcomes, n - 1), rows[n - 1], outcomes[n - 1])
  }

  /** The response: when as many ids were deleted as were selected, the
      message is replaced by the all-deleted message. */
  function Respond(s: DeleteState, selected: nat): DeleteState {
    if |s.deleted| == selected then s.(message := AllDeleted) else s
  }

  /** `deleteUsers` over the selection, given as the `Set`'s ids in order. */
  method DeleteUsers(rowsForDeletion: seq<string>, outcomes: seq<DeleteOutcome>) returns (response: DeleteState)
    requires Distinct(rowsForDeletion) && |rowsForDeletion| == |outcomes|
    ensures response == Respond(Run(rowsForDeletion, outcomes, |rowsForDeletion|), |rowsForDeletion|)
  {
    var usersDeleted: seq<string> := [];
    var responseMessage := "";
    var responseDetails := "";
    var i := 0;
    while i < |rowsForDeletion|
      invariant 0 <= i <= |rowsForDeletion|
      invariant Run(rowsForDeletion, outcomes, i) == DeleteState(usersDeleted, responseMessage, responseDetails)
    {
      var userId := rowsForDeletion[i];
      match outcomes[i] {
        case Deleted =>
          if userId !in usersDeleted {
            usersDeleted := usersDeleted + [userId];
          }
        case NotFound =>
          responseMessage := RefreshFirst;
          responseDetails := responseDetails + "User with ID " + userId + " not deleted\n";
        case DeleteFailed =>
          if responseMessage == "" {
            responseMessage := "Error deleting user with ID " + userId;
          }
      }
      i := i + 1;
    }
    if |usersDeleted| == |rowsForDeletion| {
      responseMessage := AllDeleted;
    }
    response := DeleteState(usersDeleted, responseMessage, responseDetails);
  }

  /** The position of the first generic failure among the first `n` ids, or -1. */
  function FirstFailure(outcomes: seq<DeleteOutcome>, n: nat): (j: int)
    requires n <= |outcomes|
    ensures -1 <= j < n
    ensures j == -1 <==> forall i :: 0 <= i < n ==> !outcomes[i].DeleteFailed?
    ensures j >= 0 ==> outcomes[j].DeleteFailed? && forall i :: 0 <= i < j ==> !outcomes[i].DeleteFailed?
  {
    if n == 0 then -1
    else
      var j := FirstFailure(outcomes, n - 1);
      if j == -1 && outcomes[n - 1].DeleteFailed? then n - 1 else j
  }

  /** With distinct ids, every id deleted so far is one of the ids seen, and
      as many ids are deleted as ids were seen exactly when every one of
      them was deleted. */
  lemma {:induction false} DeletedCount(rows: seq<string>, outcomes: seq<DeleteOutcome>, n: nat)
    requires n <= |rows| == |outcomes| && Distinct(rows)
    ensures var d := Run(rows, outcomes, n).deleted;
            && (forall x :: x in d ==> x in rows[..n])
            && |d| <= n
            && (|d| == n <==> AllWereDeleted(outcomes, n))
  {
    if n > 0 {
      DeletedCount(rows, outcomes, n - 1);
      var d := Run(rows, outcomes, n - 1).deleted;
      assert rows[..n] == rows[..n - 1] + [rows[n - 1]];
      assert rows[n - 1] !in rows[..n - 1];
      assert rows[n - 1] !in d;
    }
  }

  /** The message the loop leaves: the refresh message once any id was
      unknown (it overwrites everything), otherwise the error naming the
      FIRST generically failing id, otherwise nothing. */
  lemma {:induction false} LoopMessage(rows: seq<string>, outcomes: seq<DeleteOutcome>, n: nat)
    requires n <= |rows| == |outcomes|
    ensures var j := FirstFailure(outcomes, n);
            Run(rows, outcomes, n).message
            == if SomeNotFound(outcomes, n) then RefreshFirst
               else if j >= 0 then "Error deleting user with ID " + rows[j]
               else ""
  {
    if n > 0 {
      LoopMessage(rows, outcomes, n - 1);
      if SomeNotFound(outcomes, n - 1) {
        assert SomeNotFound(outcomes, n);
      }
    }
  }

  /** The details hold a line exactly when some id was unknown. */
  lemma {:induction false} DetailsIffNotFound(rows: seq<string>, outcomes: seq<DeleteOutcome>, n: nat)
    requires n <= |rows| == |outcomes|
    ensures Run(rows, outcomes, n).details != "" <==> SomeNotFound(outcomes, n)
  {
    if n > 0 {
      DetailsIffNotFound(rows, outcomes, n - 1);
      if SomeNotFound(outcomes, n - 1) {
        assert SomeNotFound(outcomes, n);
      }
    }
  }

  /** The message the caller sees for a selection of distinct ids: the
      all-deleted message when every id was deleted (so also for an empty
      selection), and otherwise the loop's message. */
  lemma DeleteUsersMessage(rows: seq<string>, outcomes: seq<DeleteOutcome>, n: nat)
    requires n <= |rows| == |outcomes| && Distinct(rows)
    ensures var s := Run(rows, outcomes, n);
            && (AllWereDeleted(outcomes, n) ==> Respond(s, n).message == AllDeleted)
            && (!AllWereDeleted(outcomes, n) ==> Respond(s, n) == s)
  {
    DeletedCount(rows, outcomes, n);
  }

  /** How many of the first `n` ids the directory did not know. */
  function NotFoundCount(outcomes: seq<DeleteOutcome>, n: nat): nat
    requires n <= |outcomes|
  {
    if n == 0 then 0 else NotFoundCount(outcomes, n - 1) + if outcomes[n - 1].NotFound? then 1 else 0
  }

  /** The details hold one line per id the directory did not know (when no
      id holds a line break). */
  lemma {:induction false} DetailLinesCountNotFound(rows: seq<string>, outcomes: seq<DeleteOutcome>, n: nat)
    requires n <= |rows| == |outcomes|
    requires forall i :: 0 <= i < |rows| ==> '\n' !in rows[i]
    ensures Count(Run(rows, outcomes, n).details, '\n') == NotFoundCount(outcomes, n)
  {
    if n > 0 {
      DetailLinesCountNotFound(rows, outcomes, n - 1);
      var s := Run(rows, outcomes, n - 1);
      if outcomes[n - 1].NotFound? {
        DetailLineCounts(s.details, rows[n - 1]);
      }
    }
  }

  /** A not-found detail line adds one line break. */
  lemma DetailLineCounts(details: string, id: string)
    requires '\n' !in id
    ensures Count(details + "User with ID " + id + " not deleted\n", '\n') == Count(details, '\n') + 1
  {
    var prefix, suffix := "User with ID ", " not deleted";
    assert '\n' !in prefix && '\n' !in suffix;
    var line := prefix + id + suffix;
    CountTerminatedLine(details, line, '\n');
    assert details + prefix + id + " not deleted\n" == details + line + ['\n'];
  }
}
