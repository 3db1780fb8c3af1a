/** Batch update in the user-management Lambda: each record with all
    required fields gets one attribute-update call; an accepted record has
    `isChanged` cleared and is collected, then the same command is sent a
    second time through a second client. Failures are caught per record and
    recorded in a message and "\n"-joined details that never leave the
    function: the caller gets the collected records. */
module LambdaUpdate {
  import opened Wrappers
  import opened Collections
  import opened UserModel
  import opened LambdaCreate

  /** The outcome of one `send`. */
  datatype SendResult = Sent | SendFailed

  /** The two sends made for one record: through the Lambda's client, then
      through the second client; the second is made only after the first
      succeeded. */
  datatype UpdateAttempt = UpdateAttempt(first: SendResult, second: SendResult)

  /** The loop's variables. */
  datatype UpdateState = UpdateState(updated: seq<UserData>, message: string, details: string)

  /** The required-field check: id, first name, last name and email must
      be non-empty. */
  predicate HasRequiredFields(u: UserData) {
    u.id != "" && u.firstName != "" && u.lastName != "" && u.email != ""
  }

  /** A caught failure: the message is set and a detail entry naming the
      record's id is appended, separated from earlier entries by "\n". */
  function Fail(s: UpdateState, u: UserData): UpdateState {
    s.(message := UnableToSave,
       details := (if |s.details| == 0 then s.details else s.details + "\n") + "Error updating user " + u.id)
  }

  /** One iteration. A record that passes the check and whose first send
      succeeds is collected before the second send, so a failing second
      send leaves it collected AND named in the details. */
  function Step(s: UpdateState, u: UserData, a: UpdateAttempt): UpdateState {
    if !HasRequiredFields(u) || a.first.SendFailed? then Fail(s, u)
    else
      var s1 := s.(updated := s.updated + [u.(isChanged := false)]);
      if a.second.SendFailed? then Fail(s1, u) else s1
  }

  /** The state after the first `n` records. */
  function Run(users: seq<UserData>, attempts: seq<UpdateAttempt>, n: nat): UpdateState
    requires n <= |users| == |attempts|
  {
    if n == 0 then UpdateState([], "", "")
    else Step(Run(users, attempts, n - 1), users[n - 1], attempts[n - 1])
  }

  /** What `updateUsers` returns or throws: parse errors and an empty batch
      throw (with the create path's wording), and otherwise the collected
      records are returned, whatever failed. */
  function UpdateUsersResult(body: Parsed<seq<UserData>>, attempts: seq<UpdateAttempt>): (r: Result<seq<UserData>, Error>)
    requires body.Parsed? ==> |attempts| == |body.value|
    ensures body == Parsed([]) ==> r == Failure(ManageUsersError("Unable to create users", "No users supplied"))
    ensures body.Unparsable? ==> r == Failure(PlainError("Invalid body format: " + body.reason))
    ensures body.Parsed? && body.value != [] ==> r.Success?
  {
    match body
    case Unparsable(reason) => Failure(PlainError("Invalid body format: " + reason))
    case Parsed(users) =>
      if |users| == 0 then Failure(ManageUsersError("Unable to create users", "No users supplied"))
      else Success(Run(users, attempts, |users|).updated)
  }

  /** `updateUsers` with the sends' results supplied per record. */
  method UpdateUsers(body: Parsed<seq<UserData>>, attempts: seq<UpdateAttempt>) returns (r: Result<seq<UserData>, Error>)
    requires body.Parsed? ==> |attempts| == |body.value|
    ensures r == UpdateUsersResult(body, attempts)
  {
    if body.Unparsable? {
      return Failure(PlainError("Invalid body format: " + body.reason));
    }
    var changedUsers := body.value;
    if |changedUsers| == 0 {
      return Failure(ManageUsersError("Unable to create users", "No users supplied"));
    }
    var responseMessage := "";
    var responseDetails := "";
    var usersUpdated: seq<UserData> := [];
    var i := 0;
    while i < |changedUsers|
      invariant 0 <= i <= |changedUsers|
      invariant Run(changedUsers, attempts, i) == UpdateState(usersUpdated, responseMessage, responseDetails)
    {
      var user := changedUsers[i];
      var failed := false;
      if !HasRequiredFields(user) || attempts[i].first.SendFailed? {
        failed := true;
      } else {
        usersUpdated := usersUpdated + [user.(isChanged := false)];
        failed := attempts[i].second.SendFailed?;
      }
      if failed {
        responseMessage := UnableToSave;
        if |responseDetails| != 0 {
          responseDetails := responseDetails + "\n";
        }
        responseDetails := responseDetails + "Error updating user " + user.id;
      }
      i := i + 1;
    }
    return Success(usersUpdated);
  }

  /** The record pairs with its attempt. */
  function Pairs(users: seq<UserData>, attempts: seq<UpdateAttempt>): (ps: seq<(UserData, UpdateAttempt)>)
    requires |users| == |attempts|
    ensures |ps| == |users|
  {
    seq(|users|, i requires 0 <= i < |users| => (users[i], attempts[i]))
  }

  /** A record is collected when it passes the check and its first send
      succeeds; the second send does not matter. */
  predicate Collected(p: (UserData, UpdateAttempt)) {
    HasRequiredFields(p.0) && p.1.first.Sent?
  }

  /** A record fails when it is not collected or its second send fails. */
  predicate Failed(p: (UserData, UpdateAttempt)) {
    !Collected(p) || p.1.second.SendFailed?
  }

  /** The collected records with their flag cleared. */
  function Cleared(ps: seq<(UserData, UpdateAttempt)>): (us: seq<UserData>)
    ensures |us| == |ps|
  {
    seq(|ps|, i requires 0 <= i < |ps| => ps[i].0.(isChanged := false))
  }

  /** The returned records are exactly the collected ones, in input order:
      the input filtered by "passes the check and the first send
      succeeded", each with `isChanged` cleared. */
  lemma {:induction false} UpdatedAreTheCollectedRecords(users: seq<UserData>, attempts: seq<UpdateAttempt>, n: nat)
    requires n <= |users| == |attempts|
    ensures Run(users, attempts, n).updated == Cleared(Filter(Pairs(users, attempts)[..n], Collected))
  {
    if n > 0 {
      UpdatedAreTheCollectedRecords(users, attempts, n - 1);
      var ps := Pairs(users, attempts)[..n];
      assert ps[..|ps| - 1] == Pairs(users, attempts)[..n - 1];
      assert ps[|ps| - 1] == (users[n - 1], attempts[n - 1]);
    }
  }

  /** The detail entries of the failed records among the first `n`, in order. */
  function FailureEntries(users: seq<UserData>, attempts: seq<UpdateAttempt>, n: nat): (lines: seq<string>)
    requires n <= |users| == |attempts|
    ensures |lines| <= n
    ensures forall k :: 0 <= k < |lines| ==> |lines[k]| > 0
  {
    if n == 0 then []
    else
      var lines := FailureEntries(users, attempts, n - 1);
      if Failed((users[n - 1], attempts[n - 1])) then lines + ["Error updating user " + users[n - 1].id] else lines
  }

  /** The details are the failed records' entries, in order, joined with
      "\n": no leading or trailing separator. */
  lemma {:induction false} DetailsAreJoinedEntries(users: seq<UserData>, attempts: seq<UpdateAttempt>, n: nat)
    requires n <= |users| == |attempts|
    ensures Run(users, attempts, n).details == Join(FailureEntries(users, attempts, n), "\n")
  {
    if n > 0 {
      DetailsAreJoinedEntries(users, attempts, n - 1);
      var s0 := Run(users, attempts, n - 1);
      var lines0 := FailureEntries(users, attempts, n - 1);
      JoinEmpty(lines0, "\n");
      var u := users[n - 1];
      if Failed((u, attempts[n - 1])) {
        var e := "Error updating user " + u.id;
        assert FailureEntries(users, attempts, n) == lines0 + [e];
        assert Run(users, attempts, n).details == (if |s0.details| == 0 then s0.details else s0.details + "\n") + e;
        JoinGrows(s0.details, lines0, e);
      } else {
        assert Run(users, attempts, n).details == s0.details;
      }
    }
  }

  /** One more entry, after a separator when there were entries already. */
  lemma JoinGrows(details0: string, lines0: seq<string>, e: string)
    requires details0 == Join(lines0, "\n")
    requires |details0| == 0 <==> |lines0| == 0
    ensures (if |details0| == 0 then details0 else details0 + "\n") + e == Join(lines0 + [e], "\n")
  {
    var lines := lines0 + [e];
    assert lines[..|lines| - 1] == lines0;
    if |lines0| == 0 {
      assert lines == [e];
    }
  }

  /** A join of non-empty entries is empty exactly when there are no entries. */
  lemma {:induction false} JoinEmpty(lines: seq<string>, sep: string)
    requires forall k :: 0 <= k < |lines| ==> |lines[k]| > 0
    ensures |Join(lines, sep)| == 0 <==> |lines| == 0
  {
    if |lines| > 1 {
      assert |Join(lines, sep)| >= |lines[|lines| - 1]|;
    }
  }

  /** The message the loop leaves is the rejection message exactly when some
      record failed. */
  lemma {:induction false} MessageIffFailure(users: seq<UserData>, attempts: seq<UpdateAttempt>, n: nat)
    requires n <= |users| == |attempts|
    ensures var m := Run(users, attempts, n).message;
            (m == UnableToSave <==> |FailureEntries(users, attempts, n)| > 0)
            && (m == "" <==> |FailureEntries(users, attempts, n)| == 0)
  {
    if n > 0 {
      MessageIffFailure(users, attempts, n - 1);
    }
  }

  /** A record whose first send succeeds and whose second send fails is
      both returned as updated and named in the details. */
  lemma SecondSendFailureStillReturnsRecord(u: UserData)
    requires HasRequiredFields(u)
    ensures var s := Run([u], [UpdateAttempt(Sent, SendFailed)], 1);
            s.updated == [u.(isChanged := false)]
            && s.details == "Error updating user " + u.id
            && UpdateUsersResult(Parsed([u]), [UpdateAttempt(Sent, SendFailed)]) == Success([u.(isChanged := false)])
  {
    assert Run([u], [UpdateAttempt(Sent, SendFailed)], 0) == UpdateState([], "", "");
  }
}
