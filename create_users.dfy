/** Batch creation of users in the user-management Lambda: one directory
    create call per record, in order; a success replaces the record's
    placeholder id with the directory's subject id. Any failing record makes
    the whole call throw a `ManageUsersError` carrying the last failure's
    message and the generic failures' detail lines. */
module LambdaCreate {
  import opened Wrappers
  import opened UserModel
  import opened Collections

  /** The directory's answer to one create call: the new user's subject id,
      "username exists", or any other failure. */
  datatype CreateOutcome = Created(sub: string) | UsernameExists | CreateFailed

  /** A request body after `JSON.parse`, or the parser's error message. */
  datatype Parsed<T> = Parsed(value: T) | Unparsable(reason: string)

  /** The loop's variables. `added` holds positions in `batch`: the source
      pushes references to batch records, and a record mutated after it was
      pushed shows the mutation, so the added records are read at the end. */
  datatype CreateState = CreateState(batch: seq<UserData>, added: seq<nat>, message: string, details: string)

  /** The message a failing record leaves behind. */
  function FailureMessage(email: string, o: CreateOutcome): string {
    if o.UsernameExists? then "User " + email + " already exists" else UnableToSave
  }

  /** One iteration: a success gives the FIRST record with this email the
      subject id and `isNew := false` and pushes that record; "exists" only
      sets the message; any other failure sets the message and appends a
      detail line. */
  function Step(s: CreateState, i: nat, o: CreateOutcome): CreateState
    requires i < |s.batch|
  {
    var email := s.batch[i].email;
    match o
    case Created(sub) =>
      var k := FirstWithEmail(s.batch, email);
      s.(batch := s.batch[k := s.batch[k].(id := sub, isNew := false)], added := s.added + [k])
    case UsernameExists => s.(message := FailureMessage(email, o))
    case CreateFailed => s.(message := FailureMessage(email, o), details := s.details + "Error adding user " + email + "\n")
  }

  /** The state after the first `n` records. Only ids and `isNew` flags
      change, and every pushed position lies inside the batch. */
  function Run(batch: seq<UserData>, outcomes: seq<CreateOutcome>, n: nat): (s: CreateState)
    requires n <= |batch| == |outcomes|
    ensures |s.batch| == |batch| && |s.added| <= n
    ensures forall j :: 0 <= j < |s.added| ==> s.added[j] < |batch|
  {
    if n == 0 then CreateState(batch, [], "", "")
    else Step(Run(batch, outcomes, n - 1), n - 1, outcomes[n - 1])
  }

  /** Only ids and `isNew` flags change: every record keeps its email and
      all its other fields. */
  lemma {:induction false} RunKeepsRecords(batch: seq<UserData>, outcomes: seq<CreateOutcome>, n: nat)
    requires n <= |batch| == |outcomes|
    ensures forall i :: 0 <= i < |batch| ==>
              Run(batch, outcomes, n).batch[i].(id := batch[i].id, isNew := batch[i].isNew) == batch[i]
  {
    if n > 0 {
      RunKeepsRecords(batch, outcomes, n - 1);
    }
  }

  /** The records the pushed references point to once the loop is over. */
  function AddedUsers(s: CreateState): seq<UserData>
    requires forall j :: 0 <= j < |s.added| ==> s.added[j] < |s.batch|
  {
    seq(|s.added|, j requires 0 <= j < |s.added| => s.batch[s.added[j]])
  }

  /** What `createUsers` returns or throws. An unparsable body and an empty
      batch throw before any directory call; otherwise the call succeeds
      exactly when every record was created. */
  function CreateUsersResult(body: Parsed<seq<UserData>>, outcomes: seq<CreateOutcome>): (r: Result<seq<UserData>, Error>)
    requires body.Parsed? ==> |outcomes| == |body.value|
    ensures body.Unparsable? ==> r == Failure(PlainError("Invalid body format: " + body.reason))
    ensures body == Parsed([]) ==> r == Failure(ManageUsersError("Unable to create users", "No users supplied"))
    ensures body.Parsed? && body.value != [] ==>
              (r.Success? <==> forall i :: 0 <= i < |outcomes| ==> outcomes[i].Created?)
    ensures body.Parsed? && body.value != [] && r.Failure? ==> r.error.ManageUsersError? && r.error.message != ""
  {
    match body
    case Unparsable(reason) => Failure(PlainError("Invalid body format: " + reason))
    case Parsed(users) =>
      if |users| == 0 then Failure(ManageUsersError("Unable to create users", "No users supplied"))
      else
        var s := Run(users, outcomes, |users|);
        LastFailureWins(users, outcomes, |users|);
        if s.message != "" then Failure(ManageUsersError(s.message, s.details)) else Success(AddedUsers(s))
  }

  /** `createUsers` with the directory's answers supplied per record. */
  method CreateUsers(body: Parsed<seq<UserData>>, outcomes: seq<CreateOutcome>) returns (r: Result<seq<UserData>, Error>)
    requires body.Parsed? ==> |outcomes| == |body.value|
    ensures r == CreateUsersResult(body, outcomes)
  {
    if body.Unparsable? {
      return Failure(PlainError("Invalid body format: " + body.reason));
    }
    var newUsers := body.value;
    if |newUsers| == 0 {
      return Failure(ManageUsersError("Unable to create users", "No users supplied"));
    }
    var st := CreateEach(newUsers, outcomes);
    if st.message != "" {
      return Failure(ManageUsersError(st.message, st.details));
    }
    var usersAdded := st.added;
    newUsers := st.batch;
    r := Success(seq(|usersAdded|, j requires 0 <= j < |usersAdded| => newUsers[usersAdded[j]]));
    assert r.value == AddedUsers(st);
  }

  /** The loop of `createUsers`: one create call per record, in order. */
  method CreateEach(batch: seq<UserData>, outcomes: seq<CreateOutcome>) returns (st: CreateState)
    requires |outcomes| == |batch|
    ensures st == Run(batch, outcomes, |batch|)
  {
    var newUsers := batch;
    var responseMessage := "";
    var responseDetails := "";
    var usersAdded: seq<nat> := [];
    var i := 0;
    while i < |newUsers|
      invariant 0 <= i <= |newUsers| == |batch|
      invariant Run(batch, outcomes, i) == CreateState(newUsers, usersAdded, responseMessage, responseDetails)
    {
      ghost var before := CreateState(newUsers, usersAdded, responseMessage, responseDetails);
      assert Run(batch, outcomes, i + 1) == Step(before, i, outcomes[i]);
      var email := newUsers[i].email;
      match outcomes[i] {
        case Created(sub) =>
          assert newUsers[i].email == email;
          var tempUser := FirstWithEmail(newUsers, email);
          newUsers := newUsers[tempUser := newUsers[tempUser].(id := sub, isNew := false)];
          usersAdded := usersAdded + [tempUser];
        case UsernameExists =>
          responseMessage := "User " + email + " already exists";
        case CreateFailed =>
          responseMessage := UnableToSave;
          responseDetails := responseDetails + "Error adding user " + email + "\n";
      }
      i := i + 1;
    }
    st := CreateState(newUsers, usersAdded, responseMessage, responseDetails);
  }

  /** The position of the last failing record among the first `n`, or -1. */
  function LastFailure(outcomes: seq<CreateOutcome>, n: nat): (j: int)
    requires n <= |outcomes|
    ensures -1 <= j < n
    ensures j == -1 <==> forall i :: 0 <= i < n ==> outcomes[i].Created?
    ensures j >= 0 ==> !outcomes[j].Created? && forall i :: j < i < n ==> outcomes[i].Created?
  {
    if n == 0 then -1
    else if !outcomes[n - 1].Created? then n - 1
    else LastFailure(outcomes, n - 1)
  }

  /** One step's message: a success keeps it, a failure overwrites it. */
  lemma StepMessage(s: CreateState, i: nat, o: CreateOutcome)
    requires i < |s.batch|
    ensures Step(s, i, o).message == if o.Created? then s.message else FailureMessage(s.batch[i].email, o)
  {
  }

  /** The message is last-write-wins: it is the message of the last failing
      record, and empty exactly when no record failed. */
  lemma {:induction false} LastFailureWins(batch: seq<UserData>, outcomes: seq<CreateOutcome>, n: nat)
    requires n <= |batch| == |outcomes|
    ensures var j := LastFailure(outcomes, n);
            Run(batch, outcomes, n).message == if j == -1 then "" else FailureMessage(batch[j].email, outcomes[j])
    ensures Run(batch, outcomes, n).message != "" <==> exists i :: 0 <= i < n && !outcomes[i].Created?
  {
    if n > 0 {
      LastFailureWins(batch, outcomes, n - 1);
      RunKeepsRecords(batch, outcomes, n - 1);
      StepMessage(Run(batch, outcomes, n - 1), n - 1, outcomes[n - 1]);
    }
    var j := LastFailure(outcomes, n);
    if j >= 0 {
      assert FailureMessage(batch[j].email, outcomes[j]) != "";
    }
  }

  /** The detail line a record leaves: one line for a generic failure, none
      for a success or an existing username. */
  function DetailLine(email: string, o: CreateOutcome): string {
    if o.CreateFailed? then "Error adding user " + email + "\n" else ""
  }

  /** The detail lines of the first `n` records, in order. */
  function DetailLines(batch: seq<UserData>, outcomes: seq<CreateOutcome>, n: nat): (lines: seq<string>)
    requires n <= |batch| == |outcomes|
    ensures |lines| == n
  {
    if n == 0 then [] else DetailLines(batch, outcomes, n - 1) + [DetailLine(batch[n - 1].email, outcomes[n - 1])]
  }

  /** The details are the records' detail lines one after another: a line
      "Error adding user <email>" per generically failing record, in batch
      order, and nothing for an existing username. */
  lemma {:induction false} DetailsAreFailureLines(batch: seq<UserData>, outcomes: seq<CreateOutcome>, n: nat)
    requires n <= |batch| == |outcomes|
    ensures Run(batch, outcomes, n).details == Concat(DetailLines(batch, outcomes, n))
  {
    if n > 0 {
      DetailsAreFailureLines(batch, outcomes, n - 1);
      RunKeepsRecords(batch, outcomes, n - 1);
      var lines := DetailLines(batch, outcomes, n);
      assert lines[..|lines| - 1] == DetailLines(batch, outcomes, n - 1);
      var d0 := Run(batch, outcomes, n - 1).details;
      var email := batch[n - 1].email;
      assert Run(batch, outcomes, n - 1).batch[n - 1].email == email;
      if outcomes[n - 1].CreateFailed? {
        assert d0 + "Error adding user " + email + "\n" == d0 + ("Error adding user " + email + "\n");
      } else {
        assert d0 + "" == d0;
      }
    }
  }

  /** A non-empty batch with a failing record throws a `ManageUsersError`
      whose message is the last failing record's and whose details are the
      generic failures' lines. */
  lemma CreateFailureThrown(batch: seq<UserData>, outcomes: seq<CreateOutcome>)
    requires |batch| == |outcomes| > 0
    requires exists i :: 0 <= i < |outcomes| && !outcomes[i].Created?
    ensures var j := LastFailure(outcomes, |batch|);
            j >= 0
            && CreateUsersResult(Parsed(batch), outcomes)
               == Failure(ManageUsersError(FailureMessage(batch[j].email, outcomes[j]), Concat(DetailLines(batch, outcomes, |batch|))))
  {
    LastFailureWins(batch, outcomes, |batch|);
    DetailsAreFailureLines(batch, outcomes, |batch|);
  }

  /** With distinct emails and every call successful, the call returns every
      record of the batch, in order, with its subject id and `isNew` false. */
  lemma {:induction false} AllCreatedReturnsPersistedBatch(batch: seq<UserData>, outcomes: seq<CreateOutcome>)
    requires |batch| == |outcomes| > 0
    requires forall i, j :: 0 <= i < j < |batch| ==> batch[i].email != batch[j].email
    requires forall i :: 0 <= i < |outcomes| ==> outcomes[i].Created?
    ensures CreateUsersResult(Parsed(batch), outcomes)
            == Success(seq(|batch|, i requires 0 <= i < |batch| => batch[i].(id := outcomes[i].sub, isNew := false)))
  {
    AllCreatedPrefix(batch, outcomes, |batch|);
    var s := Run(batch, outcomes, |batch|);
    LastFailureWins(batch, outcomes, |batch|);
    assert AddedUsers(s) == Persisted(batch, outcomes, |batch|);
    assert Persisted(batch, outcomes, |batch|)
           == seq(|batch|, i requires 0 <= i < |batch| => batch[i].(id := outcomes[i].sub, isNew := false));
  }

  /** The batch once its first `n` records carry their subject ids. */
  function Persisted(batch: seq<UserData>, outcomes: seq<CreateOutcome>, n: nat): seq<UserData>
    requires n <= |batch| == |outcomes|
    requires forall i :: 0 <= i < |outcomes| ==> outcomes[i].Created?
  {
    seq(|batch|, i requires 0 <= i < |batch| => if i < n then batch[i].(id := outcomes[i].sub, isNew := false) else batch[i])
  }

  lemma {:induction false} AllCreatedPrefix(batch: seq<UserData>, outcomes: seq<CreateOutcome>, n: nat)
    requires n <= |batch| == |outcomes|
    requires forall i, j :: 0 <= i < j < |batch| ==> batch[i].email != batch[j].email
    requires forall i :: 0 <= i < |outcomes| ==> outcomes[i].Created?
    ensures var s := Run(batch, outcomes, n);
            s.message == "" && s.added == seq(n, i => i) && s.batch == Persisted(batch, outcomes, n)
  {
    if n > 0 {
      AllCreatedPrefix(batch, outcomes, n - 1);
      var s := Run(batch, outcomes, n - 1);
      FirstPersistedWithEmail(batch, outcomes, n - 1);
      PersistedStep(batch, outcomes, n - 1);
      var t := Step(s, n - 1, outcomes[n - 1]);
      assert Run(batch, outcomes, n) == t;
      assert t.batch == s.batch[n - 1 := s.batch[n - 1].(id := outcomes[n - 1].sub, isNew := false)];
      PositionsStep(n - 1);
      assert t.added == s.added + [n - 1];
    }
  }

  /** The positions `0 .. n` are those below `n` followed by `n`. */
  lemma PositionsStep(n: nat)
    ensures seq(n, i => i) + [n] == seq(n + 1, i => i)
  {
    var a := seq(n, i => i) + [n];
    assert forall i | 0 <= i < n + 1 :: a[i] == i;
  }

  /** With distinct emails, the first record carrying the next record's
      email is that record itself. */
  lemma FirstPersistedWithEmail(batch: seq<UserData>, outcomes: seq<CreateOutcome>, n: nat)
    requires n < |batch| == |outcomes|
    requires forall i, j :: 0 <= i < j < |batch| ==> batch[i].email != batch[j].email
    requires forall i :: 0 <= i < |outcomes| ==> outcomes[i].Created?
    ensures var p := Persisted(batch, outcomes, n);
            p[n].email == batch[n].email && FirstWithEmail(p, batch[n].email) == n
  {
    var p := Persisted(batch, outcomes, n);
    assert p[n] == batch[n];
    var k := FirstWithEmail(p, batch[n].email);
    assert p[k].email == batch[k].email;
  }

  /** Persisting one more record updates only that record. */
  lemma PersistedStep(batch: seq<UserData>, outcomes: seq<CreateOutcome>, n: nat)
    requires n < |batch| == |outcomes|
    requires forall i :: 0 <= i < |outcomes| ==> outcomes[i].Created?
    ensures var p := Persisted(batch, outcomes, n);
            p[n := p[n].(id := outcomes[n].sub, isNew := false)] == Persisted(batch, outcomes, n + 1)
  {
  }

  /** Two records with the same email, both created: the first one is given
      the subject id twice and pushed twice, so the call returns two copies of
      the first record carrying the second subject id, and the second record
      is never returned. */
  lemma DuplicateEmailReturnsFirstRecordTwice(a: UserData, b: UserData, s1: string, s2: string)
    requires a.email == b.email
    ensures CreateUsersResult(Parsed([a, b]), [Created(s1), Created(s2)])
            == Success([a.(id := s2, isNew := false), a.(id := s2, isNew := false)])
  {
    var batch := [a, b];
    var outcomes := [Created(s1), Created(s2)];
    var a1 := a.(id := s1, isNew := false);
    var a2 := a.(id := s2, isNew := false);
    assert Run(batch, outcomes, 0) == CreateState(batch, [], "", "");
    assert batch[0].email == a.email;
    assert FirstWithEmail(batch, a.email) == 0;
    assert Run(batch, outcomes, 1) == CreateState([a1, b], [0], "", "");
    assert [a1, b][0].email == b.email;
    assert FirstWithEmail([a1, b], b.email) == 0;
    assert Run(batch, outcomes, 2) == CreateState([a2, b], [0, 0], "", "");
    assert AddedUsers(Run(batch, outcomes, 2)) == [a2, a2];
  }

  /** Three drafts where the directory reports the second email as taken:
      the call throws with that record's message, and since "exists" adds no
      detail line, the details are empty. */
  lemma ExistingSecondEmail(u1: UserData, u2: UserData, u3: UserData, sub1: string, sub3: string)
    requires u1.email != u2.email && u2.email != u3.email && u1.email != u3.email
    ensures CreateUsersResult(Parsed([u1, u2, u3]), [Created(sub1), UsernameExists, Created(sub3)])
            == Failure(ManageUsersError("User " + u2.email + " already exists", ""))
  {
    var b := [u1, u2, u3];
    var o := [Created(sub1), UsernameExists, Created(sub3)];
    var v1 := u1.(id := sub1, isNew := false);
    var v3 := u3.(id := sub3, isNew := false);
    assert Run(b, o, 0) == CreateState(b, [], "", "");
    assert b[0].email == u1.email;
    assert FirstWithEmail(b, u1.email) == 0;
    assert Run(b, o, 1) == CreateState([v1, u2, u3], [0], "", "");
    assert Run(b, o, 2) == CreateState([v1, u2, u3], [0], "User " + u2.email + " already exists", "");
    assert [v1, u2, u3][2].email == u3.email;
    assert FirstWithEmail([v1, u2, u3], u3.email) == 2;
    assert Run(b, o, 3) == CreateState([v1, u2, v3], [0, 2], "User " + u2.email + " already exists", "");
  }
}
