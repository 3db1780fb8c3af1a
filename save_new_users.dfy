/** The browser-side variant of user creation: the page calls the identity
    directory itself, once per draft record, and patches the drafts it was
    given in place. A created draft's FIRST record with the same email gets
    the directory's subject id and `isNew := false`; the draft itself is
    what is reported as added. */
module SdkSaveNewUsers {
  import opened Wrappers
  import opened Collections
  import opened UserModel

  /** The directory's answer to one create call: the created user's `sub`
      attribute, or a thrown error (a reply without a `sub` attribute throws
      too, when the code dereferences it). */
  datatype SaveOutcome = Saved(sub: string) | Rejected

  /** The loop's variables; `added` holds positions of the pushed drafts. */
  datatype NewState = NewState(batch: seq<UserData>, added: seq<nat>, message: string, details: string)

  const SavedMessage := "Changes written successfully to the Identity Store"

  /** One iteration over draft `i`. */
  function Step(s: NewState, i: nat, o: SaveOutcome): NewState
    requires i < |s.batch|
  {
    var email := s.batch[i].email;
    match o
    case Saved(sub) =>
      var k := FirstWithEmail(s.batch, email);
      s.(batch := s.batch[k := s.batch[k].(id := sub, isNew := false)], added := s.added + [i])
    case Rejected =>
      s.(message := UnableToSave, details := s.details + "Error adding user " + email + "\n")
  }

  /** The state after the first `n` drafts. */
  function Run(batch: seq<UserData>, outcomes: seq<SaveOutcome>, n: nat): (s: NewState)
    requires n <= |batch| == |outcomes|
    ensures |s.batch| == |batch|
    ensures forall j :: 0 <= j < |s.added| ==> s.added[j] < n
  {
    if n == 0 then NewState(batch, [], "", "")
    else Step(Run(batch, outcomes, n - 1), n - 1, outcomes[n - 1])
  }

  /** The response built from the final state: the success message only when
      nothing failed and something was added. `usersAdded` is read once the
      loop is over, since it holds references to records the loop may patch
      later. */
  function Respond(s: NewState): (r: NewUsersResponse)
    requires forall j :: 0 <= j < |s.added| ==> s.added[j] < |s.batch|
    ensures s.message != "" ==> r.message == s.message
    ensures s.message == "" ==> r.message == (if |s.added| > 0 then SavedMessage else "")
    ensures r.details == s.details && r.usersAdded.Some? && |r.usersAdded.value| == |s.added|
    ensures forall j :: 0 <= j < |s.added| ==> r.usersAdded.value[j] == s.batch[s.added[j]]
  {
    var message := if s.message == "" && |s.added| > 0 then SavedMessage else s.message;
    NewUsersResponse(message, s.details, Some(seq(|s.added|, j requires 0 <= j < |s.added| => s.batch[s.added[j]])))
  }

  /** `saveNewUsers`: the drafts are patched in place and the response is
      the one the specification functions describe. */
  method SaveNewUsers(newUsers: array<UserData>, outcomes: seq<SaveOutcome>) returns (response: NewUsersResponse)
    requires newUsers.Length == |outcomes|
    modifies newUsers
    ensures var s := Run(old(newUsers[..]), outcomes, |outcomes|);
            newUsers[..] == s.batch && response == Respond(s)
  {
    var usersAdded: seq<nat> := [];
    var responseMessage := "";
    var responseDetails := "";
    ghost var drafts := newUsers[..];
    if newUsers.Length > 0 {
      var i := 0;
      while i < newUsers.Length
        invariant 0 <= i <= newUsers.Length
        invariant Run(drafts, outcomes, i) == NewState(newUsers[..], usersAdded, responseMessage, responseDetails)
      {
        ghost var before := NewState(newUsers[..], usersAdded, responseMessage, responseDetails);
        assert Run(drafts, outcomes, i + 1) == Step(before, i, outcomes[i]);
        var email := newUsers[i].email;
        match outcomes[i] {
          case Saved(sub) =>
            assert newUsers[..][i].email == email;
            var tempUser := FirstWithEmail(newUsers[..], email);
            newUsers[tempUser] := newUsers[tempUser].(id := sub, isNew := false);
            usersAdded := usersAdded + [i];
          case Rejected =>
            responseMessage := UnableToSave;
            responseDetails := responseDetails + "Error adding user " + email + "\n";
        }
        i := i + 1;
      }
    }
    assert Run(drafts, outcomes, |outcomes|) == NewState(newUsers[..], usersAdded, responseMessage, responseDetails);
    if responseMessage == "" && |usersAdded| > 0 {
      responseMessage := SavedMessage;
    }
    var patched := newUsers[..];
    response := NewUsersResponse(responseMessage, responseDetails,
                                 Some(seq(|usersAdded|, j requires 0 <= j < |usersAdded| => patched[usersAdded[j]])));
    assert response.usersAdded.value == Respond(Run(drafts, outcomes, |outcomes|)).usersAdded.value;
  }

  /** The drafts reported as added are exactly the ones the directory
      accepted, in input order: increasing positions, each accepted, and
      every accepted draft among them. */
  lemma {:induction false} AddedAreTheSavedDrafts(batch: seq<UserData>, outcomes: seq<SaveOutcome>, n: nat)
    requires n <= |batch| == |outcomes|
    ensures var a := Run(batch, outcomes, n).added;
            && (forall j :: 0 <= j < |a| ==> outcomes[a[j]].Saved?)
            && (forall j, l :: 0 <= j < l < |a| ==> a[j] < a[l])
            && (forall i :: 0 <= i < n && outcomes[i].Saved? ==> i in a)
  {
    if n > 0 {
      AddedAreTheSavedDrafts(batch, outcomes, n - 1);
      var s := Run(batch, outcomes, n - 1);
      var a := Run(batch, outcomes, n).added;
      assert Run(batch, outcomes, n) == Step(s, n - 1, outcomes[n - 1]);
      assert a == if outcomes[n - 1].Saved? then s.added + [n - 1] else s.added;
    }
  }

  /** Each of the first `n` drafts was accepted. */
  predicate AllSaved(outcomes: seq<SaveOutcome>, n: nat)
    requires n <= |outcomes|
  {
    forall i :: 0 <= i < n ==> outcomes[i].Saved?
  }

  /** Some of the first `n` drafts was accepted. */
  predicate SomeSaved(outcomes: seq<SaveOutcome>, n: nat)
    requires n <= |outcomes|
  {
    exists i :: 0 <= i < n && outcomes[i].Saved?
  }

  /** Something is reported as added exactly when some draft was accepted. */
  lemma {:induction false} AddedIffSomeSaved(batch: seq<UserData>, outcomes: seq<SaveOutcome>, n: nat)
    requires n <= |batch| == |outcomes|
    ensures |Run(batch, outcomes, n).added| > 0 <==> SomeSaved(outcomes, n)
  {
    if n > 0 {
      AddedIffSomeSaved(batch, outcomes, n - 1);
    }
  }

  /** Before the response is built, the message is empty exactly when no
      draft was rejected, and the rejection message otherwise. */
  lemma {:induction false} MessageRecordsRejection(batch: seq<UserData>, outcomes: seq<SaveOutcome>, n: nat)
    requires n <= |batch| == |outcomes|
    ensures var m := Run(batch, outcomes, n).message;
            (m == "" <==> AllSaved(outcomes, n)) && (m == "" || m == UnableToSave)
  {
    if n > 0 {
      MessageRecordsRejection(batch, outcomes, n - 1);
    }
  }

  /** The three messages the caller can see, for the response built after
      the first `n` drafts (the function returns the one for the whole
      batch): the success message exactly when there were drafts and every
      one was accepted, the rejection message exactly when some draft was
      rejected, and an empty message exactly when there were no drafts. */
  lemma SaveNewUsersMessage(batch: seq<UserData>, outcomes: seq<SaveOutcome>, n: nat)
    requires n <= |batch| == |outcomes|
    ensures var m := Respond(Run(batch, outcomes, n)).message;
            && (m == SavedMessage <==> n > 0 && AllSaved(outcomes, n))
            && (m == UnableToSave <==> !AllSaved(outcomes, n))
            && (m == "" <==> n == 0)
  {
    AddedIffSomeSaved(batch, outcomes, n);
    MessageRecordsRejection(batch, outcomes, n);
    if n > 0 && AllSaved(outcomes, n) {
      assert outcomes[0].Saved?;
    }
  }

  /** Only ids and `isNew` flags change: every draft keeps its email and
      its other fields. */
  lemma {:induction false} RunKeepsRecords(batch: seq<UserData>, outcomes: seq<SaveOutcome>, n: nat)
    requires n <= |batch| == |outcomes|
    ensures forall i :: 0 <= i < |batch| ==>
              Run(batch, outcomes, n).batch[i].(id := batch[i].id, isNew := batch[i].isNew) == batch[i]
  {
    if n > 0 {
      RunKeepsRecords(batch, outcomes, n - 1);
    }
  }

  /** Every draft is accounted for once: the added drafts and the detail
      lines together number the drafts seen (when no email holds a line
      break). */
  lemma {:induction false} AddedPlusDetailLines(batch: seq<UserData>, outcomes: seq<SaveOutcome>, n: nat)
    requires n <= |batch| == |outcomes|
    requires forall i :: 0 <= i < |batch| ==> '\n' !in batch[i].email
    ensures var s := Run(batch, outcomes, n);
            |s.added| + Count(s.details, '\n') == n
  {
    if n > 0 {
      AddedPlusDetailLines(batch, outcomes, n - 1);
      var s := Run(batch, outcomes, n - 1);
      if outcomes[n - 1].Rejected? {
        RunKeepsRecords(batch, outcomes, n - 1);
        var email := s.batch[n - 1].email;
        assert email == batch[n - 1].email;
        DetailLineCounts(s.details, email);
      }
    }
  }

  /** A rejection's detail line adds one line break. */
  lemma DetailLineCounts(details: string, email: string)
    requires '\n' !in email
    ensures Count(details + "Error adding user " + email + "\n", '\n') == Count(details, '\n') + 1
  {
    var prefix := "Error adding user ";
    assert '\n' !in prefix;
    var line := prefix + email;
    CountTerminatedLine(details, line, '\n');
    assert details + prefix + email + "\n" == details + line + ['\n'];
  }

  /** Two drafts sharing an email, both accepted: both subject ids are
      written into the first draft, and the second draft is reported as
      added while it still carries its placeholder id and `isNew` flag. */
  lemma DuplicateEmailPatchesFirstDraftOnly(a: UserData, b: UserData, s1: string, s2: string)
    requires a.email == b.email
    ensures var s := Run([a, b], [Saved(s1), Saved(s2)], 2);
            s.batch == [a.(id := s2, isNew := false), b]
            && Respond(s).usersAdded == Some([a.(id := s2, isNew := false), b])
  {
    var batch := [a, b];
    var outcomes := [Saved(s1), Saved(s2)];
    var a1 := a.(id := s1, isNew := false);
    assert batch[0].email == a.email;
    assert FirstWithEmail(batch, a.email) == 0;
    assert Run(batch, outcomes, 1) == NewState([a1, b], [0], "", "");
    assert [a1, b][0].email == b.email;
    assert FirstWithEmail([a1, b], b.email) == 0;
    assert Respond(Run(batch, outcomes, 2)).usersAdded.value == [a.(id := s2, isNew := false), b];
  }
}
