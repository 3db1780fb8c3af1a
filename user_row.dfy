/** One editable row of the user table: the page's record it was
    rendered with, the record being edited, whether the last field left
    was valid, and the row's delete tick. Typing sets the dirty flag on a
    persisted user and clears it again when the field returns to the value
    in the page's record; leaving a field validates it and, when valid,
    writes the record into the page's list. */
module UserRow {
  import opened Wrappers
  import opened UserModel
  import opened AdminPage

  /** The three editable inputs, by their `name` attribute. */
  datatype Field = FirstName | LastName | Email

  /** `user[fieldName]`. */
  function FieldValue(u: UserData, f: Field): string {
    match f
    case FirstName => u.firstName
    case LastName => u.lastName
    case Email => u.email
  }

  /** `user[fieldName] = value`. */
  function SetField(u: UserData, f: Field, value: string): (r: UserData)
    ensures FieldValue(r, f) == value
    ensures forall g :: g != f ==> FieldValue(r, g) == FieldValue(u, g)
    ensures r.id == u.id && r.tenantId == u.tenantId && r.organisationName == u.organisationName
    ensures r.isNew == u.isNew && r.isValid == u.isValid && r.isChanged == u.isChanged
  {
    match f
    case FirstName => u.(firstName := value)
    case LastName => u.(lastName := value)
    case Email => u.(email := value)
  }

  /** The characters JavaScript's `\s` matches. */
  predicate IsSpace(c: char) {
    c == ' ' || c == '\t' || c == '\n' || c == '\r' || c == 11 as char || c == 12 as char
    || c == 0xA0 as char || c == 0x1680 as char || (0x2000 as char <= c <= 0x200A as char)
    || c == 0x2028 as char || c == 0x2029 as char || c == 0x202F as char || c == 0x205F as char
    || c == 0x3000 as char || c == 0xFEFF as char
  }

  predicate IsDigit(c: char) {
    '0' <= c <= '9'
  }

  /** The class `[a-zA-Z0-9.]`. */
  predicate IsLocalChar(c: char) {
    ('a' <= c <= 'z') || ('A' <= c <= 'Z') || IsDigit(c) || c == '.'
  }

  /** The pattern `[a-zA-Z0-9.]@(\S)+\.\D` matches `s` with its first
      character at `i` and its dot at `j`. */
  predicate EmailMatchAt(s: string, i: int, j: int) {
    0 <= i && i + 2 < j && j + 1 < |s|
    && IsLocalChar(s[i]) && s[i + 1] == '@'
    && (forall k :: i + 2 <= k < j ==> !IsSpace(s[k]))
    && s[j] == '.' && !IsDigit(s[j + 1])
  }

  /** The unanchored test: the pattern matches somewhere in `s`. */
  ghost predicate MatchesEmailPattern(s: string) {
    exists i, j :: EmailMatchAt(s, i, j)
  }

  /** Position `d` holds a dot that can end the pattern's `(\S)+\.\D` part
      begun at `start`. */
  predicate EmailDotAt(s: string, start: nat, d: int) {
    start < d && d + 1 < |s| && s[d] == '.' && !IsDigit(s[d + 1])
  }

  /** A scan of the text after an "@" that started at `start`: from `j`
      on, a dot preceded by at least one non-space character and followed
      by a non-digit is reached before any space. */
  function DotAhead(s: string, start: nat, j: nat): bool
    requires start <= j
    decreases |s| - j
  {
    if j + 1 >= |s| then false
    else if s[j] == '.' && j > start && !IsDigit(s[j + 1]) then true
    else if IsSpace(s[j]) then false
    else DotAhead(s, start, j + 1)
  }

  /** A left-to-right scan for the pattern from position `i`, the way a
      backtracking matcher tries each starting position in turn. */
  function ScanEmail(s: string, i: nat): bool
    decreases |s| - i
  {
    if i + 1 >= |s| then false
    else (IsLocalChar(s[i]) && s[i + 1] == '@' && DotAhead(s, i + 2, i + 2)) || ScanEmail(s, i + 1)
  }

  /** The dot scan finds exactly the dots reachable through non-spaces. */
  lemma {:induction false} DotAheadFinds(s: string, start: nat, j: nat)
    requires start <= j
    decreases |s| - j
    ensures DotAhead(s, start, j) <==> exists d :: j <= d && EmailDotAt(s, start, d) && forall k :: j <= k < d ==> !IsSpace(s[k])
  {
    if j + 1 >= |s| {
      assert forall d :: j <= d ==> !EmailDotAt(s, start, d);
    } else if s[j] == '.' && j > start && !IsDigit(s[j + 1]) {
      assert EmailDotAt(s, start, j);
    } else if IsSpace(s[j]) {
      assert !EmailDotAt(s, start, j);
    } else {
      DotAheadFinds(s, start, j + 1);
      if DotAhead(s, start, j + 1) {
        var d :| j + 1 <= d && EmailDotAt(s, start, d) && forall k :: j + 1 <= k < d ==> !IsSpace(s[k]);
        assert j <= d && EmailDotAt(s, start, d) && forall k :: j <= k < d ==> !IsSpace(s[k]);
      } else {
        assert !EmailDotAt(s, start, j);
      }
    }
  }

  /** The scan from `i` finds exactly the matches starting at `i` or later. */
  lemma {:induction false} ScanEmailFinds(s: string, i: nat)
    decreases |s| - i
    ensures ScanEmail(s, i) <==> exists p, j :: i <= p && EmailMatchAt(s, p, j)
  {
    if i + 1 >= |s| {
      assert forall p, j :: i <= p ==> !EmailMatchAt(s, p, j);
    } else {
      var isStart := IsLocalChar(s[i]) && s[i + 1] == '@';
      DotAheadFinds(s, i + 2, i + 2);
      ScanEmailFinds(s, i + 1);
      if isStart && DotAhead(s, i + 2, i + 2) {
        var d :| i + 2 <= d && EmailDotAt(s, i + 2, d) && forall k :: i + 2 <= k < d ==> !IsSpace(s[k]);
        assert EmailMatchAt(s, i, d);
      } else if !ScanEmail(s, i + 1) {
        forall p, j | i <= p && EmailMatchAt(s, p, j) ensures false {
          if p == i {
            assert EmailDotAt(s, i + 2, j);
          }
        }
      }
    }
  }

  /** The scan decides the pattern. */
  lemma ScanDecidesPattern(s: string)
    ensures ScanEmail(s, 0) <==> MatchesEmailPattern(s)
  {
    ScanEmailFinds(s, 0);
  }

  const NotAnEmail := "Not a valid email address"
  const BlankField := "This field cannot be blank"

  /** `validateChanges`: the email field must match the pattern somewhere;
      any other field must not be empty. `None` means valid. */
  function Validate(f: Field, value: string): (r: Option<string>)
    ensures f == Email ==> (r.None? <==> MatchesEmailPattern(value)) && (r.Some? ==> r.value == NotAnEmail)
    ensures f != Email ==> (r.None? <==> value != "") && (r.Some? ==> r.value == BlankField)
  {
    ScanDecidesPattern(value);
    if f == Email then (if ScanEmail(value, 0) then None else Some(NotAnEmail))
    else if value == "" then Some(BlankField)
    else None
  }

  /** The examples the pattern is known by: "a@b.c" passes, "a@b.1" (a
      digit after the dot) and "@b.c" (nothing before the "@") do not. */
  lemma EmailExamples()
    ensures Validate(Email, "a@b.c").None?
    ensures Validate(Email, "a@b.1") == Some(NotAnEmail)
    ensures Validate(Email, "@b.c") == Some(NotAnEmail)
  {
    assert EmailMatchAt("a@b.c", 0, 3);
    assert !ScanEmail("a@b.1", 0);
    assert !ScanEmail("@b.c", 0);
  }

  /** The pattern is not anchored: text around a matching address does
      not make it invalid. */
  lemma PatternIsUnanchored(prefix: string, s: string, suffix: string)
    requires MatchesEmailPattern(s)
    ensures MatchesEmailPattern(prefix + s + suffix)
  {
    var i, j :| EmailMatchAt(s, i, j);
    var t := prefix + s + suffix;
    assert forall k :: 0 <= k < |s| ==> t[|prefix| + k] == s[k];
    assert EmailMatchAt(t, |prefix| + i, |prefix| + j);
  }

  /** The record after typing `value` into field `f`: a persisted user's
      first edit marks it changed and not yet valid; a later edit that
      brings the field back to the value in `reference` clears both marks;
      the field always takes the value. As written, `reference` is the
      page's record object, which holds the last blurred value; as the
      comment at userRow.tsx:60 intends, it is the identity store's
      record. */
  function Edited(details: UserData, reference: UserData, f: Field, value: string): UserData {
    var flagged :=
      if details.isNew then details
      else if !details.isChanged then details.(isChanged := true, isValid := false)
      else if value == FieldValue(reference, f) then details.(isChanged := false, isValid := true)
      else details;
    SetField(flagged, f, value)
  }

  /** Editing a draft changes only the field; its flags are untouched. */
  lemma EditingDraftKeepsFlags(details: UserData, reference: UserData, f: Field, value: string)
    requires details.isNew
    ensures Edited(details, reference, f, value) == SetField(details, f, value)
  {
  }

  /** The first edit of a persisted, unchanged user marks it changed and
      not yet valid. */
  lemma FirstEditMarksChanged(details: UserData, reference: UserData, f: Field, value: string)
    requires !details.isNew && !details.isChanged
    ensures var r := Edited(details, reference, f, value);
            r.isChanged && !r.isValid && FieldValue(r, f) == value
  {
  }

  /** With the identity store's record as the reference, as intended: an
      edit that returns the edited field of a changed user to its
      persisted value clears the marks, whatever the other fields hold;
      an edit to any other value keeps them. */
  lemma RevertClearsMarks(details: UserData, persisted: UserData, f: Field, value: string)
    requires !details.isNew && details.isChanged
    ensures var r := Edited(details, persisted, f, value);
            && (value == FieldValue(persisted, f) ==> !r.isChanged && r.isValid)
            && (value != FieldValue(persisted, f) ==> r.isChanged == details.isChanged && r.isValid == details.isValid)
  {
  }

  /** The edited field takes the typed value and every other field, the
      id and the tenant are kept. */
  lemma EditTouchesOneField(details: UserData, reference: UserData, f: Field, value: string)
    ensures var r := Edited(details, reference, f, value);
            && FieldValue(r, f) == value
            && (forall g :: g != f ==> FieldValue(r, g) == FieldValue(details, g))
            && r.id == details.id && r.tenantId == details.tenantId && r.isNew == details.isNew
  {
  }

  /** The row's state. The row's `user` prop is the page's record object
      at the row's position (userTable.tsx:128-135), not a copy: the
      page's `updateUserSetWithChanges` writes each blurred record into
      it, so the revert test reads the last value handed to the page. */
  class UserRowState {
    const page: AdminPanel
    const index: nat
    var userDetails: UserData
    var deleteChecked: bool
    var fieldValidity: bool

    /** The row is on the page: its position is in the working list and
        the page is consistent. */
    ghost predicate Rendered()
      reads this, page
    {
      index < |page.users| && page.Valid()
    }

    /** A freshly rendered row for the page's record at `index`. */
    constructor(page: AdminPanel, index: nat)
      requires index < |page.users|
      ensures this.page == page && this.index == index
      ensures userDetails == page.users[index] && !deleteChecked && fieldValidity
    {
      this.page := page;
      this.index := index;
      userDetails := page.users[index];
      deleteChecked := false;
      fieldValidity := true;
    }

    /** The effect on `user`: the page rendered the row with a different
        record object, so the row takes its values and loses its tick. */
    method Rerender()
      requires index < |page.users|
      modifies this
      ensures userDetails == page.users[index] && !deleteChecked && fieldValidity == old(fieldValidity)
    {
      userDetails := page.users[index];
      deleteChecked := false;
    }

    /** `handleChange`: the edited copy replaces the row's record; the
        revert test reads the page's record at the row's position. */
    method HandleChange(fieldName: Field, value: string)
      requires index < |page.users|
      modifies this
      ensures userDetails == Edited(old(userDetails), page.users[index], fieldName, value)
      ensures deleteChecked == old(deleteChecked) && fieldValidity == old(fieldValidity)
    {
      var user := page.users[index];
      var userCopy := userDetails;
      if !userCopy.isNew {
        if !userCopy.isChanged {
          userCopy := userCopy.(isChanged := true);
          userCopy := userCopy.(isValid := false);
        } else if value == FieldValue(user, fieldName) {
          userCopy := userCopy.(isChanged := false);
          userCopy := userCopy.(isValid := true);
        }
      }
      userCopy := SetField(userCopy, fieldName, value);
      userDetails := userCopy;
    }

    /** `handleBlur`: the status line is cleared; a valid value marks the
        record valid and hands it to the page's `updateUserSetWithChanges`;
        an invalid one is reported and the page's list is untouched. */
    method HandleBlur(fieldName: Field, value: string)
      requires Rendered()
      modifies this, page
      ensures Rendered()
      ensures Validate(fieldName, value).None? ==>
                && fieldValidity && userDetails == old(userDetails).(isValid := true)
                && (WithChanges(old(page.users), userDetails).Some? ==>
                      page.users == WithChanges(old(page.users), userDetails).value && page.statusMessage == "")
                && (WithChanges(old(page.users), userDetails).None? ==>
                      page.users == old(page.users) && page.statusMessage == ErrorUpdatingUser)
                && (old(page.snapshotShared) ==> page.originalUsers == page.users[..|old(page.originalUsers)|])
                && (!old(page.snapshotShared) ==> page.originalUsers == old(page.originalUsers))
      ensures Validate(fieldName, value).Some? ==>
                && !fieldValidity && userDetails == old(userDetails)
                && page.users == old(page.users) && page.originalUsers == old(page.originalUsers)
                && page.statusMessage == Validate(fieldName, value).value
      ensures deleteChecked == old(deleteChecked)
      ensures page.snapshotShared == old(page.snapshotShared) && page.rowsToDelete == old(page.rowsToDelete)
    {
      var userCopy := userDetails;
      page.ReportStatus("");
      var result := Validate(fieldName, value);
      if result.None? {
        userCopy := userCopy.(isValid := true);
        fieldValidity := true;
        userDetails := userCopy;
        page.UpdateUserSetWithChanges(userCopy);
      } else {
        page.ReportStatus(result.value);
        fieldValidity := false;
      }
    }

    /** `handleDeleteToggle`: the tick follows the checkbox and the row's
        record goes to the page's `deleteToggleChanges`. */
    method HandleDeleteToggle(checked: bool)
      requires Rendered()
      modifies this, page
      ensures Rendered()
      ensures deleteChecked == checked
      ensures userDetails.id in old(page.rowsToDelete) ==>
                page.rowsToDelete == Remove(old(page.rowsToDelete), userDetails.id)
      ensures userDetails.id !in old(page.rowsToDelete) ==>
                page.rowsToDelete == old(page.rowsToDelete) + [userDetails.id]
      ensures userDetails == old(userDetails) && fieldValidity == old(fieldValidity)
      ensures page.users == old(page.users) && page.originalUsers == old(page.originalUsers)
    {
      deleteChecked := checked;
      page.DeleteToggle(userDetails);
    }
  }
}
