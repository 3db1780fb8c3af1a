/** The records the user-administration code passes around: the flat user
    record (`UserData`), the identity directory's attribute bags, and the
    `ManageUsersError` exception. */
module UserModel {
  import opened Wrappers
  import opened Collections

  /** A tenant user as the administration code sees it. The three optional
      flags of the TypeScript interface are `undefined` (falsy) unless set,
      so they are booleans here with `false` for an absent flag.
      `organisationName` is absent in records built by the front-end
      tenant filter. */
  datatype UserData = UserData(
    id: string,
    firstName: string,
    lastName: string,
    email: string,
    tenantId: string,
    organisationName: Option<string>,
    isNew: bool,
    isValid: bool,
    isChanged: bool)

  /** One name/value pair of a directory user's attribute bag. */
  datatype Attribute = Attribute(name: string, value: string)

  /** A user entry of a directory listing: its attributes, in listing order. */
  datatype ListedUser = ListedUser(attributes: seq<Attribute>)

  /** The errors the code throws: its own `ManageUsersError` (a message and
      a details string) and a plain `Error` with a message. */
  datatype Error = ManageUsersError(message: string, details: string) | PlainError(message: string)

  /** `attributes.find(attr => attr.Name === name)`: the first attribute with
      that name, if any. */
  function FindAttribute(attrs: seq<Attribute>, name: string): (r: Option<Attribute>)
    ensures r.Some? ==> r.value.name == name
  {
    if attrs == [] then None
    else if attrs[0].name == name then Some(attrs[0])
    else FindAttribute(attrs[1..], name)
  }

  /** The lookup finds something exactly when some attribute has the name,
      and what it finds is the first such attribute. */
  lemma {:induction false} FindAttributeFirst(attrs: seq<Attribute>, name: string)
    ensures var r := FindAttribute(attrs, name);
            && (r.Some? <==> exists i :: 0 <= i < |attrs| && attrs[i].name == name)
            && (r.Some? ==> exists i :: 0 <= i < |attrs| && attrs[i] == r.value
                                        && forall j :: 0 <= j < i ==> attrs[j].name != name)
  {
    if attrs != [] && attrs[0].name != name {
      FindAttributeFirst(attrs[1..], name);
      assert forall i :: 1 <= i < |attrs| ==> attrs[i] == attrs[1..][i - 1];
      var r := FindAttribute(attrs, name);
      if r.Some? {
        var i :| 0 <= i < |attrs[1..]| && attrs[1..][i] == r.value
                 && forall j :: 0 <= j < i ==> attrs[1..][j].name != name;
        assert attrs[i + 1] == r.value;
      }
    }
  }

  /** The record field a lookup compares. */
  datatype Key = ById | ByEmail

  function KeyOf(u: UserData, key: Key): string {
    match key
    case ById => u.id
    case ByEmail => u.email
  }

  /** `Array.findIndex` on one field: the first index whose record holds
      the value in that field, or -1. */
  function FindIndex(users: seq<UserData>, key: Key, value: string): (k: int)
    ensures -1 <= k < |users|
    ensures k == -1 <==> forall j :: 0 <= j < |users| ==> KeyOf(users[j], key) != value
    ensures k >= 0 ==> KeyOf(users[k], key) == value && forall j :: 0 <= j < k ==> KeyOf(users[j], key) != value
  {
    if users == [] then -1
    else if KeyOf(users[0], key) == value then 0
    else
      var k := FindIndex(users[1..], key, value);
      assert forall j :: 1 <= j < |users| ==> users[j] == users[1..][j - 1];
      if k == -1 then -1 else k + 1
  }

  /** `Array.find` on one field: the first record holding the value in
      that field, if any. */
  function Find(users: seq<UserData>, key: Key, value: string): (r: Option<UserData>)
    ensures r.Some? <==> exists j :: 0 <= j < |users| && KeyOf(users[j], key) == value
    ensures r.Some? ==> exists j :: 0 <= j < |users| && users[j] == r.value && KeyOf(r.value, key) == value
                                    && forall l :: 0 <= l < j ==> KeyOf(users[l], key) != value
  {
    var k := FindIndex(users, key, value);
    if k == -1 then None else Some(users[k])
  }

  /** Index of the first record with the given email (`Array.find` on
      email where some record is known to carry it). */
  function FirstWithEmail(users: seq<UserData>, email: string): (k: nat)
    requires exists i :: 0 <= i < |users| && users[i].email == email
    ensures k < |users| && users[k].email == email
    ensures forall j :: 0 <= j < k ==> users[j].email != email
  {
    if users[0].email == email then 0
    else
      var w :| 0 <= w < |users| && users[w].email == email;
      assert users[1..][w - 1].email == email;
      1 + FirstWithEmail(users[1..], email)
  }

  /** The message both create paths use for a failed directory write. */
  const UnableToSave := "Unable to save changes to Identity Store"

  /** The tenant a listed user belongs to: the value of its first
      `custom:tenantId` attribute, if it has one. */
  function TenantOf(u: ListedUser): Option<string> {
    match FindAttribute(u.attributes, "custom:tenantId")
    case Some(a) => Some(a.value)
    case None => None
  }

  /** The filter's test: the user has a tenant attribute and it is the admin's tenant. */
  predicate InTenant(u: ListedUser, tenantId: string) {
    TenantOf(u) == Some(tenantId)
  }

  /** The value of the first attribute with the given name. */
  function AttributeValue(u: ListedUser, name: string): string
    requires FindAttribute(u.attributes, name).Some?
  {
    FindAttribute(u.attributes, name).value.value
  }

  /** The filter's test as a function value. */
  function InTenantOf(tenantId: string): ListedUser -> bool {
    u => InTenant(u, tenantId)
  }

  /** The listed users of the given tenant, in listing order. */
  function SelectTenant(listing: seq<ListedUser>, tenantId: string): seq<ListedUser> {
    Filter(listing, InTenantOf(tenantId))
  }

  /** Selecting over one more listed user appends it when it belongs to
      the tenant. */
  lemma SelectTenantStep(listing: seq<ListedUser>, i: nat, tenantId: string)
    requires i < |listing|
    ensures SelectTenant(listing[..i + 1], tenantId)
            == SelectTenant(listing[..i], tenantId) + (if InTenant(listing[i], tenantId) then [listing[i]] else [])
  {
    assert listing[..i + 1][..i] == listing[..i];
  }

  /** A listed user is selected exactly when it belongs to the tenant; a
      user without a tenant attribute is never selected. */
  lemma SelectTenantExactly(listing: seq<ListedUser>, tenantId: string)
    ensures forall i :: 0 <= i < |listing| ==> (InTenant(listing[i], tenantId) <==> listing[i] in SelectTenant(listing, tenantId))
    ensures forall i :: 0 <= i < |listing| && TenantOf(listing[i]).None? ==> listing[i] !in SelectTenant(listing, tenantId)
  {
    var p := InTenantOf(tenantId);
    FilterIndicesComplete(listing, p);
    forall i | 0 <= i < |listing| && listing[i] in SelectTenant(listing, tenantId)
      ensures InTenant(listing[i], tenantId)
    {
      assert p(listing[i]);
    }
  }

  /** What a batch create reports in the browser (`{message, details,
      usersAdded}`); `usersAdded` is `None` where the code stores
      `undefined` read from a reply that lacks the field. */
  datatype NewUsersResponse = NewUsersResponse(message: string, details: string, usersAdded: Option<seq<UserData>>)

  /** The directory's answer to one delete call: done, "user not found",
      or any other failure. */
  datatype DeleteOutcome = Deleted | NotFound | DeleteFailed

  /** What a batch delete reports (`DeleteUsersOutcome`). */
  datatype DeleteUsersOutcome = DeleteUsersOutcome(message: string, details: string, usersDeleted: seq<string>)

  /** Each of the first `n` ids was deleted. */
  predicate AllWereDeleted(outcomes: seq<DeleteOutcome>, n: nat)
    requires n <= |outcomes|
  {
    forall i :: 0 <= i < n ==> outcomes[i].Deleted?
  }

  /** Some of the first `n` ids was unknown to the directory. */
  predicate SomeNotFound(outcomes: seq<DeleteOutcome>, n: nat)
    requires n <= |outcomes|
  {
    exists i :: 0 <= i < n && outcomes[i].NotFound?
  }
}
