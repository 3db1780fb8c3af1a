/** The tenant filter of the user-management Lambda: keeps the listed users
    whose tenant attribute is the administrator's tenant and reshapes each
    attribute bag into a flat record. */
module LambdaFilter {
  import opened Wrappers
  import opened UserModel

  /** The attributes the record is built from; the source force-unwraps each
      lookup, so a selected user without one of them is a fault. */
  predicate HasRecordAttributes(u: ListedUser) {
    && FindAttribute(u.attributes, "sub").Some?
    && FindAttribute(u.attributes, "given_name").Some?
    && FindAttribute(u.attributes, "family_name").Some?
    && FindAttribute(u.attributes, "email").Some?
    && FindAttribute(u.attributes, "custom:organisationName").Some?
  }

  /** Every user of the tenant carries the record's attributes, so no
      force-unwrap of the filter faults. */
  predicate SelectedAreComplete(listing: seq<ListedUser>, adminTenantId: string) {
    forall i :: 0 <= i < |listing| && InTenant(listing[i], adminTenantId) ==> HasRecordAttributes(listing[i])
  }

  /** The flat record of a selected user: each field is the first attribute
      of its name, the tenant is the tenant attribute's value. */
  function Record(u: ListedUser): UserData
    requires TenantOf(u).Some? && HasRecordAttributes(u)
  {
    UserData(
      id := AttributeValue(u, "sub"),
      firstName := AttributeValue(u, "given_name"),
      lastName := AttributeValue(u, "family_name"),
      email := AttributeValue(u, "email"),
      tenantId := TenantOf(u).value,
      organisationName := Some(AttributeValue(u, "custom:organisationName")),
      isNew := false, isValid := false, isChanged := false)
  }

  /** The records of the tenant's users among the first `n` listed. */
  function Filtered(listing: seq<ListedUser>, adminTenantId: string, n: nat): (r: seq<UserData>)
    requires n <= |listing|
    requires forall i :: 0 <= i < |listing| && InTenant(listing[i], adminTenantId) ==> HasRecordAttributes(listing[i])
    ensures |r| <= n
  {
    if n == 0 then []
    else
      var user := listing[n - 1];
      Filtered(listing, adminTenantId, n - 1) + (if InTenant(user, adminTenantId) then [Record(user)] else [])
  }

  /** The records are those of the selected users, one each, in order. */
  lemma {:induction false} FilteredAreSelectedRecords(listing: seq<ListedUser>, adminTenantId: string, n: nat)
    requires n <= |listing|
    requires forall i :: 0 <= i < |listing| && InTenant(listing[i], adminTenantId) ==> HasRecordAttributes(listing[i])
    ensures var f, sel := Filtered(listing, adminTenantId, n), SelectTenant(listing[..n], adminTenantId);
            && |f| == |sel|
            && forall k :: 0 <= k < |sel| ==> InTenant(sel[k], adminTenantId) && HasRecordAttributes(sel[k]) && f[k] == Record(sel[k])
  {
    if n > 0 {
      FilteredAreSelectedRecords(listing, adminTenantId, n - 1);
      SelectTenantStep(listing, n - 1, adminTenantId);
    }
  }

  /** The filter: one record per user of the tenant, in listing order, each
      carrying the administrator's tenant. */
  method FilterUsers(listing: seq<ListedUser>, adminTenantId: string) returns (filtered: seq<UserData>)
    requires forall i :: 0 <= i < |listing| && InTenant(listing[i], adminTenantId) ==> HasRecordAttributes(listing[i])
    ensures |filtered| == |SelectTenant(listing, adminTenantId)| <= |listing|
    ensures forall k :: 0 <= k < |filtered| ==>
              var u := SelectTenant(listing, adminTenantId)[k];
              InTenant(u, adminTenantId) && HasRecordAttributes(u) && filtered[k] == Record(u)
    ensures forall k :: 0 <= k < |filtered| ==> filtered[k].tenantId == adminTenantId
  {
    filtered := [];
    var i := 0;
    while i < |listing|
      invariant 0 <= i <= |listing|
      invariant filtered == Filtered(listing, adminTenantId, i)
    {
      var user := listing[i];
      var tenant := TenantOf(user);
      if tenant == Some(adminTenantId) {
        filtered := filtered + [Record(user)];
      }
      i := i + 1;
    }
    FilteredAreSelectedRecords(listing, adminTenantId, i);
    assert listing[..i] == listing;
  }
}

/** The front-end copy of the tenant filter. It looks up the organisation
    attribute but leaves it out of the record, so only id, names, email and
    tenant are required of a selected user. */
module ClientFilter {
  import opened Wrappers
  import opened UserModel

  /** The attributes the record is built from (the organisation is not one). */
  predicate HasRecordAttributes(u: ListedUser) {
    && FindAttribute(u.attributes, "sub").Some?
    && FindAttribute(u.attributes, "given_name").Some?
    && FindAttribute(u.attributes, "family_name").Some?
    && FindAttribute(u.attributes, "email").Some?
  }

  /** The flat record of a selected user, without an organisation name. */
  function Record(u: ListedUser): UserData
    requires TenantOf(u).Some? && HasRecordAttributes(u)
  {
    UserData(
      id := AttributeValue(u, "sub"),
      firstName := AttributeValue(u, "given_name"),
      lastName := AttributeValue(u, "family_name"),
      email := AttributeValue(u, "email"),
      tenantId := TenantOf(u).value,
      organisationName := None,
      isNew := false, isValid := false, isChanged := false)
  }

  /** The records of the tenant's users among the first `n` listed. */
  function Filtered(listing: seq<ListedUser>, adminTenantId: string, n: nat): (r: seq<UserData>)
    requires n <= |listing|
    requires forall i :: 0 <= i < |listing| && InTenant(listing[i], adminTenantId) ==> HasRecordAttributes(listing[i])
    ensures |r| <= n
  {
    if n == 0 then []
    else
      var user := listing[n - 1];
      Filtered(listing, adminTenantId, n - 1) + (if InTenant(user, adminTenantId) then [Record(user)] else [])
  }

  /** The records are those of the selected users, one each, in order. */
  lemma {:induction false} FilteredAreSelectedRecords(listing: seq<ListedUser>, adminTenantId: string, n: nat)
    requires n <= |listing|
    requires forall i :: 0 <= i < |listing| && InTenant(listing[i], adminTenantId) ==> HasRecordAttributes(listing[i])
    ensures var f, sel := Filtered(listing, adminTenantId, n), SelectTenant(listing[..n], adminTenantId);
            && |f| == |sel|
            && forall k :: 0 <= k < |sel| ==> InTenant(sel[k], adminTenantId) && HasRecordAttributes(sel[k]) && f[k] == Record(sel[k])
  {
    if n > 0 {
      FilteredAreSelectedRecords(listing, adminTenantId, n - 1);
      SelectTenantStep(listing, n - 1, adminTenantId);
    }
  }

  /** The filter: one record per user of the tenant, in listing order, each
      carrying the administrator's tenant. */
  method FilterUsers(listing: seq<ListedUser>, adminTenantId: string) returns (filtered: seq<UserData>)
    requires forall i :: 0 <= i < |listing| && InTenant(listing[i], adminTenantId) ==> HasRecordAttributes(listing[i])
    ensures |filtered| == |SelectTenant(listing, adminTenantId)| <= |listing|
    ensures forall k :: 0 <= k < |filtered| ==>
              var u := SelectTenant(listing, adminTenantId)[k];
              InTenant(u, adminTenantId) && HasRecordAttributes(u) && filtered[k] == Record(u)
    ensures forall k :: 0 <= k < |filtered| ==> filtered[k].tenantId == adminTenantId && filtered[k].organisationName == None
  {
    filtered := [];
    var i := 0;
    while i < |listing|
      invariant 0 <= i <= |listing|
      invariant filtered == Filtered(listing, adminTenantId, i)
    {
      var user := listing[i];
      var tenant := TenantOf(user);
      if tenant == Some(adminTenantId) {
        filtered := filtered + [Record(user)];
      }
      i := i + 1;
    }
    FilteredAreSelectedRecords(listing, adminTenantId, i);
    assert listing[..i] == listing;
  }
}
