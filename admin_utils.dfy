/** The browser's depth-first searches over the signed-in user object (to
    find the group list and to extract a field), the administrator check
    built on the first, and the clamp that bounds an input's width. The
    same three functions are duplicated, line for line, in the admin
    page's `checkAdmin` module. */
module AdminUtils {
  import opened JsValues

  /** `isInAdminGroup`: a non-object is `false`, `null` throws on `in`; the
      first level holding the groups property decides with `includes`;
      otherwise the children are searched in order, stopping at the first
      truthy answer, and finding none falls through to `undefined`. */
  function IsInAdminGroup(v: JsValue, groupsProperty: string, adminGroup: string): (r: Completion<JsValue>)
    decreases v, 1
    ensures !IsObject(v) ==> r == Normal(Bool(false))
    ensures r.Normal? ==> r.value in {Bool(true), Bool(false), Undefined}
  {
    if !IsObject(v) then Normal(Bool(false))
    else if v.Null? then TypeError
    else if HasKey(v, groupsProperty) then
      match Includes(Get(v, groupsProperty), adminGroup)
      case Normal(b) => Normal(Bool(b))
      case TypeError => TypeError
    else SearchGroups(v, groupsProperty, adminGroup, 0)
  }

  /** The loop over `Object.values(v)` from position `i`. */
  function SearchGroups(v: JsValue, groupsProperty: string, adminGroup: string, i: nat): (r: Completion<JsValue>)
    requires v.Arr? || v.Obj?
    requires i <= ChildCount(v)
    decreases v, 0, ChildCount(v) - i
    ensures r.Normal? ==> r.value in {Bool(true), Undefined}
  {
    if i == ChildCount(v) then Normal(Undefined)
    else
      var child := match v case Obj(props) => props[i].value case Arr(items) => items[i];
      match IsInAdminGroup(child, groupsProperty, adminGroup)
      case TypeError => TypeError
      case Normal(found) => if Truthy(found) then Normal(Bool(true)) else SearchGroups(v, groupsProperty, adminGroup, i + 1)
  }

  /** `checkAdmin`: whether the search finds "TenantAdmins" in a
      "cognito:groups" list; a `TypeError` of the search propagates. */
  function CheckAdmin(user: JsValue): (r: Completion<bool>)
    ensures r.Normal? ==> (r.value <==> IsInAdminGroup(user, "cognito:groups", "TenantAdmins") == Normal(Bool(true)))
  {
    match IsInAdminGroup(user, "cognito:groups", "TenantAdmins")
    case TypeError => TypeError
    case Normal(found) => Normal(Truthy(found))
  }

  /** Child `j` of `v` answers the group search without throwing, falsy. */
  predicate GroupsFalsy(v: JsValue, groupsProperty: string, adminGroup: string, j: nat)
    requires j < ChildCount(v)
  {
    var a := IsInAdminGroup(Child(v, j), groupsProperty, adminGroup);
    a.Normal? && !Truthy(a.value)
  }

  /** Child `k` is the first child from position `i` on whose group
      search answers `true`, all before it having answered falsy. */
  predicate FirstGroupAnswer(v: JsValue, groupsProperty: string, adminGroup: string, i: nat, k: nat)
    requires i <= k < ChildCount(v)
  {
    IsInAdminGroup(Child(v, k), groupsProperty, adminGroup) == Normal(Bool(true))
    && forall j :: i <= j < k ==> GroupsFalsy(v, groupsProperty, adminGroup, j)
  }

  /** The child search answers `true` exactly when some child answers
      `true` and every child before it answers without throwing and falsy;
      it answers `undefined` exactly when every child answers falsy. */
  lemma {:induction false} SearchGroupsFirstMatch(v: JsValue, groupsProperty: string, adminGroup: string, i: nat)
    requires v.Arr? || v.Obj?
    requires i <= ChildCount(v)
    ensures var r := SearchGroups(v, groupsProperty, adminGroup, i);
            && (r == Normal(Bool(true)) <==> exists k :: i <= k < ChildCount(v) && FirstGroupAnswer(v, groupsProperty, adminGroup, i, k))
            && (r == Normal(Undefined) <==> forall j :: i <= j < ChildCount(v) ==> GroupsFalsy(v, groupsProperty, adminGroup, j))
    decreases ChildCount(v) - i
  {
    if i < ChildCount(v) {
      var a := IsInAdminGroup(Child(v, i), groupsProperty, adminGroup);
      assert Child(v, i) == match v case Obj(props) => props[i].value case Arr(items) => items[i];
      var r := SearchGroups(v, groupsProperty, adminGroup, i);
      if a.TypeError? {
        assert r == TypeError;
        assert !GroupsFalsy(v, groupsProperty, adminGroup, i);
        forall k | i <= k < ChildCount(v) ensures !FirstGroupAnswer(v, groupsProperty, adminGroup, i, k) {
          if k > i {
            assert !GroupsFalsy(v, groupsProperty, adminGroup, i);
          }
        }
      } else if Truthy(a.value) {
        assert a == Normal(Bool(true));
        assert r == Normal(Bool(true));
        assert FirstGroupAnswer(v, groupsProperty, adminGroup, i, i);
        assert !GroupsFalsy(v, groupsProperty, adminGroup, i);
      } else {
        assert GroupsFalsy(v, groupsProperty, adminGroup, i);
        assert r == SearchGroups(v, groupsProperty, adminGroup, i + 1);
        SearchGroupsFirstMatch(v, groupsProperty, adminGroup, i + 1);
        forall k | i + 1 <= k < ChildCount(v)
          ensures FirstGroupAnswer(v, groupsProperty, adminGroup, i, k) <==> FirstGroupAnswer(v, groupsProperty, adminGroup, i + 1, k)
        {
        }
        assert !FirstGroupAnswer(v, groupsProperty, adminGroup, i, i);
        if r == Normal(Bool(true)) {
          var k :| i + 1 <= k < ChildCount(v) && FirstGroupAnswer(v, groupsProperty, adminGroup, i + 1, k);
          assert FirstGroupAnswer(v, groupsProperty, adminGroup, i, k);
        }
        if exists k :: i <= k < ChildCount(v) && FirstGroupAnswer(v, groupsProperty, adminGroup, i, k) {
          var k :| i <= k < ChildCount(v) && FirstGroupAnswer(v, groupsProperty, adminGroup, i, k);
          assert FirstGroupAnswer(v, groupsProperty, adminGroup, i + 1, k);
        }
      }
    }
  }

  /** A path of child positions leads from `v` to an array or object that
      holds the groups property, through levels that do not, and its value
      includes the group. */
  ghost predicate GroupWitness(v: JsValue, groupsProperty: string, adminGroup: string, path: seq<nat>)
    decreases |path|
  {
    (v.Arr? || v.Obj?) &&
    if path == [] then HasKey(v, groupsProperty) && Includes(Get(v, groupsProperty), adminGroup) == Normal(true)
    else !HasKey(v, groupsProperty) && path[0] < ChildCount(v)
         && GroupWitness(Child(v, path[0]), groupsProperty, adminGroup, path[1..])
  }

  /** A positive answer is justified: some level reached only through
      levels without the groups property holds a list that includes the
      group. */
  lemma {:induction false} AdminAnswerHasWitness(v: JsValue, groupsProperty: string, adminGroup: string)
    requires IsInAdminGroup(v, groupsProperty, adminGroup) == Normal(Bool(true))
    ensures exists path :: GroupWitness(v, groupsProperty, adminGroup, path)
    decreases v, 1
  {
    if HasKey(v, groupsProperty) {
      assert GroupWitness(v, groupsProperty, adminGroup, []);
    } else {
      SearchHasWitness(v, groupsProperty, adminGroup, 0);
    }
  }

  lemma {:induction false} SearchHasWitness(v: JsValue, groupsProperty: string, adminGroup: string, i: nat)
    requires v.Arr? || v.Obj?
    requires !HasKey(v, groupsProperty)
    requires i <= ChildCount(v)
    requires SearchGroups(v, groupsProperty, adminGroup, i) == Normal(Bool(true))
    ensures exists path :: GroupWitness(v, groupsProperty, adminGroup, path)
    decreases v, 0, ChildCount(v) - i
  {
    var child := match v case Obj(props) => props[i].value case Arr(items) => items[i];
    assert child == Child(v, i);
    if IsInAdminGroup(child, groupsProperty, adminGroup) == Normal(Bool(true)) {
      AdminAnswerHasWitness(child, groupsProperty, adminGroup);
      var p :| GroupWitness(child, groupsProperty, adminGroup, p);
      assert ([i] + p)[1..] == p;
      assert GroupWitness(v, groupsProperty, adminGroup, [i] + p);
    } else {
      SearchHasWitness(v, groupsProperty, adminGroup, i + 1);
    }
  }

  /** `extractField`: a non-object gives `undefined`, `null` throws on `in`;
      the first level holding the property returns its value, falsy or not;
      otherwise the first truthy answer of the children, in order, and
      `undefined` when there is none. */
  function ExtractField(v: JsValue, requiredProperty: string): (r: Completion<JsValue>)
    decreases v, 1
    ensures !IsObject(v) ==> r == Normal(Undefined)
    ensures (v.Arr? || v.Obj?) && HasKey(v, requiredProperty) ==> r == Normal(Get(v, requiredProperty))
  {
    if !IsObject(v) then Normal(Undefined)
    else if v.Null? then TypeError
    else if HasKey(v, requiredProperty) then Normal(Get(v, requiredProperty))
    else SearchField(v, requiredProperty, 0)
  }

  /** The loop over `Object.values(v)` from position `i`. */
  function SearchField(v: JsValue, requiredProperty: string, i: nat): (r: Completion<JsValue>)
    requires v.Arr? || v.Obj?
    requires i <= ChildCount(v)
    decreases v, 0, ChildCount(v) - i
  {
    if i == ChildCount(v) then Normal(Undefined)
    else
      var child := match v case Obj(props) => props[i].value case Arr(items) => items[i];
      match ExtractField(child, requiredProperty)
      case TypeError => TypeError
      case Normal(result) => if Truthy(result) then Normal(result) else SearchField(v, requiredProperty, i + 1)
  }

  /** Child `j` of `v` answers the field search without throwing, falsy. */
  predicate FieldFalsy(v: JsValue, requiredProperty: string, j: nat)
    requires j < ChildCount(v)
  {
    var a := ExtractField(Child(v, j), requiredProperty);
    a.Normal? && !Truthy(a.value)
  }

  /** Child `k` is the first child from position `i` on whose field search
      answers truthy, all before it having answered falsy. */
  predicate FirstFieldAnswer(v: JsValue, requiredProperty: string, i: nat, k: nat)
    requires i <= k < ChildCount(v)
  {
    var a := ExtractField(Child(v, k), requiredProperty);
    a.Normal? && Truthy(a.value) && forall j :: i <= j < k ==> FieldFalsy(v, requiredProperty, j)
  }

  /** The child search returns the first truthy child answer, provided the
      children before it answered without throwing; it returns `undefined`
      exactly when every child answers falsy. */
  lemma {:induction false} SearchFieldFirstMatch(v: JsValue, requiredProperty: string, i: nat)
    requires v.Arr? || v.Obj?
    requires i <= ChildCount(v)
    ensures var r := SearchField(v, requiredProperty, i);
            && (r.Normal? && Truthy(r.value) <==> exists k :: i <= k < ChildCount(v) && FirstFieldAnswer(v, requiredProperty, i, k))
            && (forall k :: i <= k < ChildCount(v) && FirstFieldAnswer(v, requiredProperty, i, k) ==> r == ExtractField(Child(v, k), requiredProperty))
            && (r == Normal(Undefined) <==> forall j :: i <= j < ChildCount(v) ==> FieldFalsy(v, requiredProperty, j))
    decreases ChildCount(v) - i
  {
    if i < ChildCount(v) {
      var a := ExtractField(Child(v, i), requiredProperty);
      assert Child(v, i) == match v case Obj(props) => props[i].value case Arr(items) => items[i];
      var r := SearchField(v, requiredProperty, i);
      if a.TypeError? {
        assert r == TypeError;
        assert !FieldFalsy(v, requiredProperty, i);
        forall k | i <= k < ChildCount(v) ensures !FirstFieldAnswer(v, requiredProperty, i, k) {
          if k > i {
            assert !FieldFalsy(v, requiredProperty, i);
          }
        }
      } else if Truthy(a.value) {
        assert r == a;
        assert FirstFieldAnswer(v, requiredProperty, i, i);
        assert !FieldFalsy(v, requiredProperty, i);
        forall k | i < k < ChildCount(v) ensures !FirstFieldAnswer(v, requiredProperty, i, k) {
          assert !FieldFalsy(v, requiredProperty, i);
        }
      } else {
        assert FieldFalsy(v, requiredProperty, i);
        assert r == SearchField(v, requiredProperty, i + 1);
        SearchFieldFirstMatch(v, requiredProperty, i + 1);
        forall k | i + 1 <= k < ChildCount(v)
          ensures FirstFieldAnswer(v, requiredProperty, i, k) <==> FirstFieldAnswer(v, requiredProperty, i + 1, k)
        {
        }
        assert !FirstFieldAnswer(v, requiredProperty, i, i);
        if r.Normal? && Truthy(r.value) {
          var k :| i + 1 <= k < ChildCount(v) && FirstFieldAnswer(v, requiredProperty, i + 1, k);
          assert FirstFieldAnswer(v, requiredProperty, i, k);
        }
        if exists k :: i <= k < ChildCount(v) && FirstFieldAnswer(v, requiredProperty, i, k) {
          var k :| i <= k < ChildCount(v) && FirstFieldAnswer(v, requiredProperty, i, k);
          assert FirstFieldAnswer(v, requiredProperty, i + 1, k);
        }
      }
    }
  }

  /** A path of child positions leads from `v` to an array or object that
      holds the property, through levels that do not, and the property's
      value there is `x`. */
  ghost predicate FieldWitness(v: JsValue, requiredProperty: string, x: JsValue, path: seq<nat>)
    decreases |path|
  {
    (v.Arr? || v.Obj?) &&
    if path == [] then HasKey(v, requiredProperty) && Get(v, requiredProperty) == x
    else !HasKey(v, requiredProperty) && path[0] < ChildCount(v)
         && FieldWitness(Child(v, path[0]), requiredProperty, x, path[1..])
  }

  /** Whatever the extraction returns other than `undefined` is the value
      of the property at some level reached through levels without it. */
  lemma {:induction false} FieldAnswerHasWitness(v: JsValue, requiredProperty: string)
    requires ExtractField(v, requiredProperty).Normal? && ExtractField(v, requiredProperty).value != Undefined
    ensures exists path :: FieldWitness(v, requiredProperty, ExtractField(v, requiredProperty).value, path)
    decreases v, 1
  {
    var x := ExtractField(v, requiredProperty).value;
    if HasKey(v, requiredProperty) {
      assert FieldWitness(v, requiredProperty, x, []);
    } else {
      SearchFieldHasWitness(v, requiredProperty, 0);
    }
  }

  lemma {:induction false} SearchFieldHasWitness(v: JsValue, requiredProperty: string, i: nat)
    requires v.Arr? || v.Obj?
    requires !HasKey(v, requiredProperty)
    requires i <= ChildCount(v)
    requires SearchField(v, requiredProperty, i).Normal? && SearchField(v, requiredProperty, i).value != Undefined
    ensures exists path :: FieldWitness(v, requiredProperty, SearchField(v, requiredProperty, i).value, path)
    decreases v, 0, ChildCount(v) - i
  {
    var x := SearchField(v, requiredProperty, i).value;
    var child := match v case Obj(props) => props[i].value case Arr(items) => items[i];
    assert child == Child(v, i);
    var a := ExtractField(child, requiredProperty);
    if a.Normal? && Truthy(a.value) {
      assert a.value == x;
      FieldAnswerHasWitness(child, requiredProperty);
      var p :| FieldWitness(child, requiredProperty, x, p);
      assert ([i] + p)[1..] == p;
      assert FieldWitness(v, requiredProperty, x, [i] + p);
    } else {
      SearchFieldHasWitness(v, requiredProperty, i + 1);
    }
  }

  /** The width `adjustInputWidth` sets for a measured text width: the
      text plus 8 pixels of padding on each side, kept within 50..500. */
  function InputWidth(textWidth: int): (w: int)
    ensures 50 <= w <= 500
    ensures 34 <= textWidth <= 484 ==> w == textWidth + 16
    ensures textWidth < 34 ==> w == 50
    ensures textWidth > 484 ==> w == 500
  {
    var padded := textWidth + 8 * 2;
    var atLeast := if padded > 50 then padded else 50;
    if atLeast < 500 then atLeast else 500
  }
}
