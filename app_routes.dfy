/** The website's route table: which pages are reachable for the deployed
    features and for the signed-in user's groups. */
module AppRoutes {
  import opened Wrappers
  import opened JsValues
  import opened SideNavigation

  datatype Page =
    | TranslationHistory | TranslationNew | TranslationQuick
    | ReadableHistory | ReadableView | ReadablePrint
    | AdminPanel | Help | SignOut

  datatype Route = Route(path: string, page: Page)

  /** Optional chaining along a property path: an `undefined` or `null`
      value on the way makes the whole chain `undefined`. */
  function OptionalPath(v: JsValue, keys: seq<string>): (r: JsValue)
    ensures keys == [] ==> r == v
    ensures (v == Undefined || v == Null) && keys != [] ==> r == Undefined
    decreases keys
  {
    if keys == [] then v
    else if v == Undefined || v == Null then Undefined
    else OptionalPath(Get(v, keys[0]), keys[1..])
  }

  const GroupsPath: seq<string> := ["user", "authSession", "tokens", "accessToken", "payload", "cognito:groups"]

  /** The signed-in user's groups, as the access token lists them. */
  function Groups(user: JsValue): JsValue {
    OptionalPath(user, GroupsPath)
  }

  const TranslationRoutes: seq<Route> := [
    Route("/", TranslationHistory),
    Route("/translation/", TranslationHistory),
    Route("/translation/history/", TranslationHistory),
    Route("/translation/new/", TranslationNew),
    Route("/translation/quick/", TranslationQuick)]

  const ReadableRoutes: seq<Route> := [
    Route("/readable/", ReadableHistory),
    Route("/readable/history/", ReadableHistory),
    Route("/readable/view/*", ReadableView),
    Route("/readable/print/*", ReadablePrint)]

  const AdminRoute := Route("/admin/", AdminPanel)
  const HelpRoute := Route("/help/", Help)
  const SignOutRoute := Route("/signout/", SignOut)

  /** The route table once it is known whether the user is a tenant
      administrator. */
  function Table(features: Features, isAdmin: bool): seq<Route> {
    (if features.translation then TranslationRoutes else [])
    + (if !features.translation && features.readable then [Route("/", ReadableHistory)] else [])
    + (if features.readable then ReadableRoutes else [])
    + (if isAdmin then [AdminRoute] else [])
    + [HelpRoute, SignOutRoute]
  }

  /** `AppRoutes`: the translation pages (with "/" as their history), the
      readable pages (with "/" as their history when translation is off),
      the administration page when the groups are defined and include
      "TenantAdmins", then help and sign-out. Asking a defined value that is
      neither a list nor a string whether it includes the group throws. */
  function Routes(features: Features, user: JsValue): (r: Completion<seq<Route>>)
    ensures r.TypeError? <==> Groups(user) != Undefined && Includes(Groups(user), "TenantAdmins").TypeError?
    ensures r.Normal? ==> r.value == Table(features, Groups(user) != Undefined && Includes(Groups(user), "TenantAdmins") == Normal(true))
  {
    var groups := Groups(user);
    var admin := if groups == Undefined then Normal(false) else Includes(groups, "TenantAdmins");
    match admin
    case TypeError => TypeError
    case Normal(isAdmin) => Normal(Table(features, isAdmin))
  }

  /** The page a path leads to: the first route with that path. */
  function PageFor(routes: seq<Route>, path: string): Option<Page> {
    if routes == [] then None
    else if routes[0].path == path then Some(routes[0].page)
    else PageFor(routes[1..], path)
  }

  lemma {:induction false} PageForAppend(a: seq<Route>, b: seq<Route>, path: string)
    ensures PageFor(a + b, path) == if PageFor(a, path).Some? then PageFor(a, path) else PageFor(b, path)
  {
    if a == [] {
      assert a + b == b;
    } else {
      PageForAppend(a[1..], b, path);
      assert (a + b)[1..] == a[1..] + b;
    }
  }

  lemma {:induction false} PageForAbsent(routes: seq<Route>, path: string)
    requires forall i :: 0 <= i < |routes| ==> |routes[i].path| != |path|
    ensures PageFor(routes, path) == None
  {
    if routes != [] {
      PageForAbsent(routes[1..], path);
    }
  }

  predicate IsTranslationPage(p: Page) {
    p == TranslationHistory || p == TranslationNew || p == TranslationQuick
  }

  predicate IsReadablePage(p: Page) {
    p == ReadableHistory || p == ReadableView || p == ReadablePrint
  }

  /** The routes after the translation pages and the readable "/". */
  function Rest(features: Features, isAdmin: bool): seq<Route> {
    (if features.readable then ReadableRoutes else []) + (if isAdmin then [AdminRoute] else []) + [HelpRoute, SignOutRoute]
  }

  lemma TableSplits(features: Features, isAdmin: bool)
    ensures Table(features, isAdmin)
            == (if features.translation then TranslationRoutes else [])
               + ((if !features.translation && features.readable then [Route("/", ReadableHistory)] else [])
                  + Rest(features, isAdmin))
  {
  }

  lemma RestHasNoRoot(features: Features, isAdmin: bool)
    ensures forall i :: 0 <= i < |Rest(features, isAdmin)| ==> |Rest(features, isAdmin)[i].path| != 1
  {
  }

  /** "/" shows the translation history when translation is on, the
      readable history when only readable is on, and nothing otherwise. */
  lemma RootRoute(features: Features, isAdmin: bool)
    ensures var rs := Table(features, isAdmin);
            && (features.translation ==> PageFor(rs, "/") == Some(TranslationHistory))
            && (!features.translation && features.readable ==> PageFor(rs, "/") == Some(ReadableHistory))
            && (!features.translation && !features.readable ==> PageFor(rs, "/") == None)
  {
    var t := if features.translation then TranslationRoutes else [];
    var rh := if !features.translation && features.readable then [Route("/", ReadableHistory)] else [];
    var rest := Rest(features, isAdmin);
    TableSplits(features, isAdmin);
    RestHasNoRoot(features, isAdmin);
    PageForAbsent(rest, "/");
    PageForAppend(rh, rest, "/");
    PageForAppend(t, rh + rest, "/");
  }

  /** "/" is never listed twice. */
  lemma RootListedOnce(features: Features, isAdmin: bool)
    ensures var rs := Table(features, isAdmin);
            forall i, j :: 0 <= i < j < |rs| && rs[i].path == "/" ==> rs[j].path != "/"
  {
  }

  /** Help and sign-out are always reachable. */
  lemma FixedRoutes(features: Features, isAdmin: bool)
    ensures var rs := Table(features, isAdmin);
            PageFor(rs, "/help/") == Some(Help) && PageFor(rs, "/signout/") == Some(SignOut)
  {
    var head := (if features.translation then TranslationRoutes else [])
      + (if !features.translation && features.readable then [Route("/", ReadableHistory)] else [])
      + (if features.readable then ReadableRoutes else [])
      + (if isAdmin then [AdminRoute] else []);
    PageForAbsent(head, "/help/");
    PageForAbsent(head, "/signout/");
    PageForAppend(head, [HelpRoute, SignOutRoute], "/help/");
    PageForAppend(head, [HelpRoute, SignOutRoute], "/signout/");
  }

  /** The translation pages are all listed when translation is on and none
      is when it is off; likewise the readable pages (beyond "/") with
      readable. */
  lemma FeatureRoutes(features: Features, isAdmin: bool)
    ensures var rs := Table(features, isAdmin);
            && (features.translation ==> forall r :: r in TranslationRoutes ==> r in rs)
            && (!features.translation ==> forall i :: 0 <= i < |rs| ==> !IsTranslationPage(rs[i].page))
            && (features.readable ==> forall r :: r in ReadableRoutes ==> r in rs)
            && (!features.readable ==> forall i :: 0 <= i < |rs| ==> !IsReadablePage(rs[i].page))
  {
  }

  /** The administration page is reachable exactly when the user's groups
      are a list holding "TenantAdmins" or a string containing it. */
  lemma AdminRouteIffTenantAdmin(features: Features, user: JsValue)
    requires Routes(features, user).Normal?
    ensures AdminRoute in Routes(features, user).value
            <==> Groups(user) != Undefined && Includes(Groups(user), "TenantAdmins") == Normal(true)
  {
  }

  /** An object holding `leaf` under the path `keys`, one property per level. */
  function Nested(keys: seq<string>, leaf: JsValue): JsValue
    decreases keys
  {
    if keys == [] then leaf else Obj([Prop(keys[0], Nested(keys[1..], leaf))])
  }

  /** Following a path reads back what is stored along it. */
  lemma {:induction false} OptionalPathReadsNested(keys: seq<string>, leaf: JsValue)
    ensures OptionalPath(Nested(keys, leaf), keys) == leaf
    decreases keys
  {
    if keys != [] {
      var inner := Nested(keys[1..], leaf);
      assert PropIndex([Prop(keys[0], inner)], keys[0]) == 0;
      assert Get(Nested(keys, leaf), keys[0]) == inner;
      OptionalPathReadsNested(keys[1..], leaf);
    }
  }

  /** A user whose token lists the group reaches the administration page;
      a user without a session does not, and the table does not throw. */
  lemma AdminRouteExamples(features: Features, others: seq<JsValue>)
    ensures var user := Nested(GroupsPath, Arr(others + [Str("TenantAdmins")]));
            Routes(features, user).Normal? && AdminRoute in Routes(features, user).value
    ensures Routes(features, Obj([])).Normal? && AdminRoute !in Routes(features, Obj([])).value
  {
    var groups := Arr(others + [Str("TenantAdmins")]);
    OptionalPathReadsNested(GroupsPath, groups);
    assert Str("TenantAdmins") in others + [Str("TenantAdmins")];
    AdminRouteIffTenantAdmin(features, Nested(GroupsPath, groups));
    assert Get(Obj([]), "user") == Undefined;
    assert Groups(Obj([])) == Undefined;
    AdminRouteIffTenantAdmin(features, Obj([]));
  }
}
