/** The side menu: which sections it lists for the deployed features and
    the signed-in user, and where following one of its links leads. */
module SideNavigation {
  import opened JsValues
  import opened AdminUtils

  /** The feature switches the website is built with. */
  datatype Features = Features(translation: bool, readable: bool)

  /** A menu link. Texts are the translation keys the menu looks up. */
  datatype Link = Link(text: string, href: string)

  datatype NavItem =
    | SectionGroup(title: string, links: seq<Link>)
    | Divider
    | Section(text: string, links: seq<Link>)

  const TranslationGroup := SectionGroup("translation_title", [
    Link("generic_history", "/translation/history"),
    Link("generic_create_new", "/translation/new"),
    Link("translation_quick_text", "/translation/quick")])

  const ReadableGroup := SectionGroup("readable_title", [
    Link("generic_history", "/readable/history"),
    Link("generic_create_new", "/readable/view")])

  const AdminSection := Section("Administration", [Link("Manage Users", "/admin")])

  /** The menu, section by section, for the given features and for a user
      who is or is not a tenant administrator. */
  function Menu(features: Features, isAdmin: bool): seq<NavItem> {
    (if features.translation then [TranslationGroup] else [])
    + (if features.translation && features.readable then [Divider] else [])
    + (if features.readable then [ReadableGroup] else [])
    + (if isAdmin then [AdminSection] else [])
  }

  /** `navigationItems`: the sections are pushed one by one. The user is
      checked for the administrators' group first; a user object on which
      that check throws stops the menu from being built at all. */
  method NavigationItems(features: Features, user: JsValue) returns (r: Completion<seq<NavItem>>)
    ensures r.TypeError? <==> CheckAdmin(user).TypeError?
    ensures r.Normal? ==> r.value == Menu(features, CheckAdmin(user).value)
  {
    var userIsAdmin := CheckAdmin(user);
    if userIsAdmin.TypeError? {
      return TypeError;
    }
    var navigationItems: seq<NavItem> := [];
    if features.translation {
      navigationItems := navigationItems + [TranslationGroup];
    }
    if features.translation && features.readable {
      navigationItems := navigationItems + [Divider];
    }
    if features.readable {
      navigationItems := navigationItems + [ReadableGroup];
    }
    if userIsAdmin.value {
      navigationItems := navigationItems + [AdminSection];
    }
    r := Normal(navigationItems);
  }

  /** The position each kind of section takes in the menu. */
  function Rank(item: NavItem): nat {
    if item == TranslationGroup then 0
    else if item == Divider then 1
    else if item == ReadableGroup then 2
    else 3
  }

  /** Each section is listed exactly when its feature (or, for the
      administration section, the user's group) calls for it; the divider
      only when both feature groups are there; and the sections come in the
      order translation, divider, readable, administration, each at most
      once. */
  lemma MenuLayout(features: Features, isAdmin: bool)
    ensures var m := Menu(features, isAdmin);
            && (TranslationGroup in m <==> features.translation)
            && (Divider in m <==> features.translation && features.readable)
            && (ReadableGroup in m <==> features.readable)
            && (AdminSection in m <==> isAdmin)
            && (forall i, j :: 0 <= i < j < |m| ==> Rank(m[i]) < Rank(m[j]))
  {
    var groups := (if features.translation then [TranslationGroup] else [])
                  + (if features.translation && features.readable then [Divider] else [])
                  + (if features.readable then [ReadableGroup] else []);
    assert forall i :: 0 <= i < |groups| ==> Rank(groups[i]) < 3 && groups[i] != AdminSection;
    assert forall i, j :: 0 <= i < j < |groups| ==> Rank(groups[i]) < Rank(groups[j]);
    assert Menu(features, isAdmin) == groups + (if isAdmin then [AdminSection] else []);
  }

  /** The administration section is listed exactly for a user on whom the
      group search answers `true`. */
  lemma AdminSectionIffInGroup(features: Features, user: JsValue)
    requires CheckAdmin(user).Normal?
    ensures AdminSection in Menu(features, CheckAdmin(user).value)
            <==> IsInAdminGroup(user, "cognito:groups", "TenantAdmins") == Normal(Bool(true))
  {
    MenuLayout(features, CheckAdmin(user).value);
  }

  predicate StartsWith(s: string, prefix: string) {
    |prefix| <= |s| && s[..|prefix|] == prefix
  }

  const ReadableViewHref := "/readable/view"
  const JobQuery := "?jobId="

  /** What following a menu link does: leave it to the browser, move within
      the single-page application, or load the address as a new page. */
  datatype Follow = BrowserDefault | Navigate(to: string) | LoadPage(to: string)

  /** `onFollow`: external links are left alone. A link into the readable
      view first creates a job (`jobId` is what the job service returns) and
      goes to the view of that job, by loading the page when the view is
      already open and by navigating otherwise; any other link is navigated
      to as it is. */
  function OnFollow(external: bool, href: string, jobId: string, currentPath: string): (r: Follow)
    ensures external <==> r == BrowserDefault
    ensures r.LoadPage? <==> !external && StartsWith(href, ReadableViewHref) && StartsWith(currentPath, ReadableViewHref)
    ensures !external && !StartsWith(href, ReadableViewHref) ==> r == Navigate(href)
  {
    if external then BrowserDefault
    else if StartsWith(href, ReadableViewHref) then
      var jobHref := ReadableViewHref + JobQuery + jobId;
      if StartsWith(currentPath, ReadableViewHref) then LoadPage(jobHref) else Navigate(jobHref)
    else Navigate(href)
  }

  /** A followed readable-view link always leads to the view of the job
      just created: the target is the view's address, and the job id can be
      read back from its query. */
  lemma ReadableViewTargetsNewJob(href: string, jobId: string, currentPath: string)
    requires StartsWith(href, ReadableViewHref)
    ensures var r := OnFollow(false, href, jobId, currentPath);
            && !r.BrowserDefault?
            && StartsWith(r.to, ReadableViewHref + JobQuery)
            && r.to[|ReadableViewHref + JobQuery|..] == jobId
  {
    var target := ReadableViewHref + JobQuery + jobId;
    assert target[..|ReadableViewHref + JobQuery|] == ReadableViewHref + JobQuery;
    assert target[|ReadableViewHref + JobQuery|..] == jobId;
  }

  /** Every link the menu lists is followed without leaving the
      application: the readable view's link creates a job, the others are
      navigated to unchanged. */
  lemma MenuLinksNavigate(features: Features, isAdmin: bool, jobId: string, currentPath: string)
    ensures var m := Menu(features, isAdmin);
            forall i, k :: 0 <= i < |m| && !m[i].Divider? && 0 <= k < |m[i].links| ==>
              var href := m[i].links[k].href;
              var r := OnFollow(false, href, jobId, currentPath);
              (href == ReadableViewHref ==> StartsWith(r.to, ReadableViewHref + JobQuery))
              && (href != ReadableViewHref ==> r == Navigate(href))
  {
    var m := Menu(features, isAdmin);
    forall i, k | 0 <= i < |m| && !m[i].Divider? && 0 <= k < |m[i].links|
      ensures var href := m[i].links[k].href;
              var r := OnFollow(false, href, jobId, currentPath);
              (href == ReadableViewHref ==> StartsWith(r.to, ReadableViewHref + JobQuery))
              && (href != ReadableViewHref ==> r == Navigate(href))
    {
      var href := m[i].links[k].href;
      if href == ReadableViewHref {
        ReadableViewTargetsNewJob(href, jobId, currentPath);
      } else {
        assert m[i] in {TranslationGroup, ReadableGroup, AdminSection};
        OtherLinksAreNotTheView(href);
      }
    }
  }

  /** None of the menu's other addresses begins with the readable view's. */
  lemma OtherLinksAreNotTheView(href: string)
    requires href in {"/translation/history", "/translation/new", "/translation/quick", "/readable/history", "/admin"}
    ensures !StartsWith(href, ReadableViewHref)
  {
    assert href == "/readable/history" ==> href[10] != ReadableViewHref[10];
    assert href != "/readable/history" ==> href[1] != ReadableViewHref[1];
  }
}
