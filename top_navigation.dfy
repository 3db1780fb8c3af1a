/** The page header: the light/dark/automatic display-mode button and the
    logo the header shows. */
module TopNavigation {
  import opened Wrappers

  /** The display mode the header reads: one of the three modes, not yet
      set (`undefined`), or a stored value that is none of the three. */
  datatype ModeValue = Light | Dark | Auto | Undefined | Unrecognised

  predicate IsMode(m: ModeValue) {
    m == Light || m == Dark || m == Auto
  }

  /** `toggleVisualMode`: light to dark, dark to automatic, automatic or
      unset to light; the if-chain has no final `else`, so any other value
      becomes `undefined`. */
  function Toggle(m: ModeValue): (r: ModeValue)
    ensures IsMode(m) || m == Undefined ==> IsMode(r)
    ensures m == Unrecognised ==> r == Undefined
  {
    match m
    case Light => Dark
    case Dark => Auto
    case Auto => Light
    case Undefined => Light
    case Unrecognised => Undefined
  }

  /** `displayVisualModeIcon`: a full star for light, an empty star for
      dark, and a half star for anything else. */
  function Icon(m: ModeValue): (icon: string)
    ensures icon == "star-filled" <==> m == Light
    ensures icon == "star" <==> m == Dark
    ensures icon == "star-half" <==> !(m == Light || m == Dark)
  {
    if m == Light then "star-filled"
    else if m == Dark then "star"
    else "star-half"
  }

  /** Three presses of the button bring each mode back, passing through
      the other two. */
  lemma ToggleCycles(m: ModeValue)
    requires IsMode(m)
    ensures Toggle(Toggle(Toggle(m))) == m
    ensures Toggle(m) != m && Toggle(Toggle(m)) != m && Toggle(m) != Toggle(Toggle(m))
  {
  }

  /** Each of the three modes shows its own icon, and the button moves the
      icon along: an unset mode shows the automatic icon and toggles as
      automatic does. */
  lemma IconFollowsToggle(m: ModeValue)
    requires IsMode(m) || m == Undefined
    ensures Icon(Toggle(m)) != Icon(m)
    ensures m == Undefined ==> Icon(m) == Icon(Auto) && Toggle(m) == Toggle(Auto)
    ensures forall n: ModeValue :: IsMode(n) && IsMode(m) && Icon(n) == Icon(m) ==> n == m
  {
  }

  /** The logo files are looked up in this order. */
  const LogoExtensions: seq<string> := ["png", "svg"]

  /** The first extension whose logo file loads, with what it loads to. */
  function FirstLoaded(exts: seq<string>, load: string -> Option<string>): (r: Option<string>)
    ensures r.None? <==> forall k :: 0 <= k < |exts| ==> load(exts[k]).None?
    ensures r.Some? ==> exists k :: 0 <= k < |exts| && load(exts[k]) == r
                                    && forall j :: 0 <= j < k ==> load(exts[j]).None?
  {
    if exts == [] then None
    else if load(exts[0]).Some? then load(exts[0])
    else
      var r := FirstLoaded(exts[1..], load);
      assert forall k :: 1 <= k < |exts| ==> exts[k] == exts[1..][k - 1];
      r
  }

  /** `getLogo`: tries each extension in turn and stops at the first file
      that loads; `load` stands for the bundler's `require`, `None` for the
      exception a missing file raises. */
  method GetLogo(load: string -> Option<string>) returns (src: string)
    ensures src == FirstLoaded(LogoExtensions, load).GetOr("")
    ensures load("png").Some? ==> src == load("png").value
    ensures load("png").None? && load("svg").Some? ==> src == load("svg").value
    ensures load("png").None? && load("svg").None? ==> src == ""
  {
    var fileExtensions := LogoExtensions;
    src := "";
    var i := 0;
    while i < |fileExtensions|
      invariant 0 <= i <= |fileExtensions|
      invariant src == ""
      invariant FirstLoaded(fileExtensions, load) == FirstLoaded(fileExtensions[i..], load)
    {
      var logoSrc := load(fileExtensions[i]);
      if logoSrc.Some? {
        src := logoSrc.value;
        assert FirstLoaded(fileExtensions, load) == logoSrc;
        break;
      }
      assert fileExtensions[i..][1..] == fileExtensions[i + 1..];
      i := i + 1;
    }
  }
}
