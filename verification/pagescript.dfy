/** The decisions script.js takes inside its event listeners, pulled out as
    pure functions and methods over strings and integers: which navigation
    link to highlight on scroll, whether the contact form is valid, whether
    the projects page fetches repositories, and which links get the fade-out
    page transition. */
module PageScript {

  import opened Wrappers
  import JsStrings

  /* ---------- Scroll highlighting of the navigation ---------- */

  /** A `section` element: its `id` attribute (absent is `None`) and its
      `offsetTop`. */
  datatype Section = Section(id: Option<string>, offsetTop: int)

  /** A section counts as reached once the page is scrolled to within this
      many pixels above its top. */
  const ReachMargin: int := 200

  predicate Reached(s: Section, pageYOffset: int) {
    pageYOffset >= s.offsetTop - ReachMargin
  }

  /** The text `includes` searches for: `getAttribute('id')` returns `null`
      for a section without an id, and `includes(null)` converts it to the
      string "null". */
  function IdKey(id: Option<string>): string {
    id.GetOr("null")
  }

  /** The `forEach` over the sections in document order: `current` ends as
      the key of the last reached section, or '' when none is reached. */
  method CurrentSection(sections: seq<Section>, pageYOffset: int) returns (current: string)
    ensures (forall j :: 0 <= j < |sections| ==> !Reached(sections[j], pageYOffset)) ==> current == ""
    ensures (exists j :: 0 <= j < |sections| && Reached(sections[j], pageYOffset)) ==>
              exists i :: && 0 <= i < |sections|
                          && Reached(sections[i], pageYOffset)
                          && current == IdKey(sections[i].id)
                          && forall j :: i < j < |sections| ==> !Reached(sections[j], pageYOffset)
  {
    current := "";
    ghost var last := -1;
    for n := 0 to |sections|
      invariant -1 <= last < n
      invariant last == -1 ==> current == "" && forall j :: 0 <= j < n ==> !Reached(sections[j], pageYOffset)
      invariant last >= 0 ==> && last < |sections|
                              && Reached(sections[last], pageYOffset)
                              && current == IdKey(sections[last].id)
                              && forall j :: last < j < n ==> !Reached(sections[j], pageYOffset)
    {
      if Reached(sections[n], pageYOffset) {
        current := IdKey(sections[n].id);
        last := n;
      }
    }
  }

  /** The `forEach` over `.nav-links a`: a link is marked active exactly when
      its `href` contains `current` somewhere. */
  function ActiveLinks(hrefs: seq<string>, current: string): (active: seq<bool>)
    ensures |active| == |hrefs|
    ensures forall i :: 0 <= i < |hrefs| ==>
              (active[i] <==> exists k :: JsStrings.OccursAt(hrefs[i], current, k))
  {
    if |hrefs| == 0 then []
    else
      JsStrings.IncludesIffOccurs(hrefs[0], current);
      [JsStrings.Includes(hrefs[0], current)] + ActiveLinks(hrefs[1..], current)
  }

  /** Above the first section nothing is reached, `current` stays '', and
      since every string includes '' every link is marked active. */
  lemma {:induction false} NothingReachedActivatesAll(hrefs: seq<string>)
    ensures forall i :: 0 <= i < |hrefs| ==> ActiveLinks(hrefs, "")[i]
  {
    forall i | 0 <= i < |hrefs| ensures ActiveLinks(hrefs, "")[i] {
      assert JsStrings.OccursAt(hrefs[i], "", 0);
    }
  }

  /* ---------- Contact form validation ---------- */

  /** An `input` or `textarea`: its value and whether it has the `error`
      class. */
  datatype Field = Field(value: string, error: bool)

  /** `validateForm`: every field whose trimmed value is empty gets the
      `error` class, every other field loses it, and the form is valid
      exactly when no field is blank. */
  method ValidateForm(fields: seq<Field>) returns (valid: bool, after: seq<Field>)
    ensures |after| == |fields|
    ensures forall i :: 0 <= i < |fields| ==>
              after[i].value == fields[i].value && (after[i].error <==> JsStrings.IsBlank(fields[i].value))
    ensures valid <==> forall i :: 0 <= i < |fields| ==> !JsStrings.IsBlank(fields[i].value)
  {
    valid := true;
    after := [];
    for n := 0 to |fields|
      invariant |after| == n
      invariant forall i :: 0 <= i < n ==>
                  after[i].value == fields[i].value && (after[i].error <==> JsStrings.IsBlank(fields[i].value))
      invariant valid <==> forall i :: 0 <= i < n ==> !JsStrings.IsBlank(fields[i].value)
    {
      var blank := JsStrings.TrimsToEmpty(fields[n].value);
      after := after + [fields[n].(error := blank)];
      if blank {
        valid := false;
      }
    }
  }

  /* ---------- Projects page gate ---------- */

  /** What the page does on load about the repository list. */
  datatype ProjectsStep = NotProjectsPage | ShowSetupHint | FetchRepos(username: string)

  /** The value `GITHUB_USERNAME` holds until the page is configured. */
  function PlaceholderUsername(): string {
    "YOUR_GITHUB_USERNAME"
  }

  /** The `DOMContentLoaded` branch on `#projects-root` and `GITHUB_USERNAME`
      (`None` when the global is undefined). */
  function ProjectsGate(hasProjectsRoot: bool, username: Option<string>): (step: ProjectsStep)
    ensures step.FetchRepos? <==> hasProjectsRoot && username.Some? && username.value != PlaceholderUsername()
    ensures step.FetchRepos? ==> step.username == username.value
    ensures step.NotProjectsPage? <==> !hasProjectsRoot
  {
    if !hasProjectsRoot then NotProjectsPage
    else match username
      case None => ShowSetupHint
      case Some(u) => if u == PlaceholderUsername() then ShowSetupHint else FetchRepos(u)
  }

  /* ---------- Page-transition link interception ---------- */

  /** Prefixes of links the click handler leaves to the browser. */
  function PassThroughPrefixes(): seq<string> {
    ["http", "mailto:", "#"]
  }

  /** Whether `h` starts with any of `prefixes`, tried in order. */
  function StartsWithAny(h: string, prefixes: seq<string>): (r: bool)
    ensures r <==> exists p :: p in prefixes && p <= h
  {
    if |prefixes| == 0 then false
    else if JsStrings.StartsWith(h, prefixes[0]) then
      assert prefixes[0] in prefixes;
      true
    else
      var r := StartsWithAny(h, prefixes[1..]);
      assert r ==> exists p :: p in prefixes && p <= h by {
        if r {
          var p :| p in prefixes[1..] && p <= h;
          assert p in prefixes;
        }
      }
      assert (exists p :: p in prefixes && p <= h) ==> r by {
        if exists p :: p in prefixes && p <= h {
          var p :| p in prefixes && p <= h;
          assert prefixes == [prefixes[0]] + prefixes[1..];
          assert p in prefixes[1..];
        }
      }
      r
  }

  /** The click handler on `a[data-link], a[href$=".html"]`: the click is
      intercepted (fade out, then navigate) unless the `href` is missing or
      empty or starts with one of the pass-through prefixes. */
  function InterceptsClick(href: Option<string>): (intercept: bool)
    ensures intercept <==> && href.Some?
                           && href.value != ""
                           && forall p :: p in PassThroughPrefixes() ==> !(p <= href.value)
  {
    match href
    case None => false
    case Some(h) => h != "" && !StartsWithAny(h, PassThroughPrefixes())
  }

  /** `startsWith('http')` is a plain prefix test, so every `href` beginning
      with "http" bypasses the transition, a local page such as
      "http-notes.html" included. */
  lemma HttpPrefixNeverIntercepted(h: string)
    requires "http" <= h
    ensures !InterceptsClick(Some(h))
  {
    assert "http" in PassThroughPrefixes();
  }
}
