# Portfolio page script, modelled in Dafny

This project models the decision logic of `script.js`, the script the pages of a
personal portfolio site load. It covers five parts:

- **`escapeHtml`.** The helper that escapes the four metacharacters
  `&`, `<`, `>` and `"` before repository text is put into the page as markup.
- **The projects page.** The script sorts the fetched GitHub repositories by
  `updated_at`, newest first, keeps six, and renders one card per repository.
  It switches the loading indicator and the grid according to how the fetch
  ended.
- **Scroll highlighting.** The scroll handler finds the last section the page
  has reached and marks every navigation link whose `href` contains that
  section's id.
- **`validateForm`.** It marks the blank fields of the contact form and says
  whether the form may be sent.
- **Two load-time decisions.** The projects-page gate, which checks for a
  configured GitHub username. The page-transition handler, which decides which
  link clicks it intercepts.

The model is split into these modules:

| module | file | contents |
|---|---|---|
| `Wrappers` | `wrappers.dfy` | `Option`, for values that may be `null`/`undefined` |
| `Sequences` | `sequences.dfy` | two generic sequence lemmas |
| `JsStrings` | `jsstrings.dfy` | `startsWith`, `includes`, `trim` (with ECMAScript white space) |
| `HtmlEscape` | `htmlescape.dfy` | `escapeHtml` as written, a corrected per-character escape, and a decoder for the four entities a browser applies when it reads the markup back |
| `RecentRepos` | `recentrepos.dfy` | repositories, the stable newest-first sort, the top-six selection, cards, and the render step |
| `PageScript` | `pagescript.dfy` | nav highlighting, form validation, the projects gate, link interception |

**Modelling choices**

- **Sort comparator.** `Array.prototype.sort` is stable, and the comparator
  `new Date(b.updated_at) - new Date(a.updated_at)` orders newest first.
  Timestamps are therefore integers (`updatedAt`). The sort is a stable
  insertion sort, `RecentRepos.SortByRecency`. `RecentRepos.SortCharacterised`
  proves it is the only non-increasing arrangement that keeps the input order
  among equal timestamps. So any stable sort with this comparator gives the
  same list.
- **Escaping runs of metacharacters.** In `escapeHtml` the pattern
  `/[&<>"]+/g` matches a whole run of adjacent metacharacters. The lookup
  table has keys only for single characters. A run of two or more therefore
  looks up a missing key, and the run is replaced by the text `undefined`.
  `HtmlEscape.EscapeHtml` models exactly this.
- **Cards use the as-written escape.** The page builds its cards with the
  as-written function, so `RecentRepos.MakeCard` uses `HtmlEscape.EscapeHtml`.
  The corrected escape `HtmlEscape.EscapeHtmlFixed` is proved equal to it on
  every string without adjacent metacharacters
  (`HtmlEscape.EscapeAgreesWithoutRuns`).
- **Intended escaping.** The lookup table at script.js:242 maps each
  metacharacter to its own entity. So the evident intent is one entity per
  metacharacter. The `+` in the pattern defeats this for runs. The model
  follows the code as written (see "## Findings").
- **Repository links.** `html_url` goes into the `href` attribute without
  escaping. `RecentRepos.MakeCard` states exactly that.

## Model

| member | source | states |
|---|---|---|
| JsStrings.StartsWith | script.js:152 | `startsWith` holds exactly when the prefix is a prefix of the string |
| JsStrings.Includes | script.js:39 | `includes` finds the empty string in every string and never finds a string longer than the one searched |
| JsStrings.IncludesIffOccurs | script.js:39 | `includes` is true exactly when the searched text occurs at some position of the string |
| JsStrings.TrimStart | script.js:113 | `trim` drops a leading run of white space: what is left is a suffix that does not start with white space |
| JsStrings.TrimEnd | script.js:113 | `trim` drops a trailing run of white space: what is left is a prefix that does not end with white space |
| JsStrings.Trim | script.js:113 | the trimmed value is the input minus a blank prefix and a blank suffix, and neither starts nor ends with white space |
| JsStrings.TrimEmptyIffBlank | script.js:113 | a value trims to '' exactly when every character is ECMAScript white space or a line terminator |
| JsStrings.TrimsToEmpty | script.js:113 | the test `value.trim() === ''` is true exactly for a value made only of white space and line terminators |
| HtmlEscape.ReplaceMatch | script.js:241-242 | a match whose length is not one finds no key in the table and becomes "undefined"; no replacement contains `<`, `>` or `"` |
| HtmlEscape.ReplaceLoneMeta | script.js:242 | a single metacharacter is replaced by its entity (`&amp;`, `&lt;`, `&gt;`, `&quot;`) |
| HtmlEscape.MetaRunLengthIsGreedy | script.js:241 | a match of `[&<>"]+` takes every metacharacter up to the first non-metacharacter |
| HtmlEscape.EscapeHtml | script.js:240-244 | `escapeHtml` as written. It has no contract of its own; the lemmas below state its behaviour |
| HtmlEscape.EscapeHtmlNoMarkup | script.js:240-244 | the escaped text never contains `<`, `>` or `"`, so it cannot open a tag or close an attribute |
| HtmlEscape.EscapeHtmlPlainUnchanged | script.js:240-244 | text without metacharacters is returned unchanged |
| HtmlEscape.EscapeConcat | script.js:241 | escaping distributes over a split point that does not cut a run of metacharacters |
| HtmlEscape.PlainCharCopied | script.js:241 | a non-metacharacter is copied, in place, between the escapes of its surroundings |
| HtmlEscape.LoneMetaEscaped | script.js:241-242 | a metacharacter with no metacharacter next to it becomes its entity, in place |
| HtmlEscape.RunBecomesUndefined | script.js:241-242 | a run of two or more adjacent metacharacters becomes the text "undefined", in place |
| HtmlEscape.RunCounterexample | script.js:241-242 | "a<<b" escapes to "aundefinedb" |
| HtmlEscape.RunsCollide | script.js:241-242 | "<<", `&"` and the literal word "undefined" escape to the same text |
| HtmlEscape.AdjacentMetaGarbles | script.js:240-244 | when two metacharacters are adjacent, decoding the escaped text does not give back the input |
| HtmlEscape.DisplayFaithfulIffNoRuns | script.js:240-244 | decoding the four entities gives back the input exactly when it has no two adjacent metacharacters |
| HtmlEscape.EscapeHtmlFixed | script.js:240-244 | the corrected escape leaves no `<`, `>` or `"` and returns text without metacharacters unchanged |
| HtmlEscape.FixedRoundTrip | script.js:240-244 | decoding the corrected escape always gives back the input |
| HtmlEscape.EscapeAgreesWithoutRuns | script.js:240-244 | on text without adjacent metacharacters, the page's escape and the corrected escape agree |
| RecentRepos.Insert | script.js:219 | inserting a repository into a list keeps the same repositories: the multiset gains exactly that one |
| RecentRepos.SortByRecency | script.js:219 | the sort is a permutation of the fetched list |
| RecentRepos.SortIsOrdered | script.js:219 | the sorted list is newest first: `updatedAt` never increases along it |
| RecentRepos.SortIsStable | script.js:219 | for every timestamp, the repositories with that timestamp keep the order the API returned them in |
| RecentRepos.OrderedStableUnique | script.js:219 | two newest-first lists with the same per-timestamp order are equal |
| RecentRepos.SortCharacterised | script.js:219 | a list is the sort's result exactly when it is newest first and keeps the input order among equal timestamps |
| RecentRepos.SelectRecent | script.js:219-220 | the selection has min(N, 6) repositories |
| RecentRepos.SelectRecentShape | script.js:219-220 | the selection is newest first and takes no repository more often than the input holds it |
| RecentRepos.SelectRecentIsLatest | script.js:219-220 | every selected repository is at least as recent as every repository left out |
| RecentRepos.SelectRecentIsStable | script.js:219-220 | among repositories with equal timestamps, the selected ones are the first the API returned |
| RecentRepos.DescriptionText | script.js:227 | `description \|\| ''`: a null description becomes ''. A definition with no contract of its own |
| RecentRepos.MakeCard | script.js:225-228 | the link is `html_url` unchanged; a null description gives an empty summary; heading and summary contain no `<`, `>` or `"` |
| RecentRepos.BuildCards | script.js:222-231 | there is one card per selected repository, in the same order |
| RecentRepos.CardHeadingReadsBack | script.js:226 | a card's heading decodes back to its repository's name exactly when the name has no two adjacent metacharacters |
| RecentRepos.CardSummaryReadsBack | script.js:227 | when a description is present, the card's summary decodes to it exactly when it has no two adjacent metacharacters |
| RecentRepos.Render | script.js:221-237 | after a fetch, the grid is shown with the min(N, 6) cards of the selection and the indicator is hidden. After a failure, grid and visibility are untouched and the indicator reads "Unable to load repositories." |
| PageScript.IdKey | script.js:33-39 | the text `includes` searches for: the section's id, or "null" when `getAttribute('id')` returns null. A definition with no contract of its own |
| PageScript.CurrentSection | script.js:27-35 | `current` is '' when no section is reached. Otherwise it is the id of a reached section with no reached section after it ("null" for a missing id) |
| PageScript.ActiveLinks | script.js:37-42 | a link is marked active exactly when `current` occurs in its `href`, one flag per link |
| PageScript.NothingReachedActivatesAll | script.js:27-42 | when no section is reached, every navigation link is marked active |
| PageScript.ValidateForm | script.js:108-122 | fields keep their values; exactly the blank fields get the error mark; the form is valid exactly when no field is blank |
| PageScript.ProjectsGate | script.js:161-168 | repositories are fetched exactly when the page has the projects root and the username is defined and not the placeholder, and then for that username; nothing happens without the root |
| PageScript.StartsWithAny | script.js:152 | true exactly when one of the listed prefixes begins the `href` |
| PageScript.InterceptsClick | script.js:150-152 | a click is intercepted exactly when the `href` is present, non-empty and starts with none of "http", "mailto:", "#" |
| PageScript.HttpPrefixNeverIntercepted | script.js:152 | no `href` starting with "http" is intercepted, including a local page named like "http-notes.html" |

## Left out

- **Network, JSON and HTTP.** `fetch`, the `res.ok` check and JSON parsing are
  collapsed into one outcome, `RecentRepos.FetchOutcome`. So are the request
  URL and its `per_page=100` limit.
- **Date parsing.** `new Date(updated_at)` is not modelled. Timestamps are
  integers. Unparsable dates would make the comparator return `NaN`, which is
  outside the model.
- **Non-string JSON fields.** A missing or non-string `name` would make
  `escapeHtml` throw mid-render. This is not modelled.
- **Strings are Unicode scalar values, not UTF-16 code units.**
  `JsStrings.IsWhiteSpace` lists the ECMAScript white space and line
  terminator code points.
- **DOM mutation.** Class lists, `innerHTML` and element creation appear only
  as the values they produce: error flags, link flags, cards and the panel.
- **Timing.** `IntersectionObserver` reveals, fades, `setTimeout`,
  `requestAnimationFrame` and the `pageshow` handler carry no decision beyond
  their timing.
- **Other page handlers.** The mobile menu and the scroll-to-top button
  (threshold at script.js:92) are not modelled, nor is `animateCounter`.
- **Smooth scrolling.** The in-page smooth-scroll handler (script.js:8-21) is
  not modelled.
- **Contact form sending.** The `mailto:` composition (script.js:176-182) is
  not modelled. Only the `validateForm` gate before it is.
- **Nav links without `href`.** A navigation link without an `href` makes
  `getAttribute('href').includes` throw. The model takes every link's `href`
  as a string.
- **Scroll offsets.** `pageYOffset` and `offsetTop` are integers. Fractional
  scroll positions are not modelled.
- **Entity decoding.** `HtmlEscape.Unescape` decodes only the four entities
  `escapeHtml` produces. The rest of what the browser's HTML parser does to
  text is not modelled: the full character-reference table, turning CR and
  CRLF into LF, and dropping NUL. So "reads back" in the lemmas means "decodes
  back under these four entities". What the page finally displays can differ
  further.
- **Page markup.** The model assumes the projects page contains
  `#projects-grid`. Without it, `grid.innerHTML = ''` (script.js:221) throws
  inside the `try`, and even a successful fetch ends with the failure text.
- **Projects gate.** A defined `GITHUB_USERNAME` of non-string type is outside
  the model. The text of the setup hint is not modelled.

## Findings

| source | as written | input that shows it | evidently intended | confidence | as-written member | corrected member |
|---|---|---|---|---|---|---|
| script.js:241-242 | `/[&<>"]+/g` makes a run of adjacent metacharacters one match, and the single-character table has no such key, so the run becomes "undefined" | a repository named "a<<b" gets the heading "aundefinedb"; "<<", `&"` and "undefined" render alike | replace each metacharacter by its own entity, so the browser shows the name as given | high; not executed | HtmlEscape.RunCounterexample | HtmlEscape.FixedRoundTrip |

The general forms of the as-written behaviour are `HtmlEscape.RunBecomesUndefined`
and `HtmlEscape.AdjacentMetaGarbles`. The corrected escape is
`HtmlEscape.EscapeHtmlFixed`. The bug never lets markup through: both escapes
leave no `<`, `>` or `"`. What it breaks is what the page displays. The cards
keep the as-written escape because that is what the page renders.
`RecentRepos.CardHeadingReadsBack` states what this costs a card.
