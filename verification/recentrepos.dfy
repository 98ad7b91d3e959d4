/** The repository list of `fetchAndRenderRepos` after a successful fetch:
    the records are sorted by `updated_at`, most recent first, with the stable
    `Array.prototype.sort`; the first six are kept; each becomes a card with
    an escaped name, an escaped description (empty when absent) and the raw
    `html_url` as its link. Timestamps are integers (milliseconds since the
    epoch), the value `new Date(updated_at)` converts to. */
module RecentRepos {

  import opened Wrappers
  import opened Sequences
  import HtmlEscape

  /** One element of the JSON array the listing API returns. */
  datatype Repo = Repo(name: string, description: Option<string>, htmlUrl: string, updatedAt: int)

  /** One rendered `article.project-card`: the `h3` text, the `p.muted` text
      and the `href` of its link, as the markup strings interpolated. */
  datatype Card = Card(heading: string, summary: string, link: string)

  /** The `slice(0,6)` bound. */
  const MaxShown: nat := 6

  function Min(a: int, b: int): int {
    if a <= b then a else b
  }

  /** Most recently updated first. */
  predicate NonIncreasing(s: seq<Repo>) {
    forall i, j :: 0 <= i < j < |s| ==> s[i].updatedAt >= s[j].updatedAt
  }

  /** The records of `s` carrying timestamp `k`, in their order in `s`. */
  function WithTimestamp(s: seq<Repo>, k: int): seq<Repo> {
    if |s| == 0 then []
    else (if s[0].updatedAt == k then [s[0]] else []) + WithTimestamp(s[1..], k)
  }

  /** Filtering by timestamp keeps exactly the records with that timestamp. */
  lemma {:induction false} WithTimestampMembers(s: seq<Repo>, k: int)
    ensures forall y :: y in WithTimestamp(s, k) <==> y in s && y.updatedAt == k
    decreases |s|
  {
    if |s| > 0 {
      WithTimestampMembers(s[1..], k);
      assert s == [s[0]] + s[1..];
    }
  }

  /** Filtering distributes over concatenation. */
  lemma {:induction false} WithTimestampConcat(a: seq<Repo>, b: seq<Repo>, k: int)
    ensures WithTimestamp(a + b, k) == WithTimestamp(a, k) + WithTimestamp(b, k)
    decreases |a|
  {
    if |a| == 0 {
      assert a + b == b;
    } else {
      assert (a + b)[1..] == a[1..] + b;
      WithTimestampConcat(a[1..], b, k);
      var h := if a[0].updatedAt == k then [a[0]] else [];
      AppendAssoc(h, WithTimestamp(a[1..], k), WithTimestamp(b, k));
    }
  }

  /** Inserts `x` into `t` after the records updated strictly later than it
      and before all others: `x` precedes the records of `t` it ties with,
      which is how a stable sort orders an earlier element. */
  function Insert(x: Repo, t: seq<Repo>): (r: seq<Repo>)
    ensures multiset(r) == multiset{x} + multiset(t)
  {
    if |t| == 0 then [x]
    else if t[0].updatedAt > x.updatedAt then
      assert t == [t[0]] + t[1..];
      [t[0]] + Insert(x, t[1..])
    else [x] + t
  }

  /** `data.sort((a,b) => new Date(b.updated_at) - new Date(a.updated_at))`:
      a stable sort, most recent first (insertion sort from the back). */
  function SortByRecency(s: seq<Repo>): (r: seq<Repo>)
    ensures multiset(r) == multiset(s)
  {
    if |s| == 0 then []
    else
      assert s == [s[0]] + s[1..];
      Insert(s[0], SortByRecency(s[1..]))
  }

  /** No record of `s` was updated later than `b`. */
  predicate AllAtMost(s: seq<Repo>, b: int) {
    forall i :: 0 <= i < |s| ==> s[i].updatedAt <= b
  }

  /** A bound on every record survives insertion of a record within it. */
  lemma {:induction false} InsertAtMost(x: Repo, t: seq<Repo>, b: int)
    requires x.updatedAt <= b && AllAtMost(t, b)
    ensures AllAtMost(Insert(x, t), b)
    decreases |t|
  {
    if |t| > 0 && t[0].updatedAt > x.updatedAt {
      InsertAtMost(x, t[1..], b);
      var r := [t[0]] + Insert(x, t[1..]);
      forall i | 0 < i < |r| ensures r[i].updatedAt <= b {
        assert r[i] == Insert(x, t[1..])[i - 1];
      }
    }
  }

  /** Putting a record in front of a list it dominates keeps the order. */
  lemma ConsOrdered(h: Repo, s: seq<Repo>)
    requires NonIncreasing(s) && AllAtMost(s, h.updatedAt)
    ensures NonIncreasing([h] + s)
  {
    var r := [h] + s;
    forall i, j | 0 <= i < j < |r| ensures r[i].updatedAt >= r[j].updatedAt {
      assert r[j] == s[j - 1];
      if i > 0 {
        assert r[i] == s[i - 1];
      }
    }
  }

  /** The first record of a most-recent-first list dominates the rest. */
  lemma HeadDominates(s: seq<Repo>)
    requires |s| > 0 && NonIncreasing(s)
    ensures NonIncreasing(s[1..]) && AllAtMost(s[1..], s[0].updatedAt)
  {
    forall i | 0 <= i < |s[1..]| ensures s[1..][i].updatedAt <= s[0].updatedAt {
      assert s[1..][i] == s[i + 1];
    }
    forall i, j | 0 <= i < j < |s[1..]| ensures s[1..][i].updatedAt >= s[1..][j].updatedAt {
      assert s[1..][i] == s[i + 1] && s[1..][j] == s[j + 1];
    }
  }

  /** Inserting into a most-recent-first list keeps it most recent first. */
  lemma {:induction false} InsertKeepsOrder(x: Repo, t: seq<Repo>)
    requires NonIncreasing(t)
    ensures NonIncreasing(Insert(x, t))
    decreases |t|
  {
    if |t| == 0 {
      assert Insert(x, t) == [x];
    } else {
      HeadDominates(t);
      if t[0].updatedAt > x.updatedAt {
        InsertKeepsOrder(x, t[1..]);
        InsertAtMost(x, t[1..], t[0].updatedAt);
        ConsOrdered(t[0], Insert(x, t[1..]));
      } else {
        assert AllAtMost(t, x.updatedAt) by {
          forall i | 0 <= i < |t| ensures t[i].updatedAt <= x.updatedAt {
            if i > 0 {
              assert t[i] == t[1..][i - 1];
            }
          }
        }
        ConsOrdered(x, t);
      }
    }
  }

  /** The records `x` ties with keep their relative order, and `x` goes first
      among them. */
  lemma {:induction false} InsertStable(x: Repo, t: seq<Repo>, k: int)
    ensures WithTimestamp(Insert(x, t), k)
         == (if x.updatedAt == k then [x] else []) + WithTimestamp(t, k)
    decreases |t|
  {
    var hx := if x.updatedAt == k then [x] else [];
    if |t| == 0 {
      assert WithTimestamp([x], k) == hx + WithTimestamp([x][1..], k);
    } else if t[0].updatedAt > x.updatedAt {
      var h0 := if t[0].updatedAt == k then [t[0]] else [];
      var rest := WithTimestamp(t[1..], k);
      InsertStable(x, t[1..], k);
      assert ([t[0]] + Insert(x, t[1..]))[1..] == Insert(x, t[1..]);
      assert WithTimestamp(Insert(x, t), k) == h0 + (hx + rest);
      assert WithTimestamp(t, k) == h0 + rest;
      AppendEmpty(rest);
      AppendEmpty(h0 + rest);
      if hx == [] {
        assert h0 + (hx + rest) == h0 + rest;
      } else {
        assert h0 == [];
        assert h0 + (hx + rest) == hx + rest;
      }
    } else {
      assert ([x] + t)[1..] == t;
    }
  }

  /** The sort puts the most recently updated repository first. */
  lemma {:induction false} SortIsOrdered(s: seq<Repo>)
    ensures NonIncreasing(SortByRecency(s))
    decreases |s|
  {
    if |s| > 0 {
      SortIsOrdered(s[1..]);
      InsertKeepsOrder(s[0], SortByRecency(s[1..]));
    }
  }

  /** The sort is stable: repositories with the same timestamp appear in the
      order the API returned them. */
  lemma {:induction false} SortIsStable(s: seq<Repo>, k: int)
    ensures WithTimestamp(SortByRecency(s), k) == WithTimestamp(s, k)
    decreases |s|
  {
    if |s| > 0 {
      SortIsStable(s[1..], k);
      InsertStable(s[0], SortByRecency(s[1..]), k);
    }
  }

  /** `t` and `s` hold, for every timestamp, the same records with that
      timestamp in the same order. */
  ghost predicate SameTies(t: seq<Repo>, s: seq<Repo>) {
    forall k :: WithTimestamp(t, k) == WithTimestamp(s, k)
  }

  /** The first record of a non-empty list is kept by the filter for its
      own timestamp. */
  lemma FirstHasFilter(s: seq<Repo>)
    requires |s| > 0
    ensures WithTimestamp(s, s[0].updatedAt) != []
  {
  }

  /** Two most-recent-first lists with the same records per timestamp, in the
      same order, are the same list. */
  lemma {:induction false} OrderedStableUnique(t: seq<Repo>, u: seq<Repo>)
    requires NonIncreasing(t) && NonIncreasing(u)
    requires SameTies(t, u)
    ensures t == u
    decreases |t|
  {
    if |t| == 0 {
      if |u| > 0 {
        FirstHasFilter(u);
        assert false;
      }
    } else if |u| == 0 {
      FirstHasFilter(t);
      assert false;
    } else {
      var k := t[0].updatedAt;
      WithTimestampMembers(t, u[0].updatedAt);
      WithTimestampMembers(u, k);
      assert t[0] in WithTimestamp(u, k);
      assert u[0] in WithTimestamp(t, u[0].updatedAt);
      assert u[0].updatedAt == k;
      assert WithTimestamp(t, k) == [t[0]] + WithTimestamp(t[1..], k);
      assert WithTimestamp(u, k) == [u[0]] + WithTimestamp(u[1..], k);
      assert t[0] == WithTimestamp(t, k)[0];
      forall k2 ensures WithTimestamp(t[1..], k2) == WithTimestamp(u[1..], k2) {
        if k2 == k {
          assert WithTimestamp(t[1..], k) == WithTimestamp(t, k)[1..];
          assert WithTimestamp(u[1..], k) == WithTimestamp(u, k)[1..];
        } else {
          assert WithTimestamp(t[1..], k2) == WithTimestamp(t, k2);
          assert WithTimestamp(u[1..], k2) == WithTimestamp(u, k2);
        }
      }
      OrderedStableUnique(t[1..], u[1..]);
      assert t == [t[0]] + t[1..] && u == [u[0]] + u[1..];
    }
  }

  /** The sort result is characterised by two properties: a list is the
      sorted input exactly when it is most recent first and holds, for every
      timestamp, the input's records with that timestamp in input order. */
  lemma SortCharacterised(s: seq<Repo>, t: seq<Repo>)
    ensures t == SortByRecency(s) <==> NonIncreasing(t) && SameTies(t, s)
  {
    var sorted := SortByRecency(s);
    SortIsOrdered(s);
    forall k ensures WithTimestamp(sorted, k) == WithTimestamp(s, k) {
      SortIsStable(s, k);
    }
    if NonIncreasing(t) && SameTies(t, s) {
      OrderedStableUnique(t, sorted);
    }
  }

  /** `sorted.slice(0,6)`: the six most recently updated repositories. */
  function SelectRecent(repos: seq<Repo>): (top: seq<Repo>)
    ensures |top| == Min(|repos|, MaxShown)
  {
    var sorted := SortByRecency(repos);
    assert |sorted| == |multiset(sorted)| == |multiset(repos)| == |repos|;
    sorted[..Min(|sorted|, MaxShown)]
  }

  /** The selection is most recent first and takes each repository at most
      as often as the input has it. */
  lemma SelectRecentShape(repos: seq<Repo>)
    ensures NonIncreasing(SelectRecent(repos))
    ensures multiset(SelectRecent(repos)) <= multiset(repos)
  {
    var sorted := SortByRecency(repos);
    var n := Min(|sorted|, MaxShown);
    SortIsOrdered(repos);
    assert sorted == sorted[..n] + sorted[n..];
    assert multiset(sorted) == multiset(sorted[..n]) + multiset(sorted[n..]);
  }

  /** In a most-recent-first list, every record before position `n` is at
      least as recent as every record from `n` on. */
  lemma PrefixDominates(s: seq<Repo>, n: nat)
    requires NonIncreasing(s) && n <= |s|
    ensures forall i, y :: 0 <= i < n && y in s[n..] ==> s[i].updatedAt >= y.updatedAt
  {
    forall i, y | 0 <= i < n && y in s[n..] ensures s[i].updatedAt >= y.updatedAt {
      var j :| 0 <= j < |s[n..]| && s[n..][j] == y;
      assert s[n..][j] == s[n + j];
    }
  }

  /** No repository left out was updated more recently than a selected one. */
  lemma SelectRecentIsLatest(repos: seq<Repo>)
    ensures forall i, y :: 0 <= i < |SelectRecent(repos)| && y in multiset(repos) - multiset(SelectRecent(repos))
              ==> SelectRecent(repos)[i].updatedAt >= y.updatedAt
  {
    var sorted := SortByRecency(repos);
    var top := SelectRecent(repos);
    var n := |top|;
    SortIsOrdered(repos);
    PrefixDominates(sorted, n);
    assert sorted == top + sorted[n..];
    assert multiset(repos) - multiset(top) == multiset(sorted[n..]);
    assert forall i :: 0 <= i < n ==> top[i] == sorted[i];
  }

  /** Ties keep source order: for every timestamp, the selected repositories
      with that timestamp are the first ones the API returned with it. */
  lemma SelectRecentIsStable(repos: seq<Repo>, k: int)
    ensures WithTimestamp(SelectRecent(repos), k) <= WithTimestamp(repos, k)
  {
    var sorted := SortByRecency(repos);
    var top := SelectRecent(repos);
    assert sorted == top + sorted[|top|..];
    WithTimestampConcat(top, sorted[|top|..], k);
    SortIsStable(repos, k);
  }

  /** `repo.description || ''`: an absent (null) description is empty. */
  function DescriptionText(d: Option<string>): string {
    d.GetOr("")
  }

  /** The card built for one repository. Name and description go through
      `escapeHtml`; the URL is interpolated as is. */
  function MakeCard(r: Repo): (c: Card)
    ensures c.link == r.htmlUrl
    ensures r.description.None? ==> c.summary == ""
    ensures HtmlEscape.NoMarkup(c.heading) && HtmlEscape.NoMarkup(c.summary)
  {
    HtmlEscape.EscapeHtmlNoMarkup(r.name);
    HtmlEscape.EscapeHtmlNoMarkup(DescriptionText(r.description));
    Card(HtmlEscape.EscapeHtml(r.name), HtmlEscape.EscapeHtml(DescriptionText(r.description)), r.htmlUrl)
  }

  /** `top.forEach(repo => grid.appendChild(card(repo)))`. */
  function BuildCards(top: seq<Repo>): (cards: seq<Card>)
    ensures |cards| == |top|
    ensures forall i :: 0 <= i < |top| ==> cards[i] == MakeCard(top[i])
  {
    if |top| == 0 then [] else [MakeCard(top[0])] + BuildCards(top[1..])
  }

  /** A card's heading reads back as the repository name exactly when the name
      has no two adjacent metacharacters. */
  lemma CardHeadingReadsBack(r: Repo)
    ensures HtmlEscape.Unescape(MakeCard(r).heading) == r.name <==> HtmlEscape.NoAdjacentMeta(r.name)
  {
    HtmlEscape.DisplayFaithfulIffNoRuns(r.name);
  }

  /** A card's summary reads back as the repository's description exactly
      when the description has no two adjacent metacharacters. */
  lemma CardSummaryReadsBack(r: Repo, d: string)
    requires r.description == Some(d)
    ensures HtmlEscape.Unescape(MakeCard(r).summary) == d <==> HtmlEscape.NoAdjacentMeta(d)
  {
    HtmlEscape.DisplayFaithfulIffNoRuns(d);
  }

  /** How the single fetch-and-parse step ended. */
  datatype FetchOutcome = FetchFailed | Fetched(repos: seq<Repo>)

  /** The `.loading` element: its text and whether it is displayed. */
  datatype Indicator = Indicator(text: string, shown: bool)

  /** The part of `#projects-root` the function touches. */
  datatype Panel = Panel(loading: Option<Indicator>, gridShown: bool, grid: seq<Card>)

  function LoadFailedText(): string {
    "Unable to load repositories."
  }

  /** The DOM effect of `fetchAndRenderRepos` once the fetch has ended. */
  function Render(p: Panel, f: FetchOutcome): (q: Panel)
    ensures q.loading.Some? <==> p.loading.Some?
    ensures f.Fetched? ==>
              && q.gridShown
              && |q.grid| == Min(|f.repos|, MaxShown)
              && (forall i :: 0 <= i < |q.grid| ==> q.grid[i] == MakeCard(SelectRecent(f.repos)[i]))
              && (q.loading.Some? ==> !q.loading.value.shown && q.loading.value.text == p.loading.value.text)
    ensures f.FetchFailed? ==>
              && q.gridShown == p.gridShown
              && q.grid == p.grid
              && (q.loading.Some? ==> q.loading.value.text == LoadFailedText()
                                      && q.loading.value.shown == p.loading.value.shown)
  {
    match f
    case FetchFailed =>
      var loading := match p.loading
        case Some(ind) => Some(ind.(text := LoadFailedText()))
        case None => None;
      p.(loading := loading)
    case Fetched(repos) =>
      var loading := match p.loading
        case Some(ind) => Some(ind.(shown := false))
        case None => None;
      Panel(loading, true, BuildCards(SelectRecent(repos)))
  }
}
