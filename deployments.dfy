/** The deployments screen (src/_components/deployments.tsx): the branch tabs
    (every branch once, most recently deployed first), the deployments of
    the selected branch newest first, the width of the project banner, and
    keeping the selected tab scrolled into view. */
module DeploymentsView {
  import opened Wrappers
  import opened Sorting
  import opened ScrollBoxes
  import Text

  /** A deployment as the views read it: `getBranch` (absent when the
      deployment carries no branch) and `getCreatedAt`. */
  datatype Deployment = Deployment(uid: string, branch: Option<string>, createdAt: int)

  /** `if (!branch) continue`: an absent or empty branch is skipped. */
  predicate HasBranch(d: Deployment) {
    d.branch.Some? && d.branch.value != ""
  }

  /** Some deployment is on branch `b`. */
  predicate Deploys(ds: seq<Deployment>, b: string) {
    exists k :: 0 <= k < |ds| && ds[k].branch == Some(b)
  }

  // ---------------------------------------------------------------------------
  // The latest `createdAt` per branch (a Map, iterated in insertion order)

  datatype Latest = Latest(at: map<string, int>, order: seq<string>)

  /** One turn of the loop: the value is stored when the branch is new, when
      the stored value is falsy (0), or when the deployment is newer. */
  function Record(l: Latest, d: Deployment): Latest {
    if !HasBranch(d) then l
    else
      var b := d.branch.value;
      if b !in l.at || l.at[b] == 0 || d.createdAt > l.at[b] then
        Latest(l.at[b := d.createdAt], if b in l.at then l.order else l.order + [b])
      else l
  }

  function LatestOf(ds: seq<Deployment>): Latest {
    if ds == [] then Latest(map[], [])
    else Record(LatestOf(ds[..|ds| - 1]), ds[|ds| - 1])
  }

  /** The keys are listed once each, in a sequence that holds exactly them. */
  ghost predicate WellFormed(l: Latest) {
    Distinct(l.order) && (forall b :: b in l.at <==> b in l.order)
  }

  /** The map holds exactly the non-empty branches deployed. */
  lemma {:induction false} LatestOfKeys(ds: seq<Deployment>)
    ensures WellFormed(LatestOf(ds))
    ensures forall b :: b in LatestOf(ds).at <==> b != "" && Deploys(ds, b)
  {
    if ds != [] {
      var init, d := ds[..|ds| - 1], ds[|ds| - 1];
      LatestOfKeys(init);
      forall b ensures Deploys(ds, b) <==> Deploys(init, b) || d.branch == Some(b) {
        if Deploys(ds, b) && d.branch != Some(b) {
          var k :| 0 <= k < |ds| && ds[k].branch == Some(b);
          assert init[k] == ds[k];
        }
        if Deploys(init, b) {
          var k :| 0 <= k < |init| && init[k].branch == Some(b);
          assert ds[k] == init[k];
        }
      }
    }
  }

  /** With timestamps that are not negative, each branch is keyed by the
      largest `createdAt` among its deployments. */
  lemma {:induction false} LatestOfIsMax(ds: seq<Deployment>, b: string)
    requires forall k :: 0 <= k < |ds| ==> ds[k].createdAt >= 0
    requires b in LatestOf(ds).at
    ensures forall k :: 0 <= k < |ds| && ds[k].branch == Some(b) ==> ds[k].createdAt <= LatestOf(ds).at[b]
    ensures exists k :: 0 <= k < |ds| && ds[k].branch == Some(b) && ds[k].createdAt == LatestOf(ds).at[b]
  {
    var init, d := ds[..|ds| - 1], ds[|ds| - 1];
    var m := LatestOf(ds).at[b];
    LatestOfKeys(init);
    if b in LatestOf(init).at {
      LatestOfIsMax(init, b);
      var prev := LatestOf(init).at[b];
      forall k | 0 <= k < |ds| && ds[k].branch == Some(b)
        ensures ds[k].createdAt <= m
      {
        if k < |init| {
          assert ds[k] == init[k];
        }
      }
      if m == prev {
        var k :| 0 <= k < |init| && init[k].branch == Some(b) && init[k].createdAt == prev;
        assert ds[k] == init[k];
      } else {
        assert ds[|ds| - 1].createdAt == m;
      }
    } else {
      assert d.branch == Some(b) && d.createdAt == m;
      assert !Deploys(init, b);
      assert forall k :: 0 <= k < |init| ==> ds[k] == init[k];
    }
  }

  /** The loop that fills the map. */
  method CollectLatest(ds: seq<Deployment>) returns (at: map<string, int>, order: seq<string>)
    ensures Latest(at, order) == LatestOf(ds)
  {
    at := map[];
    order := [];
    for i := 0 to |ds|
      invariant Latest(at, order) == LatestOf(ds[..i])
    {
      assert ds[..i + 1][..i] == ds[..i];
      var d := ds[i];
      if !HasBranch(d) {
        continue;
      }
      var branch := d.branch.value;
      var createdAt := d.createdAt;
      var latest := if branch in at then Some(at[branch]) else None;
      if latest.None? || latest.value == 0 || createdAt > latest.value {
        if branch !in at {
          order := order + [branch];
        }
        at := at[branch := createdAt];
      }
    }
    assert ds[..|ds|] == ds;
  }

  // ---------------------------------------------------------------------------
  // Branch tabs

  /** `createdB - createdA || branchA.localeCompare(branchB)`: newer first,
      then by name. */
  predicate EntryBefore(x: (string, int), y: (string, int)) {
    x.1 > y.1 || (x.1 == y.1 && LexLe(x.0, y.0))
  }

  lemma EntryBeforeOrders()
    ensures Total(EntryBefore) && Transitive(EntryBefore)
  {
    forall x: (string, int), y: (string, int) ensures EntryBefore(x, y) || EntryBefore(y, x) {
      LexLeTotal(x.0, y.0);
    }
    forall x: (string, int), y: (string, int), z: (string, int) | EntryBefore(x, y) && EntryBefore(y, z)
      ensures EntryBefore(x, z)
    {
      if x.1 == y.1 && y.1 == z.1 {
        LexLeTransitive(x.0, y.0, z.0);
      }
    }
  }

  /** `Array.from(latestByBranch.entries())`. */
  function EntriesOf(order: seq<string>, at: map<string, int>): (r: seq<(string, int)>)
    requires forall k :: 0 <= k < |order| ==> order[k] in at
    ensures |r| == |order|
    ensures forall k :: 0 <= k < |r| ==> r[k] == (order[k], at[order[k]])
  {
    if order == [] then [] else [(order[0], at[order[0]])] + EntriesOf(order[1..], at)
  }

  function Names(entries: seq<(string, int)>): (r: seq<string>)
    ensures |r| == |entries|
    ensures forall k :: 0 <= k < |r| ==> r[k] == entries[k].0
  {
    if entries == [] then [] else [entries[0].0] + Names(entries[1..])
  }

  /** The branch entries in insertion order. */
  function BranchEntries(ds: seq<Deployment>): seq<(string, int)> {
    var l := LatestOf(ds);
    LatestOfKeys(ds);
    EntriesOf(l.order, l.at)
  }

  /** The branch entries, sorted. */
  function SortedEntries(ds: seq<Deployment>): seq<(string, int)> {
    SortBy(BranchEntries(ds), EntryBefore)
  }

  /** `branches`: the default tab, then one tab per branch. */
  function BranchTabs(ds: seq<Deployment>, defaultBranch: string): seq<string> {
    [defaultBranch] + Names(SortedEntries(ds))
  }

  method Branches(ds: seq<Deployment>, defaultBranch: string) returns (branches: seq<string>)
    ensures branches == BranchTabs(ds, defaultBranch)
  {
    var at, order := CollectLatest(ds);
    LatestOfKeys(ds);
    var sortedBranches := SortBy(EntriesOf(order, at), EntryBefore);
    branches := [defaultBranch] + Names(sortedBranches);
  }

  /** The sorted entries are the branch entries, each once, reordered. */
  lemma SortedEntriesPermute(ds: seq<Deployment>)
    ensures var s := SortedEntries(ds);
            && multiset(s) == multiset(BranchEntries(ds))
            && Distinct(s)
            && SortedBy(s, EntryBefore)
  {
    var l := LatestOf(ds);
    LatestOfKeys(ds);
    var e := EntriesOf(l.order, l.at);
    var s := SortedEntries(ds);
    EntryBeforeOrders();
    SortBySorted(e, EntryBefore);
    assert Distinct(e) by {
      forall i, j | 0 <= i < j < |e| ensures e[i] != e[j] {
        assert e[i].0 == l.order[i] && e[j].0 == l.order[j];
      }
    }
    DistinctPermutation(e, s);
  }

  /** The names of the entries are the map's insertion order. */
  lemma NamesOfEntries(order: seq<string>, at: map<string, int>)
    requires forall k :: 0 <= k < |order| ==> order[k] in at
    ensures Names(EntriesOf(order, at)) == order
  {
  }

  /** Reordering entries reorders their names: the same names occur. */
  lemma NamesOfPermutation(e: seq<(string, int)>, s: seq<(string, int)>)
    requires multiset(e) == multiset(s)
    ensures forall b :: b in Names(e) ==> b in Names(s)
  {
    forall b | b in Names(e) ensures b in Names(s) {
      var k :| 0 <= k < |e| && Names(e)[k] == b;
      assert e[k] in multiset(s);
      var m :| 0 <= m < |s| && s[m] == e[k];
      assert Names(s)[m] == b;
    }
  }

  /** Reordered map entries are still map entries. */
  lemma PermutedEntries(e: seq<(string, int)>, s: seq<(string, int)>, at: map<string, int>)
    requires multiset(e) == multiset(s)
    requires forall k :: 0 <= k < |e| ==> e[k].0 in at && e[k].1 == at[e[k].0]
    ensures forall k :: 0 <= k < |s| ==> s[k].0 in at && s[k].1 == at[s[k].0]
  {
    forall k | 0 <= k < |s|
      ensures s[k].0 in at && s[k].1 == at[s[k].0]
    {
      assert s[k] in multiset(e);
    }
  }

  /** Entries that repeat no name list every name once. */
  lemma DistinctNames(s: seq<(string, int)>, at: map<string, int>)
    requires Distinct(s)
    requires forall k :: 0 <= k < |s| ==> s[k].0 in at && s[k].1 == at[s[k].0]
    ensures Distinct(Names(s))
  {
    var names := Names(s);
    forall i, j | 0 <= i < j < |names| ensures names[i] != names[j] {
      assert s[i] != s[j];
    }
  }

  /** Every sorted entry is a branch with its latest timestamp, and no
      branch is listed twice. */
  lemma SortedEntriesFacts(ds: seq<Deployment>)
    ensures var l := LatestOf(ds);
            var s := SortedEntries(ds);
            && (forall k :: 0 <= k < |s| ==> s[k].0 in l.at && s[k].1 == l.at[s[k].0])
            && Distinct(Names(s))
            && (forall b :: b in l.at <==> b in Names(s))
            && SortedBy(s, EntryBefore)
  {
    var l := LatestOf(ds);
    LatestOfKeys(ds);
    var e := EntriesOf(l.order, l.at);
    var s := SortedEntries(ds);
    SortedEntriesPermute(ds);
    PermutedEntries(e, s, l.at);
    DistinctNames(s, l.at);
    NamesOfEntries(l.order, l.at);
    NamesOfPermutation(e, s);
    NamesOfPermutation(s, e);
  }

  /** `branches` starts with the default tab, followed by each non-empty
      branch that has a deployment, exactly once. */
  lemma BranchTabsContents(ds: seq<Deployment>, defaultBranch: string)
    ensures var tabs := BranchTabs(ds, defaultBranch);
            && |tabs| >= 1 && tabs[0] == defaultBranch
            && Distinct(tabs[1..])
            && (forall b :: b in tabs[1..] <==> b != "" && Deploys(ds, b))
  {
    var tabs := BranchTabs(ds, defaultBranch);
    SortedEntriesFacts(ds);
    LatestOfKeys(ds);
    assert tabs[1..] == Names(SortedEntries(ds));
  }

  /** After the default tab, a tab comes before another when its branch was
      deployed more recently, or at the same time with a name that sorts
      first. */
  lemma BranchTabsOrder(ds: seq<Deployment>, defaultBranch: string, i: int, j: int)
    requires 1 <= i < j < |BranchTabs(ds, defaultBranch)|
    ensures var tabs := BranchTabs(ds, defaultBranch);
            var at := LatestOf(ds).at;
            && tabs[i] in at && tabs[j] in at
            && (at[tabs[i]] > at[tabs[j]] || (at[tabs[i]] == at[tabs[j]] && LexLe(tabs[i], tabs[j])))
  {
    SortedEntriesFacts(ds);
    var s := SortedEntries(ds);
    assert EntryBefore(s[i - 1], s[j - 1]);
  }

  // ---------------------------------------------------------------------------
  // Selection, filtering and sorting of the deployments

  /** `branches[selectedBranchIndex]`: absent outside the list. */
  function SelectedBranch(branches: seq<string>, index: int): (r: Option<string>)
    ensures r.Some? <==> 0 <= index < |branches|
    ensures r.Some? ==> r.value == branches[index]
  {
    if 0 <= index < |branches| then Some(branches[index]) else None
  }

  /** `filtered`: everything when the selection is the catch-all tab
      `everything`; otherwise the deployments whose branch equals the
      selection, an absent selection matching deployments without a
      branch. */
  function FilterBranch(ds: seq<Deployment>, selected: Option<string>, everything: string): (r: seq<Deployment>)
    ensures selected == Some(everything) ==> r == ds
    ensures selected != Some(everything) ==> forall k :: 0 <= k < |r| ==> r[k].branch == selected
  {
    if selected == Some(everything) then ds else Matching(ds, selected)
  }

  function Matching(ds: seq<Deployment>, selected: Option<string>): (r: seq<Deployment>)
    ensures forall k :: 0 <= k < |r| ==> r[k].branch == selected
  {
    if ds == [] then []
    else (if ds[0].branch == selected then [ds[0]] else []) + Matching(ds[1..], selected)
  }

  /** The filter keeps each matching deployment as often as it occurs and
      drops every other one. */
  lemma {:induction false} MatchingCounts(ds: seq<Deployment>, selected: Option<string>, d: Deployment)
    ensures multiset(Matching(ds, selected))[d] == if d.branch == selected then multiset(ds)[d] else 0
  {
    if ds != [] {
      MatchingCounts(ds[1..], selected, d);
      assert ds == [ds[0]] + ds[1..];
    }
  }

  /** The filter keeps the original order: it distributes over
      concatenation. */
  lemma {:induction false} MatchingAppend(a: seq<Deployment>, b: seq<Deployment>, selected: Option<string>)
    ensures Matching(a + b, selected) == Matching(a, selected) + Matching(b, selected)
  {
    if a != [] {
      assert (a + b)[0] == a[0] && (a + b)[1..] == a[1..] + b;
      MatchingAppend(a[1..], b, selected);
      var head := if a[0].branch == selected then [a[0]] else [];
      assert Matching(a + b, selected) == head + Matching(a[1..] + b, selected);
      Text.AppendAssociative(head, Matching(a[1..], selected), Matching(b, selected));
    } else {
      assert a + b == b;
    }
  }

  /** `(a, b) => getCreatedAt(b) - getCreatedAt(a)`: `a` may come first when
      it is not older. */
  predicate NewerFirst(a: Deployment, b: Deployment) {
    a.createdAt >= b.createdAt
  }

  /** `sorted`: a sorted copy of the filtered deployments. */
  function SortByNewest(ds: seq<Deployment>): seq<Deployment> {
    SortBy(ds, NewerFirst)
  }

  /** The sort orders newest first and only rearranges. */
  lemma SortByNewestSpec(ds: seq<Deployment>)
    ensures var r := SortByNewest(ds);
            && multiset(r) == multiset(ds)
            && forall i, j :: 0 <= i < j < |r| ==> r[i].createdAt >= r[j].createdAt
  {
    assert Total(NewerFirst) && Transitive(NewerFirst);
    SortBySorted(ds, NewerFirst);
  }

  // ---------------------------------------------------------------------------
  // Banner width

  /** `Math.max(project.name.length * 4, 24)`. */
  function AsciiBoxWidth(projectName: string): (r: int)
    ensures r >= 24 && r >= 4 * |projectName|
    ensures r == 24 || r == 4 * |projectName|
  {
    if 4 * |projectName| >= 24 then 4 * |projectName| else 24
  }

  // ---------------------------------------------------------------------------
  // Keeping the selected tab in view

  /** The horizontal adjustment: a tab starting left of the view is brought
      in with one cell of margin; a tab ending right of it is brought in
      with one cell of margin, not past the end; otherwise nothing moves. */
  function AdjustLeft(current: int, tabLeft: int, tabRight: int, viewportWidth: int, maxScrollLeft: int): (r: int)
    ensures maxScrollLeft >= 0 ==> r == current || r >= 0
  {
    if tabLeft < current then Max(0, tabLeft - 1)
    else if tabRight > current + viewportWidth then
      Min(maxScrollLeft, Max(0, tabRight - viewportWidth + 1))
    else current
  }

  /** The effect's new `scrollLeft`: 0 without tabs or with a negative
      index; unchanged when the viewport has no width; otherwise the
      adjustment for the selected tab (the last one when the index is past
      the end). */
  function TabScrollLeft(current: int, tabs: seq<Child>, selectedBranchIndex: int,
                         viewportWidth: int, contentX: int, scrollWidth: int): (r: int)
    ensures |tabs| == 0 || selectedBranchIndex < 0 ==> r == 0
    ensures |tabs| > 0 && selectedBranchIndex >= 0 && viewportWidth == 0 ==> r == current
    ensures |tabs| > 0 && selectedBranchIndex >= 0 && viewportWidth != 0 ==>
              var tab := tabs[Min(selectedBranchIndex, |tabs| - 1)];
              r == AdjustLeft(current, tab.x - contentX, tab.x - contentX + tab.width,
                              viewportWidth, Max(0, scrollWidth - viewportWidth))
    ensures r == current || r >= 0
  {
    if |tabs| == 0 then 0
    else
      var tabIndex := Min(selectedBranchIndex, |tabs| - 1);
      if tabIndex < 0 then 0
      else if viewportWidth == 0 then current
      else
        var tab := tabs[tabIndex];
        var tabLeft := tab.x - contentX;
        AdjustLeft(current, tabLeft, tabLeft + tab.width, viewportWidth, Max(0, scrollWidth - viewportWidth))
  }

  /** After the adjustment a tab narrower than the viewport is fully in
      view, provided it lies inside the content. */
  lemma AdjustLeftShowsTab(current: int, tabLeft: int, width: int, viewportWidth: int, scrollWidth: int)
    requires 0 <= tabLeft && 0 <= width < viewportWidth
    requires tabLeft + width <= scrollWidth
    ensures var r := AdjustLeft(current, tabLeft, tabLeft + width, viewportWidth, Max(0, scrollWidth - viewportWidth));
            r <= tabLeft && tabLeft + width <= r + viewportWidth
  {
  }

  /** The effect brings the selected tab (the last one when the index is
      past the end) fully into view, when that tab is narrower than the
      viewport and lies inside the content. */
  lemma TabScrollLeftShowsSelected(current: int, tabs: seq<Child>, selectedBranchIndex: int,
                                   viewportWidth: int, contentX: int, scrollWidth: int)
    requires |tabs| > 0 && selectedBranchIndex >= 0
    requires var tab := tabs[Min(selectedBranchIndex, |tabs| - 1)];
             0 <= tab.x - contentX && 0 <= tab.width < viewportWidth
             && tab.x - contentX + tab.width <= scrollWidth
    ensures var tab := tabs[Min(selectedBranchIndex, |tabs| - 1)];
            var r := TabScrollLeft(current, tabs, selectedBranchIndex, viewportWidth, contentX, scrollWidth);
            r <= tab.x - contentX && tab.x - contentX + tab.width <= r + viewportWidth
  {
    var tab := tabs[Min(selectedBranchIndex, |tabs| - 1)];
    AdjustLeftShowsTab(current, tab.x - contentX, tab.width, viewportWidth, scrollWidth);
  }

  /** Running the adjustment again changes nothing, for a tab narrower than
      the viewport. */
  lemma AdjustLeftIdempotent(current: int, tabLeft: int, width: int, viewportWidth: int, maxScrollLeft: int)
    requires 0 <= width < viewportWidth && 0 <= maxScrollLeft
    ensures var r := AdjustLeft(current, tabLeft, tabLeft + width, viewportWidth, maxScrollLeft);
            AdjustLeft(r, tabLeft, tabLeft + width, viewportWidth, maxScrollLeft) == r
  {
  }

  /** The scroll-into-view effect on the tab strip, when it is mounted. */
  method ScrollTabIntoView(branchScroll: ScrollBox?, selectedBranchIndex: int)
    modifies branchScroll
    ensures branchScroll != null ==>
              branchScroll.scrollLeft
              == TabScrollLeft(old(branchScroll.scrollLeft), branchScroll.children, selectedBranchIndex,
                               branchScroll.viewportWidth, branchScroll.contentX, branchScroll.scrollWidth)
    ensures branchScroll != null ==>
              && branchScroll.scrollTop == old(branchScroll.scrollTop)
              && branchScroll.children == old(branchScroll.children)
              && branchScroll.viewportWidth == old(branchScroll.viewportWidth)
              && branchScroll.contentX == old(branchScroll.contentX)
              && branchScroll.scrollWidth == old(branchScroll.scrollWidth)
              && branchScroll.viewportHeight == old(branchScroll.viewportHeight)
              && branchScroll.contentY == old(branchScroll.contentY)
              && branchScroll.scrollHeight == old(branchScroll.scrollHeight)
              && branchScroll.verticalScrollBar == old(branchScroll.verticalScrollBar)
  {
    if branchScroll == null {
      return;
    }
    var tabs := branchScroll.children;
    if |tabs| == 0 {
      branchScroll.scrollLeft := 0;
      return;
    }
    var tabIndex := Min(selectedBranchIndex, |tabs| - 1);
    if tabIndex < 0 {
      branchScroll.scrollLeft := 0;
      return;
    }
    var tab := tabs[tabIndex];
    var viewportWidth := branchScroll.viewportWidth;
    if viewportWidth == 0 {
      return;
    }
    var tabLeft := tab.x - branchScroll.contentX;
    var tabRight := tabLeft + tab.width;
    var currentScrollLeft := branchScroll.scrollLeft;
    var maxScrollLeft := Max(0, branchScroll.scrollWidth - viewportWidth);
    if tabLeft < currentScrollLeft {
      branchScroll.scrollLeft := Max(0, tabLeft - 1);
    } else if tabRight > currentScrollLeft + viewportWidth {
      var target := Min(maxScrollLeft, Max(0, tabRight - viewportWidth + 1));
      branchScroll.scrollLeft := target;
    }
  }
}
