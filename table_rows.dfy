/** The deployments table body (src/_components/table/rows.tsx): cell
    truncation, the rows of the selected branch newest first, keeping the
    selected row index inside the list, mirroring the vertical scroll bar's
    width, and keeping the selected row scrolled into view. */
module TableRows {
  import opened Wrappers
  import opened ScrollBoxes
  import opened DeploymentsView

  const Ellipsis: char := '…'

  /** The catch-all selection this table compares against. */
  const AllBranches: string := "All"

  /** `truncate`: a string that fits is kept; a longer one is cut to
      `len - 1` characters (none when `len` is below 1) followed by an
      ellipsis. */
  function Truncate(str: string, len: int): (r: string)
    ensures |str| <= len ==> r == str
    ensures |str| > len ==> 1 <= |r| <= |str| + 1 && r[|r| - 1] == Ellipsis && r[..|r| - 1] == str[..|r| - 1]
    ensures len >= 1 ==> |r| <= len
    ensures len >= 1 && |str| > len ==> |r| == len
    ensures len < 1 && |str| > len ==> r == [Ellipsis]
  {
    if |str| > len then str[..Max(0, len - 1)] + [Ellipsis] else str
  }

  /** Truncating twice to the same width changes nothing more. */
  lemma TruncateIdempotent(str: string, len: int)
    requires len >= 1
    ensures Truncate(Truncate(str, len), len) == Truncate(str, len)
  {
  }

  /** The rows shown: the deployments of the selected branch (all of them
      for "All"), newest first. */
  function VisibleRows(deployments: seq<Deployment>, selectedBranch: Option<string>): seq<Deployment> {
    SortByNewest(FilterBranch(deployments, selectedBranch, AllBranches))
  }

  /** The rows are the selected branch's deployments (every deployment for
      "All"), each as often as it occurs in the list, newest first. */
  lemma VisibleRowsSpec(deployments: seq<Deployment>, selectedBranch: Option<string>)
    ensures var r := VisibleRows(deployments, selectedBranch);
            && (selectedBranch == Some(AllBranches) ==> multiset(r) == multiset(deployments))
            && (selectedBranch != Some(AllBranches) ==>
                  forall d :: multiset(r)[d] == if d.branch == selectedBranch then multiset(deployments)[d] else 0)
            && forall i, j :: 0 <= i < j < |r| ==> r[i].createdAt >= r[j].createdAt
  {
    var filtered := FilterBranch(deployments, selectedBranch, AllBranches);
    SortByNewestSpec(filtered);
    if selectedBranch != Some(AllBranches) {
      forall d
        ensures multiset(VisibleRows(deployments, selectedBranch))[d]
                == if d.branch == selectedBranch then multiset(deployments)[d] else 0
      {
        MatchingCounts(deployments, selectedBranch, d);
      }
    }
  }

  /** The selection after the list changed length: 0 for an empty list, the
      last index when the previous one is past the end, otherwise kept. */
  function ClampSelection(prev: int, len: nat): (r: int)
    ensures len == 0 ==> r == 0
    ensures len > 0 ==> r <= len - 1 && (r == prev || r == len - 1)
    ensures len > 0 && prev <= len - 1 ==> r == prev
  {
    if len == 0 then 0
    else
      var maxIndex := len - 1;
      if prev > maxIndex then maxIndex else prev
  }

  /** A selection that is not negative ends up inside a non-empty list, and
      clamping again changes nothing. */
  lemma ClampSelectionInRange(prev: int, len: nat)
    requires prev >= 0
    ensures len > 0 ==> 0 <= ClampSelection(prev, len) < len
    ensures ClampSelection(ClampSelection(prev, len), len) == ClampSelection(prev, len)
  {
  }

  /** The width the body must reserve: the vertical bar's width (0 when it
      is unset) while the bar is visible, 0 otherwise or without a scroll
      box. */
  function ScrollbarWidth(bar: Option<ScrollBar>): (r: int)
    ensures bar.None? || !bar.value.visible ==> r == 0
    ensures bar.Some? && bar.value.visible && bar.value.width.Some? ==> r == bar.value.width.value
    ensures bar.Some? && bar.value.visible && bar.value.width.None? ==> r == 0
  {
    if bar.Some? && bar.value.visible then bar.value.width.GetOr(0) else 0
  }

  /** The vertical adjustment: a row starting above the view is brought to
      its top; a row ending below it is brought to its bottom, not past the
      end; otherwise nothing moves. */
  function AdjustTop(current: int, rowTop: int, rowBottom: int, viewportHeight: int, maxScrollTop: int): (r: int)
    ensures maxScrollTop >= 0 ==> r == current || r >= 0
  {
    if rowTop < current then Max(0, rowTop)
    else if rowBottom > current + viewportHeight then
      Min(maxScrollTop, Max(0, rowBottom - viewportHeight))
    else current
  }

  /** The effect's new `scrollTop`: 0 for an empty list (`scrollTo(0)`),
      without rendered rows or with a negative index; unchanged when the
      viewport has no height; otherwise the adjustment for the selected row
      (the last one when the index is past the end). */
  function RowScrollTop(current: int, sortedLen: nat, rows: seq<Child>, selected: int,
                        viewportHeight: int, contentY: int, scrollHeight: int): (r: int)
    ensures sortedLen == 0 || |rows| == 0 || selected < 0 ==> r == 0
    ensures sortedLen > 0 && |rows| > 0 && selected >= 0 && viewportHeight == 0 ==> r == current
    ensures sortedLen > 0 && |rows| > 0 && selected >= 0 && viewportHeight != 0 ==>
              var row := rows[Min(selected, |rows| - 1)];
              r == AdjustTop(current, row.y - contentY, row.y - contentY + row.height,
                             viewportHeight, Max(0, scrollHeight - viewportHeight))
    ensures r == current || r >= 0
  {
    if sortedLen == 0 || |rows| == 0 then 0
    else
      var rowIndex := Min(selected, |rows| - 1);
      if rowIndex < 0 then 0
      else if viewportHeight == 0 then current
      else
        var row := rows[rowIndex];
        var rowTop := row.y - contentY;
        AdjustTop(current, rowTop, rowTop + row.height, viewportHeight, Max(0, scrollHeight - viewportHeight))
  }

  /** After the adjustment a row no taller than the viewport is fully in
      view, provided it starts inside the content and the content reaches
      its bottom. */
  lemma AdjustTopShowsRow(current: int, rowTop: int, height: int, viewportHeight: int, scrollHeight: int)
    requires 0 <= rowTop && 0 <= height <= viewportHeight
    requires rowTop + height <= scrollHeight
    ensures var r := AdjustTop(current, rowTop, rowTop + height, viewportHeight, Max(0, scrollHeight - viewportHeight));
            r <= rowTop && rowTop + height <= r + viewportHeight
  {
  }

  /** The effect brings the selected row (the last one when the index is
      past the end) fully into view, when that row is no taller than the
      viewport and lies inside the content. */
  lemma RowScrollTopShowsSelected(current: int, sortedLen: nat, rows: seq<Child>, selected: int,
                                  viewportHeight: int, contentY: int, scrollHeight: int)
    requires sortedLen > 0 && |rows| > 0 && selected >= 0
    requires var row := rows[Min(selected, |rows| - 1)];
             0 <= row.y - contentY && 0 <= row.height <= viewportHeight && 0 < viewportHeight
             && row.y - contentY + row.height <= scrollHeight
    ensures var row := rows[Min(selected, |rows| - 1)];
            var r := RowScrollTop(current, sortedLen, rows, selected, viewportHeight, contentY, scrollHeight);
            r <= row.y - contentY && row.y - contentY + row.height <= r + viewportHeight
  {
    var row := rows[Min(selected, |rows| - 1)];
    AdjustTopShowsRow(current, row.y - contentY, row.height, viewportHeight, scrollHeight);
  }

  /** Running the adjustment again changes nothing, for a row no taller than
      the viewport. */
  lemma AdjustTopIdempotent(current: int, rowTop: int, height: int, viewportHeight: int, maxScrollTop: int)
    requires 0 <= height <= viewportHeight && 0 <= maxScrollTop
    ensures var r := AdjustTop(current, rowTop, rowTop + height, viewportHeight, maxScrollTop);
            AdjustTop(r, rowTop, rowTop + height, viewportHeight, maxScrollTop) == r
  {
  }

  /** The state the table's effects update. */
  class RowsState {
    var selectedDeploymentIndex: int
    var verticalScrollbarWidth: int

    constructor (selectedDeploymentIndex: int)
      ensures this.selectedDeploymentIndex == selectedDeploymentIndex
      ensures verticalScrollbarWidth == 0
    {
      this.selectedDeploymentIndex := selectedDeploymentIndex;
      verticalScrollbarWidth := 0;
    }

    /** The clamp effect, run when the number of rows changes. */
    method ClampToRows(sortedLen: nat)
      modifies this
      ensures selectedDeploymentIndex == ClampSelection(old(selectedDeploymentIndex), sortedLen)
      ensures verticalScrollbarWidth == old(verticalScrollbarWidth)
    {
      var prev := selectedDeploymentIndex;
      if sortedLen == 0 {
        selectedDeploymentIndex := 0;
        return;
      }
      var maxIndex := sortedLen - 1;
      selectedDeploymentIndex := if prev > maxIndex then maxIndex else prev;
    }

    /** The scroll effect: mirror the scroll bar's width, then bring the
        selected row into view. Without a scroll box only the width (0) is
        set. */
    method SyncScroll(scrollbox: ScrollBox?, sortedLen: nat)
      modifies this, scrollbox
      ensures scrollbox == null ==> verticalScrollbarWidth == 0
      ensures scrollbox != null ==> verticalScrollbarWidth == ScrollbarWidth(scrollbox.verticalScrollBar)
      ensures selectedDeploymentIndex == old(selectedDeploymentIndex)
      ensures scrollbox != null ==>
                scrollbox.scrollTop
                == RowScrollTop(old(scrollbox.scrollTop), sortedLen, scrollbox.children, selectedDeploymentIndex,
                                scrollbox.viewportHeight, scrollbox.contentY, scrollbox.scrollHeight)
      ensures scrollbox != null ==>
                && scrollbox.scrollLeft == old(scrollbox.scrollLeft)
                && scrollbox.children == old(scrollbox.children)
                && scrollbox.viewportHeight == old(scrollbox.viewportHeight)
                && scrollbox.contentY == old(scrollbox.contentY)
                && scrollbox.scrollHeight == old(scrollbox.scrollHeight)
                && scrollbox.verticalScrollBar == old(scrollbox.verticalScrollBar)
                && scrollbox.viewportWidth == old(scrollbox.viewportWidth)
                && scrollbox.contentX == old(scrollbox.contentX)
                && scrollbox.scrollWidth == old(scrollbox.scrollWidth)
    {
      if scrollbox == null {
        verticalScrollbarWidth := 0;
        return;
      }
      var currentScrollbarWidth := ScrollbarWidth(scrollbox.verticalScrollBar);
      if verticalScrollbarWidth != currentScrollbarWidth {
        verticalScrollbarWidth := currentScrollbarWidth;
      }
      if sortedLen == 0 {
        scrollbox.scrollTop := 0;
        return;
      }
      var rows := scrollbox.children;
      if |rows| == 0 {
        scrollbox.scrollTop := 0;
        return;
      }
      var rowIndex := Min(selectedDeploymentIndex, |rows| - 1);
      if rowIndex < 0 {
        scrollbox.scrollTop := 0;
        return;
      }
      var row := rows[rowIndex];
      var viewportHeight := scrollbox.viewportHeight;
      if viewportHeight == 0 {
        return;
      }
      var rowTop := row.y - scrollbox.contentY;
      var rowBottom := rowTop + row.height;
      var currentScrollTop := scrollbox.scrollTop;
      var maxScrollTop := Max(0, scrollbox.scrollHeight - viewportHeight);
      if rowTop < currentScrollTop {
        scrollbox.scrollTop := Max(0, rowTop);
      } else if rowBottom > currentScrollTop + viewportHeight {
        var target := Min(maxScrollTop, Max(0, rowBottom - viewportHeight));
        scrollbox.scrollTop := target;
      }
    }
  }
}
