/**
 * The paging plan of `paint`: while the cursor `lastRow` is below
 * `rowCount - 1`, request the page starting at `lastRow + 1` with height
 * `min(CHUNK_SIZE, rowCount - lastRow)` and advance the cursor by that
 * height. The host's asynchronous re-entry into `paint` is flattened into
 * the plan below and into the loop of `OpenInCarto.Extension.FetchPages`.
 */
module Pagination {

  const CHUNK_SIZE := 3000

  /** One `getData` page: `qTop`, `qLeft`, `qWidth`, `qHeight`. */
  datatype PageRequest = PageRequest(qTop: int, qLeft: int, qWidth: int, qHeight: int)

  predicate MorePages(lastRow: int, rowCount: int)
  {
    lastRow < rowCount - 1
  }

  function PageHeight(lastRow: int, rowCount: int): int
  {
    if CHUNK_SIZE < rowCount - lastRow then CHUNK_SIZE else rowCount - lastRow
  }

  /** The requests issued, in order, from cursor `lastRow`; none once the cursor reaches `rowCount - 1`. */
  function Plan(lastRow: int, rowCount: int, width: int): (pages: seq<PageRequest>)
    ensures |pages| == 0 <==> !MorePages(lastRow, rowCount)
    decreases rowCount - lastRow
  {
    if MorePages(lastRow, rowCount) then
      var h := PageHeight(lastRow, rowCount);
      [PageRequest(lastRow + 1, 0, width, h)] + Plan(lastRow + h, rowCount, width)
    else []
  }

  /**
   * Every page is 2 to CHUNK_SIZE rows high, starts after the cursor
   * `lastRow`, ends no later than `rowCount`, and spans all columns.
   */
  predicate PagesWithin(pages: seq<PageRequest>, lastRow: int, rowCount: int, width: int)
  {
    forall i :: 0 <= i < |pages| ==>
      && 2 <= pages[i].qHeight <= CHUNK_SIZE
      && lastRow < pages[i].qTop
      && pages[i].qTop - 1 + pages[i].qHeight <= rowCount
      && pages[i].qLeft == 0 && pages[i].qWidth == width
  }

  /** The plan's pages lie within the rows after the cursor, at most CHUNK_SIZE at a time. */
  lemma {:induction false} PlanBounds(lastRow: int, rowCount: int, width: int)
    ensures PagesWithin(Plan(lastRow, rowCount, width), lastRow, rowCount, width)
    decreases rowCount - lastRow
  {
    if MorePages(lastRow, rowCount) {
      var h := PageHeight(lastRow, rowCount);
      var pages, rest := Plan(lastRow, rowCount, width), Plan(lastRow + h, rowCount, width);
      PlanBounds(lastRow + h, rowCount, width);
      assert pages == [PageRequest(lastRow + 1, 0, width, h)] + rest;
      assert forall i :: 1 <= i < |pages| ==> pages[i] == rest[i - 1];
    }
  }

  /** One iteration of the loop: the page at the cursor, then the plan from the advanced cursor. */
  lemma PlanStep(lastRow: int, rowCount: int, width: int)
    requires MorePages(lastRow, rowCount)
    ensures var h := PageHeight(lastRow, rowCount);
      Plan(lastRow, rowCount, width) == [PageRequest(lastRow + 1, 0, width, h)] + Plan(lastRow + h, rowCount, width)
  {
  }

  /** The cursor's value when the loop condition first fails (before the reset). */
  function FinalCursor(lastRow: int, rowCount: int): (cursor: int)
    ensures lastRow <= cursor
    ensures MorePages(lastRow, rowCount) ==> rowCount - 1 <= cursor <= rowCount
    decreases rowCount - lastRow
  {
    if MorePages(lastRow, rowCount) then FinalCursor(lastRow + PageHeight(lastRow, rowCount), rowCount)
    else lastRow
  }

  /** Row `row` lies in one of the requested pages. */
  predicate Requested(pages: seq<PageRequest>, row: int)
  {
    exists i :: 0 <= i < |pages| && pages[i].qTop <= row < pages[i].qTop + pages[i].qHeight
  }

  /**
   * The pages are contiguous: the first starts right after the cursor and
   * each one starts where the previous one ended, so the cursor strictly
   * increases from one request to the next.
   */
  lemma {:induction false} PlanContiguous(lastRow: int, rowCount: int, width: int)
    ensures var pages := Plan(lastRow, rowCount, width);
      && (|pages| > 0 ==> pages[0].qTop == lastRow + 1)
      && forall i :: 0 <= i < |pages| - 1 ==> pages[i + 1].qTop == pages[i].qTop + pages[i].qHeight
    decreases rowCount - lastRow
  {
    if MorePages(lastRow, rowCount) {
      PlanContiguous(lastRow + PageHeight(lastRow, rowCount), rowCount, width);
    }
  }

  /**
   * The loop stops at `rowCount`, or at `rowCount - 1` exactly when the rows
   * past the cursor leave a remainder of one modulo CHUNK_SIZE.
   */
  lemma {:induction false} FinalCursorValue(lastRow: int, rowCount: int)
    requires MorePages(lastRow, rowCount)
    ensures FinalCursor(lastRow, rowCount) ==
      if (rowCount - lastRow) % CHUNK_SIZE == 1 then rowCount - 1 else rowCount
    decreases rowCount - lastRow
  {
    var next := lastRow + PageHeight(lastRow, rowCount);
    if MorePages(next, rowCount) {
      FinalCursorValue(next, rowCount);
      assert (rowCount - next) % CHUNK_SIZE == (rowCount - lastRow) % CHUNK_SIZE;
    }
  }

  /**
   * Exactly the rows after the starting cursor up to the final cursor are
   * requested: from `lastRow == 0`, rows 1 to `rowCount - 1` or `rowCount`.
   */
  lemma {:induction false} PlanCovers(lastRow: int, rowCount: int, width: int, row: int)
    ensures Requested(Plan(lastRow, rowCount, width), row) <==> lastRow < row <= FinalCursor(lastRow, rowCount)
    decreases rowCount - lastRow
  {
    if MorePages(lastRow, rowCount) {
      var h := PageHeight(lastRow, rowCount);
      var first := PageRequest(lastRow + 1, 0, width, h);
      var rest := Plan(lastRow + h, rowCount, width);
      PlanCovers(lastRow + h, rowCount, width, row);
      RequestedCons(first, rest, row);
      assert FinalCursor(lastRow, rowCount) == FinalCursor(lastRow + h, rowCount);
    }
  }

  /** A row is requested by a page list exactly when the head or the tail requests it. */
  lemma RequestedCons(first: PageRequest, rest: seq<PageRequest>, row: int)
    ensures Requested([first] + rest, row) <==>
      first.qTop <= row < first.qTop + first.qHeight || Requested(rest, row)
  {
    var pages := [first] + rest;
    if Requested(rest, row) {
      var i :| 0 <= i < |rest| && rest[i].qTop <= row < rest[i].qTop + rest[i].qHeight;
      assert pages[i + 1] == rest[i];
    }
    if Requested(pages, row) {
      var i :| 0 <= i < |pages| && pages[i].qTop <= row < pages[i].qTop + pages[i].qHeight;
      if i > 0 {
        assert rest[i - 1] == pages[i];
      }
    }
    if first.qTop <= row < first.qTop + first.qHeight {
      assert pages[0] == first;
    }
  }
}
