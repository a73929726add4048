/** Cursor paging of `resources/list`, and the page and range readers of CSV tables. */
module Paging {
  import opened Prelude
  import opened Decimals
  import opened Csv

  // ---------------------------------------------------------- resource list

  const PAGE_SIZE := 250

  datatype ListPage<T> = ListPage(resources: seq<T>, nextCursor: Option<string>)

  datatype ListError = NotAnInteger | OutsideResultSet

  function ListResources<T>(all: seq<T>, cursor: Option<string>): Result<ListPage<T>, ListError> {
    match ParseUsize(if cursor.Some? then cursor.value else "0")
    case None => Err(NotAnInteger)
    case Some(start) =>
      if start > |all| then Err(OutsideResultSet)
      else
        var end := Min(start + PAGE_SIZE, |all|);
        Ok(ListPage(all[start..end], if end < |all| then Some(Decimal(end)) else None))
  }

  /** A client that follows `nextCursor` from the first page until there is none. */
  method FollowCursors<T>(all: seq<T>) returns (pages: seq<seq<T>>)
    requires 0 < |all| <= U64_MAX
    ensures Concat(pages) == all
    ensures |pages| == (|all| + PAGE_SIZE - 1) / PAGE_SIZE
    ensures forall k :: 0 <= k < |pages| - 1 ==> |pages[k]| == PAGE_SIZE
  {
    hide ParseUsize;
    pages := [];
    var cursor: Option<string> := None;
    ghost var start := 0;
    FirstCursor();
    assert all[..0] == [];
    while true
      invariant start == PAGE_SIZE * |pages| < |all|
      invariant ParseUsize(if cursor.Some? then cursor.value else "0") == Some(start)
      invariant Concat(pages) == all[..start]
      invariant forall k :: 0 <= k < |pages| ==> |pages[k]| == PAGE_SIZE
      decreases |all| - start
    {
      var page := ListResources(all, cursor);
      var resources := page.value.resources;
      NextCursorAdvances(all, cursor);
      hide ListResources;
      ConcatLast(pages, resources);
      assert all[..start + |resources|] == all[..start] + resources;
      pages := pages + [resources];
      cursor := page.value.nextCursor;
      if cursor.None? {
        assert all[..|all|] == all;
        return;
      }
      start := start + PAGE_SIZE;
    }
  }

  lemma FirstCursor()
    ensures ParseUsize("0") == Some(0)
  {
    ParseOfDecimal(0);
  }

  lemma ConcatLast<T>(parts: seq<seq<T>>, last: seq<T>)
    ensures Concat(parts + [last]) == Concat(parts) + last
  {
    ConcatAppend(parts, [last]);
    ConcatOne(last);
  }

  /** Every page answer: the cursor it hands out lies behind the one it was asked
      for, inside the list, and leads on without a gap. */
  lemma NextCursorAdvances<T>(all: seq<T>, cursor: Option<string>)
    requires |all| <= U64_MAX && ListResources(all, cursor).Ok?
    ensures var page := ListResources(all, cursor).value;
            var start := ParseUsize(if cursor.Some? then cursor.value else "0").value;
            && page.resources == all[start..start + |page.resources|]
            && (page.nextCursor.None? <==> start + |page.resources| == |all|)
            && (page.nextCursor.Some? ==>
                  |page.resources| == PAGE_SIZE
                  && ParseUsize(page.nextCursor.value) == Some(start + PAGE_SIZE)
                  && start < start + PAGE_SIZE < |all|)
  {
    var start := ParseUsize(if cursor.Some? then cursor.value else "0").value;
    ParseOfDecimal(Min(start + PAGE_SIZE, |all|));
  }

  /** The number that a cursor writes, and 0 for none: a request is answered exactly when
      there is one up to the length of the list, with the next 250 entries or all that are
      left. A cursor that writes no 64-bit number is malformed, any other lies outside. */
  lemma AnswerToCursor<T>(all: seq<T>, cursor: Option<string>) returns (start: Option<nat>)
    ensures start.Some? ==>
              start.value <= U64_MAX && if cursor.Some? then Writes(cursor.value, start.value) else start.value == 0
    ensures start.None? ==> cursor.Some? && forall n: nat :: n <= U64_MAX ==> !Writes(cursor.value, n)
    ensures match ListResources(all, cursor) {
              case Ok(page) =>
                && start.Some? && start.value <= |all|
                && page.resources == all[start.value..if start.value + 250 <= |all| then start.value + 250 else |all|]
              case Err(NotAnInteger) => start.None?
              case Err(OutsideResultSet) => start.Some? && start.value > |all|
            }
  {
    FirstCursor();
    var text := if cursor.Some? then cursor.value else "0";
    start := ParseUsize(text);
    WhatIsWritten(text);
    hide ParseUsize, Writes;
  }

  lemma WhatIsWritten(text: string)
    ensures ParseUsize(text).Some? ==> ParseUsize(text).value <= U64_MAX && Writes(text, ParseUsize(text).value)
    ensures ParseUsize(text).None? ==> forall n: nat :: n <= U64_MAX ==> !Writes(text, n)
  {
    hide ParseUsize, Writes;
    if ParseUsize(text).Some? {
      ParseExactly(text, ParseUsize(text).value);
    } else {
      forall n: nat | n <= U64_MAX
        ensures !Writes(text, n)
      {
        ParseExactly(text, n);
      }
    }
  }

  /** The list is scanned anew for every request. A cursor that one list handed out is
      good for another list exactly when that one reaches as far, is never taken for
      malformed, and joins without a gap when the lists agree up to it. */
  lemma CursorOnChangedList<T>(all: seq<T>, cursor: Option<string>, later: seq<T>)
    requires |all| <= U64_MAX && |later| <= U64_MAX
    requires ListResources(all, cursor).Ok? && ListResources(all, cursor).value.nextCursor.Some?
    ensures var page := ListResources(all, cursor).value;
            var again := ListResources(later, page.nextCursor);
            var start := ParseUsize(if cursor.Some? then cursor.value else "0").value;
            && (again.Ok? <==> |later| >= start + PAGE_SIZE)
            && (again.Err? ==> again.error == OutsideResultSet)
            && (again.Ok? && all[..start + PAGE_SIZE] <= later ==>
                  page.resources + again.value.resources <= later[start..])
  {
    NextCursorAdvances(all, cursor);
    hide ParseUsize;
    var start := ParseUsize(if cursor.Some? then cursor.value else "0").value;
    var page := ListResources(all, cursor).value;
    var again := ListResources(later, page.nextCursor);
    if again.Ok? {
      var n := |again.value.resources|;
      assert again.value.resources == later[start + PAGE_SIZE..start + PAGE_SIZE + n];
      hide ListResources;
      if all[..start + PAGE_SIZE] <= later {
        JoinedInPrefix(all, later, start, start + PAGE_SIZE, start + PAGE_SIZE + n);
      }
    }
  }

  lemma JoinedInPrefix<T>(all: seq<T>, later: seq<T>, a: nat, b: nat, c: nat)
    requires a <= b <= |all| && b <= c <= |later| && all[..b] <= later
    ensures all[a..b] + later[b..c] <= later[a..]
  {
    assert all[a..b] == all[..b][a..] == later[a..b];
    assert later[a..b] + later[b..c] == later[a..c] == later[a..][..c - a];
  }

  // ------------------------------------------------------------- CSV readers

  const MAX_LIMIT := 10000

  /** `csv_read`: the rows from `offset` on, at most `limit` and at most 10000. */
  function PageRows(rows: seq<Row>, offset: nat, limit: Option<nat>): seq<Row>
    requires |rows| <= U64_MAX
  {
    var count := Min(if limit.Some? then limit.value else U64_MAX, MAX_LIMIT);
    rows[Min(offset, |rows|)..Min(SaturatingAdd(offset, count), |rows|)]
  }

  /** `skip(start).take(count)` */
  function SkipTake<T>(s: seq<T>, start: nat, count: nat): seq<T> {
    var rest := if start < |s| then s[start..] else [];
    if count < |rest| then rest[..count] else rest
  }

  function Width(start: nat, end: Option<nat>, most: nat): Result<Option<nat>, CsvError> {
    match end
    case None => Ok(None)
    case Some(e) => if e < start || e - start > most then Err(BadRange) else Ok(Some(e - start))
  }

  function ReadRowRange(rows: seq<Row>, start: nat, end: Option<nat>): Result<seq<Row>, CsvError> {
    match Width(start, end, 100)
    case Err(e) => Err(e)
    case Ok(n) => Ok(SkipTake(rows, start, if n.Some? then n.value else 1))
  }

  function ReadColumnRange(rows: seq<Row>, column: nat, start: nat, end: Option<nat>): Result<seq<string>, CsvError> {
    match Width(start, end, 1000)
    case Err(e) => Err(e)
    case Ok(n) => Ok(Column(SkipTake(rows, start, if n.Some? then n.value else U64_MAX), column))
  }

  function SelectColumnRange(rows: seq<Row>, columns: seq<nat>, start: nat, end: Option<nat>)
    : Result<seq<Row>, CsvError>
  {
    match Width(start, end, 100)
    case Err(e) => Err(e)
    case Ok(n) => Ok(Project(SkipTake(rows, start, if n.Some? then n.value else U64_MAX), columns))
  }

  function Column(rows: seq<Row>, c: nat): seq<string> {
    if rows == [] then [] else [Cell(rows[0], c)] + Column(rows[1..], c)
  }

  function Project(rows: seq<Row>, columns: seq<nat>): seq<Row> {
    if rows == [] then [] else [ProjectRow(rows[0], columns)] + Project(rows[1..], columns)
  }

  function ProjectRow(row: Row, columns: seq<nat>): (r: Row)
    ensures |r| == |columns| && forall k :: 0 <= k < |columns| ==> r[k] == Cell(row, columns[k])
  {
    seq(|columns|, k requires 0 <= k < |columns| => Cell(row, columns[k]))
  }

  /** The pages a client gets that advances its offset by the limit. */
  function AllPages(rows: seq<Row>, offset: nat, limit: nat): seq<seq<Row>>
    requires limit >= 1 && |rows| <= U64_MAX
    decreases |rows| - offset
  {
    if offset >= |rows| then [] else [PageRows(rows, offset, Some(limit))] + AllPages(rows, offset + limit, limit)
  }

  /** A page holds the rows from its offset on, at most as many as the limit and at most
      10000; without a limit it is the page of limit 10000. */
  lemma PageMeaning(rows: seq<Row>, offset: nat, limit: Option<nat>)
    requires |rows| <= U64_MAX
    ensures var most := if limit.Some? && limit.value < 10000 then limit.value else 10000;
            var page := PageRows(rows, offset, limit);
            && |page| == (if offset >= |rows| then 0 else if |rows| - offset < most then |rows| - offset else most)
            && forall i :: 0 <= i < |page| ==> page[i] == rows[offset + i]
    ensures PageRows(rows, offset, None) == PageRows(rows, offset, Some(10000))
  {
  }

  /** Pages of a limit that the tool honours tile the table. */
  lemma {:induction false} PagesTile(rows: seq<Row>, offset: nat, limit: nat)
    requires 1 <= limit <= MAX_LIMIT && offset <= |rows| <= U64_MAX
    ensures Concat(AllPages(rows, offset, limit)) == rows[offset..]
    decreases |rows| - offset
  {
    if offset < |rows| {
      var next := Min(offset + limit, |rows|);
      PagesTile(rows, next, limit);
      PageIsSlice(rows, offset, limit);
      hide PageRows;
      assert AllPages(rows, offset + limit, limit) == AllPages(rows, next, limit);
      assert rows[offset..] == rows[offset..next] + rows[next..];
      assert AllPages(rows, offset, limit)[1..] == AllPages(rows, next, limit);
    }
  }

  /** There are as many pages as it takes: together they have room for all rows, and
      one page less has not. */
  lemma {:induction false} PagesCount(rows: seq<Row>, offset: nat, limit: nat)
    requires limit >= 1 && offset <= |rows| <= U64_MAX
    ensures var k, n := |AllPages(rows, offset, limit)|, |rows| - offset;
            n <= k * limit && (if n == 0 then k == 0 else k > 0 && (k - 1) * limit < n)
    decreases |rows| - offset
  {
    if offset < |rows| {
      hide PageRows;
      var next := Min(offset + limit, |rows|);
      PagesCount(rows, next, limit);
      var rest := |AllPages(rows, next, limit)|;
      assert AllPages(rows, offset + limit, limit) == AllPages(rows, next, limit);
      assert (1 + rest) * limit == limit + rest * limit;
      assert rest > 0 ==> rest * limit == limit + (rest - 1) * limit;
    }
  }

  lemma PageIsSlice(rows: seq<Row>, offset: nat, limit: nat)
    requires limit <= MAX_LIMIT && offset <= |rows| <= U64_MAX
    ensures PageRows(rows, offset, Some(limit)) == rows[offset..Min(offset + limit, |rows|)]
  {
  }

  lemma {:induction false} PagesWithin(rows: seq<Row>, offset: nat, limit: nat)
    requires limit >= 1 && |rows| <= U64_MAX
    ensures |Concat(AllPages(rows, offset, limit))| <= if offset < |rows| then |rows| - offset else 0
    decreases |rows| - offset
  {
    if offset < |rows| {
      PageIsShort(rows, offset, limit);
      hide PageRows;
      PagesWithin(rows, offset + limit, limit);
      assert AllPages(rows, offset, limit)[1..] == AllPages(rows, offset + limit, limit);
    }
  }

  lemma PageIsShort(rows: seq<Row>, offset: nat, limit: nat)
    requires offset <= |rows| <= U64_MAX
    ensures |PageRows(rows, offset, Some(limit))| <= Min(limit, |rows| - offset)
  {
  }

  /** Advancing by the requested limit shows the whole table exactly when the tool
      honours that limit or one page holds all rows: a larger limit is cut to 10000
      rows, and the rows between the cut and the next offset are never shown. */
  lemma PagesCover(rows: seq<Row>, limit: nat)
    requires limit >= 1 && |rows| <= U64_MAX
    ensures Concat(AllPages(rows, 0, limit)) == rows <==> limit <= MAX_LIMIT || |rows| <= MAX_LIMIT
  {
    if limit <= MAX_LIMIT {
      PagesTile(rows, 0, limit);
    } else if rows != [] {
      var first, rest := PageRows(rows, 0, Some(limit)), AllPages(rows, limit, limit);
      assert AllPages(rows, 0, limit)[1..] == rest;
      PagesWithin(rows, limit, limit);
      if |rows| <= MAX_LIMIT {
        assert rest == [] && first == rows;
      } else {
        assert |first| == MAX_LIMIT;
      }
    }
  }

  /** With a limit of 20000 the last of 10001 rows is on no page. */
  lemma LargeLimitSkipsRows(rows: seq<Row>)
    requires |rows| == 10001
    ensures AllPages(rows, 0, 20000) == [rows[..10000]]
  {
    assert AllPages(rows, 20000, 20000) == [];
    assert PageRows(rows, 0, Some(20000)) == rows[..10000];
  }

  /** The page of a range shows the rows that the range readers show: the row range is
      the page itself and the selection its projection exactly for ranges of at most 100
      rows, the column range is a column of it exactly up to 1000. */
  lemma ReadersAgree(rows: seq<Row>, start: nat, end: nat, c: nat, columns: seq<nat>)
    requires start <= U64_MAX && end <= U64_MAX && |rows| <= U64_MAX
    ensures var page := PageRows(rows, start, Some(if start <= end then end - start else 0));
            && (ReadRowRange(rows, start, Some(end)) == Ok(page) <==> start <= end <= start + 100)
            && (SelectColumnRange(rows, columns, start, Some(end)) == Ok(Project(page, columns))
                <==> start <= end <= start + 100)
            && (ReadColumnRange(rows, c, start, Some(end)) == Ok(Column(page, c)) <==> start <= end <= start + 1000)
            && start + |page| <= U64_MAX
  {
    hide Column, Project;
    if start <= end <= start + 1000 {
      assert SkipTake(rows, start, end - start) == PageRows(rows, start, Some(end - start));
    }
  }

  /** Without an end the row range is a page of one row, while the column range and the
      selection show what all pages from there on show together. */
  lemma OpenEndedReaders(rows: seq<Row>, start: nat, limit: nat, c: nat, columns: seq<nat>)
    requires start <= U64_MAX && |rows| <= U64_MAX && 1 <= limit <= MAX_LIMIT
    ensures var rest := Concat(AllPages(rows, start, limit));
            && ReadRowRange(rows, start, None) == Ok(PageRows(rows, start, Some(1)))
            && ReadColumnRange(rows, c, start, None) == Ok(Column(rest, c))
            && SelectColumnRange(rows, columns, start, None) == Ok(Project(rest, columns))
            && start + |rest| <= U64_MAX
  {
    hide Column, Project;
    assert SkipTake(rows, start, 1) == PageRows(rows, start, Some(1));
    if start <= |rows| {
      PagesTile(rows, start, limit);
      hide PageRows;
      assert SkipTake(rows, start, U64_MAX) == rows[start..];
    }
  }

  /** Column and selection, cell by cell. */
  lemma {:induction false} CellsOfRange(rows: seq<Row>, c: nat, columns: seq<nat>, i: nat)
    requires i < |rows|
    ensures |Column(rows, c)| == |rows| && Column(rows, c)[i] == Cell(rows[i], c)
    ensures |Project(rows, columns)| == |rows| && |Project(rows, columns)[i]| == |columns|
    ensures forall k :: 0 <= k < |columns| ==> Project(rows, columns)[i][k] == Cell(rows[i], columns[k])
  {
    if |rows| > 1 {
      CellsOfRange(rows[1..], c, columns, if i > 0 then i - 1 else 0);
    }
  }
}
