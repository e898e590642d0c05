/** Model of the row exporter `CsvPipeline` of witsi/pipeline.py.

    The output file is a sequence of lines and a line is the sequence of its
    cells. Constructing the pipeline opens the file for append and writes the
    header line only when the file is empty; every item appends one row; on
    close the file is read back, duplicate rows are dropped, the rows are sorted
    when a sort column is configured, and the result replaces the file. */
module CsvExport {
  import opened Wrappers

  /** One line of the CSV file, as its cells. */
  type Line = seq<string>

  /** A scraped item: field name to its serialised value. */
  type Item = map<string, string>

  // ---------------------------------------------------------------------------
  // The file as text
  // ---------------------------------------------------------------------------

  /** Python's `sep.join(cells)`. */
  function Join(cells: seq<string>, sep: string): string
  {
    if |cells| == 0 then ""
    else if |cells| == 1 then cells[0]
    else cells[0] + sep + Join(cells[1..], sep)
  }

  /** The text of one line: its cells joined by commas, then a newline. */
  function Render(line: Line): string
  {
    Join(line, ",") + "\n"
  }

  /** The bytes of the whole file. Every line ends in a newline, so the file
      has size 0 exactly when it has no lines. */
  function FileText(lines: seq<Line>): (text: string)
    ensures |text| >= |lines|
    ensures |text| == 0 <==> lines == []
  {
    if lines == [] then "" else Render(lines[0]) + FileText(lines[1..])
  }

  // ---------------------------------------------------------------------------
  // Construction and export
  // ---------------------------------------------------------------------------

  /** The file once `__init__` has opened `existing` for append: the header
      line is written when, and only when, the file has size 0. */
  function Reopen(existing: seq<Line>, header: seq<string>): (file: seq<Line>)
    ensures file != []
    ensures file == existing <==> |FileText(existing)| != 0
    ensures |FileText(existing)| == 0 ==> file == [header]
  {
    if existing == [] then [header] else existing
  }

  /** What construction writes into an empty file is exactly the line
      `','.join(header) + '\n'`. */
  lemma HeaderLineText(header: seq<string>)
    ensures FileText(Reopen([], header)) == Join(header, ",") + "\n"
  {
    assert FileText([header]) == Render(header) + FileText([]);
  }

  /** The value `CsvItemExporter` writes for one field: the item's value, or
      the empty string when the item lacks the field. */
  function Cell(item: Item, field: string): string
  {
    if field in item then item[field] else ""
  }

  /** The row exported for `item`: one cell per header field, in header order. */
  function RowOf(item: Item, header: seq<string>): (row: Line)
    ensures |row| == |header|
    ensures forall i :: 0 <= i < |header| ==> row[i] == Cell(item, header[i])
  {
    if header == [] then [] else [Cell(item, header[0])] + RowOf(item, header[1..])
  }

  /** The rows exported for a run of items, in arrival order. */
  function Rows(items: seq<Item>, header: seq<string>): (rows: seq<Line>)
    ensures |rows| == |items|
  {
    if items == [] then [] else [RowOf(items[0], header)] + Rows(items[1..], header)
  }

  /** The i-th row exported is the i-th item's: rows come in arrival order. */
  lemma {:induction false} RowsInArrivalOrder(items: seq<Item>, header: seq<string>, i: nat)
    requires i < |items|
    ensures Rows(items, header)[i] == RowOf(items[i], header)
  {
    if i > 0 {
      RowsInArrivalOrder(items[1..], header, i - 1);
    }
  }

  // ---------------------------------------------------------------------------
  // Finalisation: read back, drop duplicates, optionally sort, rewrite
  // ---------------------------------------------------------------------------

  predicate NoDup<T(==)>(s: seq<T>)
  {
    forall i, j :: 0 <= i < j < |s| ==> s[i] != s[j]
  }

  /** The index of the first occurrence of `x` in `s`, or `|s|` when absent. */
  function FirstIndex<T(==)>(s: seq<T>, x: T): (k: nat)
    ensures k <= |s| && x !in s[..k]
    ensures k < |s| <==> x in s
    ensures k < |s| ==> s[k] == x
  {
    if s == [] then 0
    else if s[0] == x then 0
    else
      var k := 1 + FirstIndex(s[1..], x);
      assert s[..k] == [s[0]] + s[1..][..k - 1];
      k
  }

  /** An index holding `x` with no earlier `x` is the first index of `x`. */
  lemma {:induction false} FirstIndexUnique<T>(s: seq<T>, x: T, p: nat)
    requires p < |s| && s[p] == x && x !in s[..p]
    ensures FirstIndex(s, x) == p
  {
    if p > 0 {
      assert s[..p][0] == s[0];
      assert s[..p] == [s[0]] + s[1..][..p - 1];
      FirstIndexUnique(s[1..], x, p - 1);
    }
  }

  lemma FirstIndexOfPrefix<T>(s: seq<T>, n: nat, x: T)
    requires n <= |s| && x in s[..n]
    ensures FirstIndex(s, x) == FirstIndex(s[..n], x)
  {
    var p := FirstIndex(s[..n], x);
    assert s[..n][..p] == s[..p];
    FirstIndexUnique(s, x, p);
  }

  /** `drop_duplicates()`: every row is kept once, at its first occurrence. */
  function Dedup<T(==, !new)>(s: seq<T>): (r: seq<T>)
    ensures forall x :: x in r <==> x in s
    ensures NoDup(r)
  {
    if s == [] then []
    else
      var init, last := s[..|s| - 1], s[|s| - 1];
      assert s == init + [last];
      if last in init then Dedup(init) else Dedup(init) + [last]
  }

  /** The elements of `r` come in the order in which they first occur in `s`. */
  ghost predicate InFirstOccurrenceOrder<T>(r: seq<T>, s: seq<T>)
  {
    forall i, j :: 0 <= i < j < |r| ==> FirstIndex(s, r[i]) < FirstIndex(s, r[j])
  }

  lemma {:induction false} DedupKeepsFirstOccurrenceOrder<T(!new)>(s: seq<T>)
    ensures InFirstOccurrenceOrder(Dedup(s), s)
  {
    if s != [] {
      var init, last := s[..|s| - 1], s[|s| - 1];
      assert s == init + [last];
      DedupKeepsFirstOccurrenceOrder(init);
      var r := Dedup(init);
      forall x | x in init
        ensures FirstIndex(s, x) == FirstIndex(init, x)
      {
        FirstIndexOfPrefix(s, |s| - 1, x);
      }
      if last !in init {
        var k := FirstIndex(s, last);
        assert k == |s| - 1;
        forall i | 0 <= i < |r|
          ensures FirstIndex(s, r[i]) < |s| - 1
        {
          assert r[i] in init;
        }
      }
    }
  }

  lemma {:induction false} NoDupOccursOnce<T>(s: seq<T>, x: T)
    requires NoDup(s)
    ensures multiset(s)[x] == if x in s then 1 else 0
  {
    if s != [] {
      assert s == [s[0]] + s[1..];
      assert NoDup(s[1..]) by {
        forall i, j | 0 <= i < j < |s| - 1
          ensures s[1..][i] != s[1..][j]
        {
          assert s[1..][i] == s[i + 1] && s[1..][j] == s[j + 1];
        }
      }
      NoDupOccursOnce(s[1..], x);
    }
  }

  lemma NoDupCounts<T>(s: seq<T>)
    requires NoDup(s)
    ensures forall x :: multiset(s)[x] == if x in s then 1 else 0
  {
    forall x
      ensures multiset(s)[x] == if x in s then 1 else 0
    {
      NoDupOccursOnce(s, x);
    }
  }

  /** How pandas compares the values of the sort column: a total preorder. */
  ghost predicate TotalPreorder(le: (string, string) -> bool)
  {
    && (forall a, b :: le(a, b) || le(b, a))
    && (forall a, b, c :: le(a, b) && le(b, c) ==> le(a, c))
  }

  /** The value of column `k` of a row. */
  function Key(row: Line, k: nat): string
  {
    if k < |row| then row[k] else ""
  }

  /** `a` may precede `b` when sorting by column `k` in the given direction. */
  predicate Before(a: Line, b: Line, k: nat, ascending: bool, le: (string, string) -> bool)
  {
    if ascending then le(Key(a, k), Key(b, k)) else le(Key(b, k), Key(a, k))
  }

  ghost predicate SortedBy(s: seq<Line>, k: nat, ascending: bool, le: (string, string) -> bool)
  {
    forall i, j :: 0 <= i < j < |s| ==> Before(s[i], s[j], k, ascending, le)
  }

  lemma BeforeIsTotalPreorder(k: nat, ascending: bool, le: (string, string) -> bool)
    requires TotalPreorder(le)
    ensures forall a, b :: Before(a, b, k, ascending, le) || Before(b, a, k, ascending, le)
    ensures forall a, b, c :: Before(a, b, k, ascending, le) && Before(b, c, k, ascending, le) ==>
                              Before(a, c, k, ascending, le)
  {
  }

  /** Inserts `x` into `s` before the first element it may precede. */
  function Insert(x: Line, s: seq<Line>, k: nat, ascending: bool, le: (string, string) -> bool): (r: seq<Line>)
    ensures multiset(r) == multiset(s) + multiset{x}
  {
    if s == [] then [x]
    else if Before(x, s[0], k, ascending, le) then [x] + s
    else
      assert s == [s[0]] + s[1..];
      [s[0]] + Insert(x, s[1..], k, ascending, le)
  }

  lemma {:induction false} InsertKeepsSorted(x: Line, s: seq<Line>, k: nat, ascending: bool, le: (string, string) -> bool)
    requires TotalPreorder(le) && SortedBy(s, k, ascending, le)
    ensures SortedBy(Insert(x, s, k, ascending, le), k, ascending, le)
  {
    BeforeIsTotalPreorder(k, ascending, le);
    if s != [] {
      var r := Insert(x, s, k, ascending, le);
      if Before(x, s[0], k, ascending, le) {
        forall i, j | 0 <= i < j < |r|
          ensures Before(r[i], r[j], k, ascending, le)
        {
          if i == 0 && j > 1 {
            assert Before(s[0], s[j - 1], k, ascending, le);
          }
        }
      } else {
        var rest := Insert(x, s[1..], k, ascending, le);
        InsertKeepsSorted(x, s[1..], k, ascending, le);
        assert r == [s[0]] + rest;
        forall i, j | 0 <= i < j < |r|
          ensures Before(r[i], r[j], k, ascending, le)
        {
          if i == 0 {
            assert r[j] in multiset(rest);
            if r[j] != x {
              var m :| 0 <= m < |s[1..]| && s[1..][m] == r[j];
              assert Before(s[0], s[m + 1], k, ascending, le);
            }
          }
        }
      }
    }
  }

  /** `sort_values(by=column, ascending=...)`: a permutation ordered by the
      column. Nothing is promised about the order of rows with equal keys. */
  function Sort(s: seq<Line>, k: nat, ascending: bool, le: (string, string) -> bool): (r: seq<Line>)
    requires TotalPreorder(le)
    ensures multiset(r) == multiset(s)
    ensures SortedBy(r, k, ascending, le)
  {
    if s == [] then []
    else
      assert s == [s[0]] + s[1..];
      var rest := Sort(s[1..], k, ascending, le);
      InsertKeepsSorted(s[0], rest, k, ascending, le);
      Insert(s[0], rest, k, ascending, le)
  }

  /** Why `read_csv`, or the sort after it, gives up. */
  datatype CsvError =
    | NoColumns                     // the file, or its header line, is empty
    | RowTooWide                    // some row has more fields than the header
    | MissingSortColumn(column: string)

  /** `if self.sort_by:` — a sort key that is absent or empty disables sorting. */
  predicate SortRequested(sortBy: Option<string>)
  {
    sortBy.Some? && sortBy.value != ""
  }

  /** The file can be read as a table: a non-empty header and no row wider than it. */
  predicate Readable(file: seq<Line>)
  {
    file != [] && file[0] != [] && forall i :: 1 <= i < |file| ==> |file[i]| <= |file[0]|
  }

  /** A row padded with empty cells to `width` (a missing field reads as a
      missing value and is written back empty). */
  function Pad(row: Line, width: nat): (r: Line)
    requires |row| <= width
    ensures |r| == width && r[..|row|] == row
  {
    row + seq(width - |row|, _ => "")
  }

  /** The data rows of a readable file, as the table holds them. */
  function DataRows(file: seq<Line>): seq<Line>
    requires Readable(file)
  {
    seq(|file| - 1, i requires 0 <= i < |file| - 1 => Pad(file[i + 1], |file[0]|))
  }

  /** `CsvPipeline.close_spider` after the file is closed: read the file back,
      drop duplicate rows, sort when a sort column is configured, and produce
      the new file contents (the header, then the rows, no index column). */
  function Finalise(file: seq<Line>, sortBy: Option<string>, ascending: bool, le: (string, string) -> bool)
    : (res: Result<seq<Line>, CsvError>)
    requires TotalPreorder(le)
    ensures res == Err(NoColumns) <==> file == [] || file[0] == []
    ensures res == Err(RowTooWide) <==>
      file != [] && file[0] != [] && exists i :: 1 <= i < |file| && |file[i]| > |file[0]|
    ensures res.Err? && res.error.MissingSortColumn? <==>
      Readable(file) && SortRequested(sortBy) && sortBy.value !in file[0]
    ensures res.Err? && res.error.MissingSortColumn? ==> res.error.column == sortBy.value
    ensures res.Ok? ==> Readable(file)
    ensures res.Ok? ==> res.value != [] && res.value[0] == file[0]
    ensures res.Ok? ==> forall row :: multiset(res.value[1..])[row] == if row in DataRows(file) then 1 else 0
    ensures res.Ok? && !SortRequested(sortBy) ==> InFirstOccurrenceOrder(res.value[1..], DataRows(file))
    ensures res.Ok? && SortRequested(sortBy) ==>
      SortedBy(res.value[1..], FirstIndex(file[0], sortBy.value), ascending, le)
  {
    if file == [] || file[0] == [] then Err(NoColumns)
    else if exists i :: 1 <= i < |file| && |file[i]| > |file[0]| then Err(RowTooWide)
    else
      var rows := DataRows(file);
      var unique := Dedup(rows);
      NoDupCounts(unique);
      if !SortRequested(sortBy) then
        DedupKeepsFirstOccurrenceOrder(rows);
        assert ([file[0]] + unique)[1..] == unique;
        Ok([file[0]] + unique)
      else if sortBy.value !in file[0] then Err(MissingSortColumn(sortBy.value))
      else
        var sorted := Sort(unique, FirstIndex(file[0], sortBy.value), ascending, le);
        assert ([file[0]] + sorted)[1..] == sorted;
        Ok([file[0]] + sorted)
  }

  /** The same item exported twice into a fresh file leaves one row for it. */
  lemma SameItemTwiceKeptOnce(header: seq<string>, item: Item, sortBy: Option<string>, ascending: bool,
                              le: (string, string) -> bool)
    requires TotalPreorder(le) && header != []
    requires SortRequested(sortBy) ==> sortBy.value in header
    ensures Finalise(Reopen([], header) + Rows([item, item], header), sortBy, ascending, le)
            == Ok([header, RowOf(item, header)])
  {
    var row := RowOf(item, header);
    var file := Reopen([], header) + Rows([item, item], header);
    assert file == [header, row, row] by {
      assert Rows([item, item], header) == [row, row];
    }
    FinaliseRepeatedRow(header, row, sortBy, ascending, le);
  }

  lemma FinaliseRepeatedRow(header: Line, row: Line, sortBy: Option<string>, ascending: bool,
                            le: (string, string) -> bool)
    requires TotalPreorder(le) && header != [] && |row| == |header|
    requires SortRequested(sortBy) ==> sortBy.value in header
    ensures Finalise([header, row, row], sortBy, ascending, le) == Ok([header, row])
  {
    var file := [header, row, row];
    assert Readable(file);
    assert DataRows(file) == [row, row] by {
      assert Pad(row, |header|) == row;
    }
    DedupRepeated(row);
    var unique := [row];
    assert [header] + unique == [header, row];
    if SortRequested(sortBy) {
      var k := FirstIndex(header, sortBy.value);
      assert Sort(unique, k, ascending, le) == unique by {
        assert unique[1..] == [];
      }
    }
  }

  lemma DedupRepeated<T(!new)>(x: T)
    ensures Dedup([x, x]) == [x]
  {
    assert [x][..0] == [];
    assert Dedup([x]) == [x];
    assert [x, x][..1] == [x];
  }

  // ---------------------------------------------------------------------------
  // Successive jobs on the same output file
  // ---------------------------------------------------------------------------

  /** The file after `close_spider`: `Finalise`'s contents, or the file as it
      was when finalisation fails. */
  function AfterClose(file: seq<Line>, sortBy: Option<string>, ascending: bool, le: (string, string) -> bool)
    : (out: seq<Line>)
    requires TotalPreorder(le)
    ensures file != [] ==> out != [] && out[0] == file[0]
  {
    match Finalise(file, sortBy, ascending, le)
    case Ok(contents) => contents
    case Err(_) => file
  }

  /** Jobs that append their rows (`Rows` of each job's items) to `file` and
      then close, without constructing the pipeline again. */
  function Replay(file: seq<Line>, jobs: seq<seq<Line>>, sortBy: Option<string>, ascending: bool,
                  le: (string, string) -> bool): seq<Line>
    requires TotalPreorder(le)
    decreases |jobs|
  {
    if jobs == [] then file
    else Replay(AfterClose(file + jobs[0], sortBy, ascending, le), jobs[1..], sortBy, ascending, le)
  }

  /** The file after a run of jobs, each of which constructs the pipeline on
      the current file, appends its rows and closes. */
  function Sessions(file: seq<Line>, header: seq<string>, jobs: seq<seq<Line>>, sortBy: Option<string>,
                    ascending: bool, le: (string, string) -> bool): seq<Line>
    requires TotalPreorder(le)
    decreases |jobs|
  {
    if jobs == [] then file
    else Sessions(AfterClose(Reopen(file, header) + jobs[0], sortBy, ascending, le), header, jobs[1..],
                  sortBy, ascending, le)
  }

  /** Appending and closing never replaces the first line of a non-empty file. */
  lemma {:induction false} ReplayKeepsFirstLine(file: seq<Line>, jobs: seq<seq<Line>>, sortBy: Option<string>,
                                                ascending: bool, le: (string, string) -> bool)
    requires TotalPreorder(le) && file != []
    ensures Replay(file, jobs, sortBy, ascending, le) != []
    ensures Replay(file, jobs, sortBy, ascending, le)[0] == file[0]
    decreases |jobs|
  {
    if jobs != [] {
      var next := AfterClose(file + jobs[0], sortBy, ascending, le);
      ReplayKeepsFirstLine(next, jobs[1..], sortBy, ascending, le);
    }
  }

  /** On a non-empty file no construction writes anything: the jobs only
      append their rows and close. */
  lemma {:induction false} SessionsOnNonEmptyFile(file: seq<Line>, header: seq<string>, jobs: seq<seq<Line>>,
                                                  sortBy: Option<string>, ascending: bool,
                                                  le: (string, string) -> bool)
    requires TotalPreorder(le) && file != []
    ensures Sessions(file, header, jobs, sortBy, ascending, le) == Replay(file, jobs, sortBy, ascending, le)
    decreases |jobs|
  {
    if jobs != [] {
      var next := AfterClose(file + jobs[0], sortBy, ascending, le);
      assert Reopen(file, header) == file;
      SessionsOnNonEmptyFile(next, header, jobs[1..], sortBy, ascending, le);
    }
  }

  /** However many jobs construct the pipeline on the same file, only the
      first construction may write the header line, and whatever the closes
      do to the rows, the first line of the file stays the one it had then. */
  lemma HeaderWrittenAtMostOnce(file: seq<Line>, header: seq<string>, jobs: seq<seq<Line>>,
                                sortBy: Option<string>, ascending: bool, le: (string, string) -> bool)
    requires TotalPreorder(le) && jobs != []
    ensures Sessions(file, header, jobs, sortBy, ascending, le)
            == Replay(Reopen(file, header), jobs, sortBy, ascending, le)
    ensures Sessions(file, header, jobs, sortBy, ascending, le) != []
    ensures Sessions(file, header, jobs, sortBy, ascending, le)[0]
            == if |FileText(file)| == 0 then header else file[0]
  {
    var reopened := Reopen(file, header);
    var next := AfterClose(reopened + jobs[0], sortBy, ascending, le);
    SessionsOnNonEmptyFile(next, header, jobs[1..], sortBy, ascending, le);
    ReplayKeepsFirstLine(reopened, jobs, sortBy, ascending, le);
  }

  // ---------------------------------------------------------------------------
  // Settings
  // ---------------------------------------------------------------------------

  /** The `CSV` section of the spider's settings; a missing key is `None`. */
  datatype CsvSettings = CsvSettings(header: Option<seq<string>>, sortBy: Option<string>, sortAscending: Option<bool>)

  /** The options the pipeline is constructed with. */
  datatype CsvOptions = CsvOptions(header: seq<string>, sortBy: Option<string>, sortAscending: bool)

  /** `CsvPipeline.from_crawler`: the header defaults to the item class's
      fields, sorting defaults to off and the direction to ascending. */
  function ResolveOptions(settings: CsvSettings, itemFields: seq<string>): (options: CsvOptions)
    ensures options.header == if settings.header.Some? then settings.header.value else itemFields
    ensures settings.sortBy.None? ==> !SortRequested(options.sortBy)
    ensures settings.sortBy.Some? ==> options.sortBy == settings.sortBy
    ensures options.sortAscending <==> settings.sortAscending != Some(false)
  {
    CsvOptions(settings.header.GetOr(itemFields), settings.sortBy, settings.sortAscending.GetOr(true))
  }

  // ---------------------------------------------------------------------------
  // The pipeline object
  // ---------------------------------------------------------------------------

  class CsvPipeline {
    const header: seq<string>
    const sortBy: Option<string>
    const sortAscending: bool
    /** The contents of the output file. */
    var file: seq<Line>
    /** Set once the exporter is finished and the file handle closed. */
    var closed: bool

    /** The output file is never empty once the pipeline exists. */
    ghost predicate Valid()
      reads this
    {
      file != []
    }

    /** Opens `existing` (the current contents of the output file, empty when
        it does not exist) for append and writes the header when it is empty. */
    constructor (existing: seq<Line>, header: seq<string>, sortBy: Option<string>, sortAscending: bool)
      ensures Valid() && !closed
      ensures this.header == header && this.sortBy == sortBy && this.sortAscending == sortAscending
      ensures file == Reopen(existing, header)
    {
      this.header := header;
      this.sortBy := sortBy;
      this.sortAscending := sortAscending;
      var contents := existing;
      if |FileText(contents)| == 0 {
        contents := contents + [header];
      }
      file := contents;
      closed := false;
    }

    /** Appends one row for `item` after what the file holds and hands the item on. */
    method ProcessItem(item: Item) returns (passed: Item)
      requires Valid() && !closed
      modifies this`file
      ensures Valid()
      ensures file == old(file) + [RowOf(item, header)]
      ensures passed == item
    {
      file := file + [RowOf(item, header)];
      passed := item;
    }

    /** Closes the file, then rewrites it deduplicated and, when configured,
        sorted. `le` is the order pandas uses on the sort column's values. On
        an error the file keeps what was appended. */
    method Close(le: (string, string) -> bool) returns (outcome: Result<(), CsvError>)
      requires Valid() && !closed && TotalPreorder(le)
      modifies this
      ensures Valid() && closed
      ensures match Finalise(old(file), sortBy, sortAscending, le)
        case Ok(out) => file == out && outcome == Ok(())
        case Err(e) => file == old(file) && outcome == Err(e)
      ensures file == AfterClose(old(file), sortBy, sortAscending, le)
    {
      closed := true;
      var result := Finalise(file, sortBy, sortAscending, le);
      match result
      case Ok(out) =>
        file := out;
        outcome := Ok(());
      case Err(e) =>
        outcome := Err(e);
    }
  }
}
