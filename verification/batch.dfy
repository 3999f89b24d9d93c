/**
 * `process_ticker_folder` and `process_all_tickers_streaming` (calculate.py):
 * one record per snapshot row of a ticker's `.csv` files, in sorted file
 * order, numbered by a row id that runs on from ticker to ticker.
 * Reading the directory and the CSV files is given as input; writing the
 * Parquet files is given as output.
 */
module Batch {
  import opened Wrappers
  import opened Text
  import opened Book
  import opened Slippage

  /** A file of a ticker folder: its name and the snapshot rows `pd.read_csv` yields for it. */
  datatype CsvFile = CsvFile(name: string, rows: seq<Snapshot>)

  /** One output record: the slippage columns plus `Ticker`, `File_Name`, `Row_ID` and `Date`. */
  datatype Record = Record(slippage: map<string, Option<real>>, ticker: string, fileName: string, rowId: int, date: string)

  /** The `Date` label: the second `_`-separated piece of the file name, or "Unknown" without a `_`. */
  function DateLabel(name: string): string {
    if '_' in name then Split(name, '_')[1] else "Unknown"
  }

  /** The files whose names end in `.csv`, in listing order. */
  function CsvOnly(files: seq<CsvFile>): seq<CsvFile>
    decreases |files|
  {
    if files == [] then []
    else
      var rest := CsvOnly(files[1..]);
      if EndsWith(files[0].name, ".csv") then [files[0]] + rest else rest
  }

  /** The filter keeps exactly the `.csv` files of the listing, each as often as it is listed. */
  lemma {:induction false} CsvOnlySpec(files: seq<CsvFile>)
    ensures forall f :: f in CsvOnly(files) <==> f in files && EndsWith(f.name, ".csv")
    ensures multiset(CsvOnly(files)) <= multiset(files)
    ensures forall f :: multiset(CsvOnly(files))[f] == if EndsWith(f.name, ".csv") then multiset(files)[f] else 0
    decreases |files|
  {
    if files != [] {
      CsvOnlySpec(files[1..]);
      assert files == [files[0]] + files[1..];
      assert multiset(files) == multiset{files[0]} + multiset(files[1..]);
    }
  }

  /** Inserts `f` into a name-ordered sequence before the first name it does not follow. */
  function Insert(f: CsvFile, s: seq<CsvFile>): seq<CsvFile>
    decreases |s|
  {
    if s == [] || NameLe(f.name, s[0].name) then [f] + s else [s[0]] + Insert(f, s[1..])
  }

  /** `sorted(...)` on file names. */
  function SortByName(files: seq<CsvFile>): seq<CsvFile>
    decreases |files|
  {
    if files == [] then [] else Insert(files[0], SortByName(files[1..]))
  }

  /** The `.csv` files of a ticker folder, in name order. */
  function FolderFiles(listing: seq<CsvFile>): seq<CsvFile> {
    SortByName(CsvOnly(listing))
  }

  predicate SortedByName(s: seq<CsvFile>) {
    forall i, j :: 0 <= i < j < |s| ==> NameLe(s[i].name, s[j].name)
  }

  /** Total rows over `files`. */
  function TotalRows(files: seq<CsvFile>): nat
    decreases |files|
  {
    if files == [] then 0 else |files[0].rows| + TotalRows(files[1..])
  }

  /** A snapshot row together with the name of the file it came from. */
  datatype SourcedRow = SourcedRow(fileName: string, row: Snapshot)

  /** The rows of one file, each tagged with the file's name. */
  function Tagged(name: string, rows: seq<Snapshot>): seq<SourcedRow>
    decreases |rows|
  {
    if rows == [] then []
    else Tagged(name, rows[..|rows| - 1]) + [SourcedRow(name, rows[|rows| - 1])]
  }

  function RowsOf(f: CsvFile): seq<SourcedRow> {
    Tagged(f.name, f.rows)
  }

  /** The rows of `files`, file after file, each file's rows in order. */
  function FileRows(files: seq<CsvFile>): seq<SourcedRow>
    decreases |files|
  {
    if files == [] then [] else FileRows(files[..|files| - 1]) + RowsOf(files[|files| - 1])
  }

  /** The record for one row: its buy-side slippage columns and its provenance. */
  function MakeRecord(ticker: string, r: SourcedRow, rowId: int): Record {
    Record(SlippageTable(r.row, Buy, OrderSizes()), ticker, r.fileName, rowId, DateLabel(r.fileName))
  }

  /** One record per row, the row ids counting up from `start`. */
  function Numbered(ticker: string, rows: seq<SourcedRow>, start: int): seq<Record>
    decreases |rows|
  {
    if rows == [] then []
    else
      var n := |rows| - 1;
      Numbered(ticker, rows[..n], start) + [MakeRecord(ticker, rows[n], start + n)]
  }

  /** The records of one ticker folder, numbered from `start`. */
  function TickerRecords(ticker: string, listing: seq<CsvFile>, start: int): seq<Record> {
    Numbered(ticker, FileRows(FolderFiles(listing)), start)
  }

  // ---------------------------------------------------------------------
  // The two procedures.

  /**
   * `process_ticker_folder`: walks the sorted `.csv` files and their rows,
   * appending one record per row and counting the row id up from
   * `rowIdStart`; returns the records and the next free id.
   */
  method ProcessTickerFolder(ticker: string, listing: seq<CsvFile>, rowIdStart: int)
    returns (results: seq<Record>, rowId: int)
    ensures results == TickerRecords(ticker, listing, rowIdStart)
    ensures rowId == rowIdStart + |results|
    ensures forall k :: 0 <= k < |results| ==> results[k].rowId == rowIdStart + k
  {
    results := [];
    var allFiles := FolderFiles(listing);
    rowId := rowIdStart;
    for i := 0 to |allFiles|
      invariant results == Numbered(ticker, FileRows(allFiles[..i]), rowIdStart)
      invariant rowId == rowIdStart + |results|
    {
      var file := allFiles[i];
      ghost var done := FileRows(allFiles[..i]);
      results, rowId := AppendFileRecords(ticker, file, done, results, rowId, rowIdStart);
      NextFile(allFiles, i);
    }
    assert allFiles[..|allFiles|] == allFiles;
    NumberedAt(ticker, FileRows(allFiles), rowIdStart);
  }

  /**
   * The inner loop of the folder walk: appends one record per row of `file`
   * to the records so far, each taking the next row id.
   */
  method AppendFileRecords(ticker: string, file: CsvFile, ghost done: seq<SourcedRow>, results0: seq<Record>, rowId0: int, ghost rowIdStart: int)
    returns (results: seq<Record>, rowId: int)
    requires results0 == Numbered(ticker, done, rowIdStart)
    requires rowId0 == rowIdStart + |results0|
    ensures results == Numbered(ticker, done + RowsOf(file), rowIdStart)
    ensures rowId == rowIdStart + |results|
  {
    ghost var target := Numbered(ticker, done + RowsOf(file), rowIdStart);
    FileRecords(ticker, done, file, rowIdStart);
    results, rowId := results0, rowId0;
    for j := 0 to |file.rows|
      invariant results == target[..|done| + j]
      invariant rowId == rowIdStart + |done| + j
    {
      var slippageRow := ComputeSlippageRow(file.rows[j], "buy");
      var record := Record(slippageRow.value, ticker, file.name, rowId, DateLabel(file.name));
      assert record == target[|done| + j];
      assert target[..|done| + j + 1] == target[..|done| + j] + [target[|done| + j]];
      results := results + [record];
      rowId := rowId + 1;
    }
    assert target[..|done| + |file.rows|] == target;
  }

  /** An entry of the base directory: a ticker folder with its files, or something else. */
  datatype DirEntry = DirEntry(name: string, isDir: bool, listing: seq<CsvFile>)

  /** One written output file: `slippage_<folder>.parquet` and its records. */
  datatype TickerTable = TickerTable(path: string, records: seq<Record>)

  function ParquetPath(folder: string): string {
    "slippage_" + folder + ".parquet"
  }

  /** The tables written so far and the next free row id. */
  datatype Run = Run(tables: seq<TickerTable>, nextId: int)

  /** The fold over the directory entries: each ticker folder continues numbering where the last one stopped. */
  function Thread(entries: seq<DirEntry>, start: int): Run
    decreases |entries|
  {
    if entries == [] then Run([], start)
    else
      var run := Thread(entries[..|entries| - 1], start);
      var e := entries[|entries| - 1];
      if !e.isDir then run
      else
        var recs := TickerRecords(e.name, e.listing, run.nextId);
        Run(run.tables + [TickerTable(ParquetPath(e.name), recs)], run.nextId + |recs|)
  }

  /**
   * `process_all_tickers_streaming`: processes each folder in listing order,
   * threading the row id, and writes one table per folder.
   */
  method ProcessAllTickers(entries: seq<DirEntry>) returns (tables: seq<TickerTable>)
    ensures tables == Thread(entries, 0).tables
    ensures forall k :: 0 <= k < |AllRecords(tables)| ==> AllRecords(tables)[k].rowId == k
  {
    var rowId := 0;
    tables := [];
    assert entries[..|entries|] == entries;
    for i := 0 to |entries|
      invariant Run(tables, rowId) == Thread(entries[..i], 0)
    {
      assert entries[..i + 1][..i] == entries[..i];
      var folder := entries[i];
      if folder.isDir {
        var tickerData;
        tickerData, rowId := ProcessTickerFolder(folder.name, folder.listing, rowId);
        tables := tables + [TickerTable(ParquetPath(folder.name), tickerData)];
      }
    }
    ThreadIds(entries, 0);
  }

  // ---------------------------------------------------------------------
  // The `Date` label.

  /**
   * Without a `_` the label is "Unknown"; with one it is the text after the
   * first `_` up to the next `_` or the end of the name.
   */
  lemma DateLabelSpec(name: string)
    ensures '_' !in name ==> DateLabel(name) == "Unknown"
    ensures '_' in name ==>
      var i := IndexOf(name, '_');
      var d := DateLabel(name);
      && '_' !in d
      && i + 1 + |d| <= |name|
      && name[i + 1..i + 1 + |d|] == d
      && (i + 1 + |d| == |name| || name[i + 1 + |d|] == '_')
  {
    if '_' in name {
      var i := IndexOf(name, '_');
      SplitAtFirst(name, '_', i);
      var rest := name[i + 1..];
      FirstPiece(rest, '_');
      assert DateLabel(name) == Split(rest, '_')[0];
    }
  }

  // ---------------------------------------------------------------------
  // Sorting the file names.

  lemma {:induction false} NameLeReflexive(a: string)
    ensures NameLe(a, a)
    decreases |a|
  {
    if a != [] {
      NameLeReflexive(a[1..]);
    }
  }

  lemma {:induction false} TotalRowsAppend(a: seq<CsvFile>, b: seq<CsvFile>)
    ensures TotalRows(a + b) == TotalRows(a) + TotalRows(b)
    decreases |a|
  {
    if a != [] {
      TotalRowsAppend(a[1..], b);
      assert (a + b)[1..] == a[1..] + b;
    } else {
      assert a + b == b;
    }
  }

  /** Inserting adds exactly `f`, and adds its rows. */
  lemma {:induction false} InsertContents(f: CsvFile, s: seq<CsvFile>)
    ensures multiset(Insert(f, s)) == multiset(s) + multiset{f}
    ensures TotalRows(Insert(f, s)) == |f.rows| + TotalRows(s)
    decreases |s|
  {
    if s == [] || NameLe(f.name, s[0].name) {
      assert ([f] + s)[1..] == s;
    } else {
      InsertContents(f, s[1..]);
      var rest := Insert(f, s[1..]);
      assert s == [s[0]] + s[1..];
      assert ([s[0]] + rest)[1..] == rest;
    }
  }

  /** Everything in the insertion is `f` or was already in `s`. */
  lemma InsertMember(f: CsvFile, s: seq<CsvFile>, x: CsvFile)
    requires x in Insert(f, s)
    ensures x == f || x in s
  {
    InsertContents(f, s);
    assert x in multiset(Insert(f, s));
  }

  /** Inserting keeps a name-ordered sequence ordered. */
  lemma {:induction false} InsertSorted(f: CsvFile, s: seq<CsvFile>)
    requires SortedByName(s)
    ensures SortedByName(Insert(f, s))
    decreases |s|
  {
    if s == [] || NameLe(f.name, s[0].name) {
      var r := [f] + s;
      forall i, j | 0 <= i < j < |r|
        ensures NameLe(r[i].name, r[j].name)
      {
        if i == 0 && j > 1 {
          NameLeTransitive(f.name, s[0].name, s[j - 1].name);
        }
      }
    } else {
      NameLeTotal(f.name, s[0].name);
      InsertSorted(f, s[1..]);
      var rest := Insert(f, s[1..]);
      var r := [s[0]] + rest;
      forall j | 0 <= j < |rest|
        ensures NameLe(s[0].name, rest[j].name)
      {
        InsertMember(f, s[1..], rest[j]);
        if rest[j] != f {
          var m :| 0 <= m < |s[1..]| && s[1..][m] == rest[j];
          assert s[m + 1] == rest[j];
        }
      }
      forall i, j | 0 <= i < j < |r|
        ensures NameLe(r[i].name, r[j].name)
      {
        if i == 0 {
          assert r[j] == rest[j - 1];
        } else {
          assert r[i] == rest[i - 1] && r[j] == rest[j - 1];
        }
      }
    }
  }

  /** `sorted` returns the same files, in name order, with the same rows in all. */
  lemma {:induction false} SortByNameSpec(files: seq<CsvFile>)
    ensures SortedByName(SortByName(files))
    ensures multiset(SortByName(files)) == multiset(files)
    ensures TotalRows(SortByName(files)) == TotalRows(files)
    decreases |files|
  {
    if files != [] {
      SortByNameSpec(files[1..]);
      InsertSorted(files[0], SortByName(files[1..]));
      InsertContents(files[0], SortByName(files[1..]));
      assert files == [files[0]] + files[1..];
    }
  }

  // ---------------------------------------------------------------------
  // The records of one ticker folder.

  /** There are as many rows as the files hold. */
  lemma {:induction false} FileRowsLength(files: seq<CsvFile>)
    ensures |FileRows(files)| == TotalRows(files)
    decreases |files|
  {
    if files != [] {
      var init, last := files[..|files| - 1], files[|files| - 1];
      FileRowsLength(init);
      assert files == init + [last];
      TotalRowsAppend(init, [last]);
      assert TotalRows([last]) == |last.rows| + TotalRows([]);
      TaggedAt(last.name, last.rows);
    }
  }

  /** Every row comes from one of the files. */
  lemma {:induction false} FileRowsFrom(files: seq<CsvFile>)
    ensures forall k :: 0 <= k < |FileRows(files)| ==>
      exists i :: 0 <= i < |files| && FileRows(files)[k].fileName == files[i].name
    decreases |files|
  {
    if files != [] {
      var n := |files| - 1;
      var init := files[..n];
      FileRowsFrom(init);
      var rows, before := FileRows(files), FileRows(init);
      assert rows == before + RowsOf(files[n]);
      forall k | 0 <= k < |rows|
        ensures exists i :: 0 <= i < |files| && rows[k].fileName == files[i].name
      {
        if k < |before| {
          var i :| 0 <= i < |init| && before[k].fileName == init[i].name;
          assert rows[k] == before[k] && files[i] == init[i];
        } else {
          TaggedAt(files[n].name, files[n].rows);
          assert rows[k] == RowsOf(files[n])[k - |before|];
          assert rows[k].fileName == files[n].name;
        }
      }
    } else {
      assert FileRows(files) == [];
    }
  }

  /** Files in name order give rows in name order. */
  lemma {:induction false} FileRowsOrdered(files: seq<CsvFile>)
    requires SortedByName(files)
    ensures forall k, l :: 0 <= k < l < |FileRows(files)| ==> NameLe(FileRows(files)[k].fileName, FileRows(files)[l].fileName)
    decreases |files|
  {
    if files != [] {
      var n := |files| - 1;
      var init, last := files[..n], files[n];
      assert SortedByName(init);
      FileRowsOrdered(init);
      FileRowsFrom(init);
      var rows, before := FileRows(files), FileRows(init);
      assert rows == before + RowsOf(last);
      forall k, l | 0 <= k < l < |rows|
        ensures NameLe(rows[k].fileName, rows[l].fileName)
      {
        if l >= |before| {
          TaggedAt(last.name, last.rows);
          assert rows[l] == RowsOf(last)[l - |before|];
          assert rows[l].fileName == last.name;
          if k < |before| {
            var i :| 0 <= i < |init| && before[k].fileName == init[i].name;
            assert files[i] == init[i];
          } else {
            assert rows[k] == RowsOf(last)[k - |before|];
            NameLeReflexive(last.name);
          }
        }
      }
    }
  }

  /** Tagging keeps each row in its place. */
  lemma {:induction false} TaggedAt(name: string, rows: seq<Snapshot>)
    ensures |Tagged(name, rows)| == |rows|
    ensures forall k :: 0 <= k < |rows| ==> Tagged(name, rows)[k] == SourcedRow(name, rows[k])
    decreases |rows|
  {
    if rows != [] {
      TaggedAt(name, rows[..|rows| - 1]);
    }
  }

  /** Reading all rows of the next file gives the rows of one more file. */
  lemma NextFile(files: seq<CsvFile>, i: nat)
    requires i < |files|
    ensures FileRows(files[..i]) + RowsOf(files[i]) == FileRows(files[..i + 1])
  {
    assert files[..i + 1][..i] == files[..i];
  }

  /**
   * Numbering the rows of one more file keeps the records so far and adds
   * the record of row `j` of the file at position `|done| + j`, with row id
   * `start + |done| + j`.
   */
  lemma FileRecords(ticker: string, done: seq<SourcedRow>, file: CsvFile, start: int)
    ensures var target := Numbered(ticker, done + RowsOf(file), start);
      && |target| == |done| + |file.rows|
      && target[..|done|] == Numbered(ticker, done, start)
      && forall j :: 0 <= j < |file.rows| ==>
           target[|done| + j] == MakeRecord(ticker, SourcedRow(file.name, file.rows[j]), start + |done| + j)
  {
    var rows := done + RowsOf(file);
    var target := Numbered(ticker, rows, start);
    NumberedAt(ticker, rows, start);
    NumberedAt(ticker, done, start);
    TaggedAt(file.name, file.rows);
    forall j | 0 <= j < |file.rows|
      ensures target[|done| + j] == MakeRecord(ticker, SourcedRow(file.name, file.rows[j]), start + |done| + j)
    {
      assert rows[|done| + j] == RowsOf(file)[j];
    }
    assert target[..|done|] == Numbered(ticker, done, start);
  }

  lemma {:induction false} NumberedLength(ticker: string, rows: seq<SourcedRow>, start: int)
    ensures |Numbered(ticker, rows, start)| == |rows|
    decreases |rows|
  {
    if rows != [] {
      NumberedLength(ticker, rows[..|rows| - 1], start);
    }
  }

  /** The record at position `k` is the record of row `k`, with row id `start + k`. */
  lemma {:induction false} NumberedAt(ticker: string, rows: seq<SourcedRow>, start: int)
    ensures |Numbered(ticker, rows, start)| == |rows|
    ensures forall k :: 0 <= k < |rows| ==> Numbered(ticker, rows, start)[k] == MakeRecord(ticker, rows[k], start + k)
    decreases |rows|
  {
    NumberedLength(ticker, rows, start);
    if rows != [] {
      var n := |rows| - 1;
      NumberedAt(ticker, rows[..n], start);
    }
  }

  /**
   * The records of a ticker folder: one per row of its `.csv` files, numbered
   * consecutively from `start`, each tagged with the ticker, a `.csv` file
   * name and that name's date label.
   */
  lemma TickerRecordsSpec(ticker: string, listing: seq<CsvFile>, start: int)
    ensures var recs := TickerRecords(ticker, listing, start);
      && |recs| == TotalRows(CsvOnly(listing))
      && forall k :: 0 <= k < |recs| ==>
           && recs[k].rowId == start + k
           && recs[k].ticker == ticker
           && EndsWith(recs[k].fileName, ".csv")
           && recs[k].date == DateLabel(recs[k].fileName)
  {
    var csv := CsvOnly(listing);
    var files := SortByName(csv);
    SortByNameSpec(csv);
    FileRowsLength(files);
    var rows := FileRows(files);
    var recs := TickerRecords(ticker, listing, start);
    NumberedAt(ticker, rows, start);
    forall k | 0 <= k < |recs|
      ensures EndsWith(recs[k].fileName, ".csv")
    {
      RecordFileIsCsv(ticker, listing, start, k);
    }
  }

  /** Each record comes from a file whose name ends in `.csv`. */
  lemma RecordFileIsCsv(ticker: string, listing: seq<CsvFile>, start: int, k: nat)
    requires k < |TickerRecords(ticker, listing, start)|
    ensures EndsWith(TickerRecords(ticker, listing, start)[k].fileName, ".csv")
  {
    var files := FolderFiles(listing);
    FileRowsFrom(files);
    var rows := FileRows(files);
    NumberedAt(ticker, rows, start);
    FolderFilesAreCsv(listing);
    var i :| 0 <= i < |files| && rows[k].fileName == files[i].name;
    assert EndsWith(files[i].name, ".csv");
  }

  /** After filtering and sorting, every file name still ends in `.csv`. */
  lemma FolderFilesAreCsv(listing: seq<CsvFile>)
    ensures forall i :: 0 <= i < |FolderFiles(listing)| ==> EndsWith(FolderFiles(listing)[i].name, ".csv")
  {
    var csv := CsvOnly(listing);
    var files := SortByName(csv);
    SortByNameSpec(csv);
    CsvOnlySpec(listing);
    forall i | 0 <= i < |files|
      ensures EndsWith(files[i].name, ".csv")
    {
      assert files[i] in multiset(csv);
    }
  }

  /** The records come file by file in name order, as `sorted` put the files. */
  lemma TickerRecordsOrdered(ticker: string, listing: seq<CsvFile>, start: int)
    ensures var recs := TickerRecords(ticker, listing, start);
      forall k, l :: 0 <= k < l < |recs| ==> NameLe(recs[k].fileName, recs[l].fileName)
  {
    var files := FolderFiles(listing);
    SortByNameSpec(CsvOnly(listing));
    FileRowsOrdered(files);
    var rows := FileRows(files);
    var recs := TickerRecords(ticker, listing, start);
    NumberedAt(ticker, rows, start);
    forall k, l | 0 <= k < l < |recs|
      ensures NameLe(recs[k].fileName, recs[l].fileName)
    {
      assert recs[k].fileName == rows[k].fileName && recs[l].fileName == rows[l].fileName;
    }
  }

  // ---------------------------------------------------------------------
  // Numbering across ticker folders.

  /** All records of the written tables, table after table. */
  function AllRecords(tables: seq<TickerTable>): seq<Record>
    decreases |tables|
  {
    if tables == [] then [] else AllRecords(tables[..|tables| - 1]) + tables[|tables| - 1].records
  }

  /** The ticker folders among the entries, in listing order. */
  function Folders(entries: seq<DirEntry>): seq<DirEntry>
    decreases |entries|
  {
    if entries == [] then []
    else
      var last := entries[|entries| - 1];
      Folders(entries[..|entries| - 1]) + (if last.isDir then [last] else [])
  }

  /**
   * Threading the counter through the folders numbers every record of every
   * table consecutively from `start`, and hands on the next free id.
   */
  lemma {:induction false} ThreadIds(entries: seq<DirEntry>, start: int)
    ensures var run := Thread(entries, start);
      && run.nextId == start + |AllRecords(run.tables)|
      && forall k :: 0 <= k < |AllRecords(run.tables)| ==> AllRecords(run.tables)[k].rowId == start + k
    decreases |entries|
  {
    if entries != [] {
      var init := entries[..|entries| - 1];
      ThreadIds(init, start);
      var run := Thread(init, start);
      var e := entries[|entries| - 1];
      if e.isDir {
        var recs := TickerRecords(e.name, e.listing, run.nextId);
        NumberedAt(e.name, FileRows(FolderFiles(e.listing)), run.nextId);
        var tables := run.tables + [TickerTable(ParquetPath(e.name), recs)];
        assert tables[..|tables| - 1] == run.tables;
        var before := AllRecords(run.tables);
        assert AllRecords(tables) == before + recs;
        forall k | 0 <= k < |before| + |recs|
          ensures (before + recs)[k].rowId == start + k
        {
          if k >= |before| {
            assert (before + recs)[k] == recs[k - |before|];
          }
        }
      }
    }
  }

  /** No two records written in one run share a row id, in one table or across tables. */
  lemma RowIdsUnique(entries: seq<DirEntry>)
    ensures var recs := AllRecords(Thread(entries, 0).tables);
      forall k, l :: 0 <= k < l < |recs| ==> recs[k].rowId != recs[l].rowId
  {
    ThreadIds(entries, 0);
  }

  /**
   * One table per ticker folder, in listing order, written to
   * `slippage_<folder>.parquet` and holding only that folder's records.
   */
  lemma {:induction false} ThreadTables(entries: seq<DirEntry>, start: int)
    ensures var tables := Thread(entries, start).tables;
      && |tables| == |Folders(entries)|
      && forall t :: 0 <= t < |tables| ==>
           && tables[t].path == ParquetPath(Folders(entries)[t].name)
           && forall k :: 0 <= k < |tables[t].records| ==> tables[t].records[k].ticker == Folders(entries)[t].name
    decreases |entries|
  {
    if entries != [] {
      var init := entries[..|entries| - 1];
      ThreadTables(init, start);
      var e := entries[|entries| - 1];
      if e.isDir {
        TickerRecordsSpec(e.name, e.listing, Thread(init, start).nextId);
      }
    }
  }
}
