/** `SheetProcessor.process` and `_sort_key`: the data rows of the sheet, up to the first
    row whose end-check columns are all blank, become records sorted by ID, descending. */
module SheetTable {
  import opened Wrappers
  import opened Seqs
  import opened Strings
  import opened Columns
  import opened Sorting
  import opened SheetRow

  /** The key `_sort_key` reads. */
  const IdKey: string := "ID"

  /** `_sort_key`: the integer value of the record's ID, or 0 when there is none or it is
      not a numeral. A list has no integer value, and an ID cell is a stripped string, so
      the conversion sees an optional sign and ASCII digits or fails. */
  function SortKey(r: Record): (k: int)
    ensures IdKey !in r.fields || r.fields[IdKey].Items? ==> k == 0
    ensures k != 0 ==> IdKey in r.fields && r.fields[IdKey].Scalar?
                       && ParseInt(r.fields[IdKey].text) == Some(k)
    ensures IdKey in r.fields && r.fields[IdKey].Scalar? && ParseInt(r.fields[IdKey].text).Some?
            ==> k == ParseInt(r.fields[IdKey].text).value
  {
    if IdKey in r.fields then
      match r.fields[IdKey]
      case Scalar(t) => ParseInt(t).GetOr(0)
      case Items(_) => 0
    else 0
  }

  /** A record whose ID is the decimal numeral of `n` sorts by `n`. */
  lemma SortKeyOfNumeral(r: Record, n: int)
    requires IdKey in r.fields && r.fields[IdKey] == Scalar(ShowInt(n))
    ensures SortKey(r) == n
  {
    ParseShowInt(n);
  }

  /** A record without an ID, or with a blank one, sorts as 0. */
  lemma SortKeyMissing(r: Record)
    requires IdKey !in r.fields || r.fields[IdKey] == Scalar("")
    ensures SortKey(r) == 0
  {
  }

  /** Where `sheet_data[data_start_row - 1:]` starts: Python counts a negative start from
      the end and clamps both ways. */
  function DataStart(dataStartRow: int, n: nat): (k: nat)
    ensures k <= n
  {
    var s := dataStartRow - 1;
    if s >= 0 then (if s <= n then s else n)
    else if n + s >= 0 then n + s
    else 0
  }

  /** The rows from the 1-based `dataStartRow` on: always a suffix of the sheet. */
  function DataRows(sheet: seq<seq<string>>, dataStartRow: int): (r: seq<seq<string>>)
    ensures |r| <= |sheet| && r == sheet[|sheet| - |r|..]
  {
    sheet[DataStart(dataStartRow, |sheet|)..]
  }

  /** With a 1-based start row inside the sheet, the header rows above it are skipped
      and every later row is kept; past the end nothing is kept. */
  lemma DataRowsSkipHeader(sheet: seq<seq<string>>, dataStartRow: int)
    requires dataStartRow >= 1
    ensures dataStartRow <= |sheet| + 1 ==>
      && |DataRows(sheet, dataStartRow)| == |sheet| - (dataStartRow - 1)
      && forall i :: 0 <= i < |DataRows(sheet, dataStartRow)| ==>
           DataRows(sheet, dataStartRow)[i] == sheet[dataStartRow - 1 + i]
    ensures dataStartRow > |sheet| ==> DataRows(sheet, dataStartRow) == []
  {
  }

  /** Python's `s[lo:hi]` for non-negative bounds. */
  function Slice(s: seq<string>, lo: nat, hi: nat): (r: seq<string>)
    ensures |r| <= |s|
  {
    if lo >= hi || lo >= |s| then []
    else if hi <= |s| then s[lo..hi]
    else s[lo..]
  }

  /** `any(cell.strip() for cell in cells)`. */
  function AnyFilled(cells: seq<string>): (r: bool) {
    if cells == [] then false
    else Strip(cells[0]) != [] || AnyFilled(cells[1..])
  }

  /** The end-of-data test: no cell of `row[lo : hi + 1]` has text. */
  predicate IsEndRow(row: seq<string>, lo: nat, hi: nat) {
    !AnyFilled(Slice(row, lo, hi + 1))
  }

  lemma {:induction false} AnyFilledMeaning(cells: seq<string>)
    ensures AnyFilled(cells) <==> exists j :: 0 <= j < |cells| && !AllSpace(cells[j])
  {
    if cells != [] {
      AnyFilledMeaning(cells[1..]);
      if AnyFilled(cells[1..]) {
        var j :| 0 <= j < |cells[1..]| && !AllSpace(cells[1..][j]);
        assert !AllSpace(cells[j + 1]);
      }
      if j :| 0 <= j < |cells| && !AllSpace(cells[j]) {
        if j > 0 {
          assert cells[1..][j - 1] == cells[j];
        }
      }
    }
  }

  /** A row ends the data exactly when every cell it has in the columns `lo..hi` is blank;
      cells past the end of the row count as blank. */
  lemma EndRowMeaning(row: seq<string>, lo: nat, hi: nat)
    ensures IsEndRow(row, lo, hi) <==> forall j :: lo <= j <= hi && j < |row| ==> AllSpace(row[j])
  {
    var cells := Slice(row, lo, hi + 1);
    AnyFilledMeaning(cells);
    if lo <= hi && lo < |row| {
      forall j | lo <= j <= hi && j < |row| ensures cells[j - lo] == row[j] {
      }
      forall i | 0 <= i < |cells| ensures cells[i] == row[lo + i] {
      }
    }
  }

  /** The end-row test for the columns `lo..hi`. */
  function EndTest(lo: nat, hi: nat): (r: seq<string> -> bool) {
    row => IsEndRow(row, lo, hi)
  }

  /** How many rows come before the first end row (all of them if there is none). */
  function DataLength(rows: seq<seq<string>>, lo: nat, hi: nat): (n: nat)
    ensures n <= |rows|
  {
    FirstWhere(EndTest(lo, hi), rows)
  }

  /** Every row before `DataLength` has text in its end-check columns; the row at
      `DataLength`, if any, has none. */
  lemma DataLengthMeaning(rows: seq<seq<string>>, lo: nat, hi: nat)
    ensures forall i :: 0 <= i < DataLength(rows, lo, hi) ==> !IsEndRow(rows[i], lo, hi)
    ensures DataLength(rows, lo, hi) < |rows| ==> IsEndRow(rows[DataLength(rows, lo, hi)], lo, hi)
  {
    var P := EndTest(lo, hi);
    var n := FirstWhere(P, rows);
    forall i | 0 <= i < n ensures !IsEndRow(rows[i], lo, hi) {
      assert !P(rows[i]);
    }
    if n < |rows| {
      assert P(rows[n]);
    }
  }

  /** `_process_row` of the processor, as a function of the row. */
  function RowOf(p: SheetProcessor): (r: seq<string> -> Record)
    requires p.Valid()
  {
    row => RowRecord(p, row)
  }

  /** The data rows of `sheet` that `process` reads. */
  function TableRows(p: SheetProcessor, sheet: seq<seq<string>>): (r: seq<seq<string>>)
    requires p.Valid()
  {
    DataRows(sheet, p.config.dataStartRow)
  }

  function CheckStart(p: SheetProcessor): (r: nat)
    requires p.Valid()
  {
    ColumnIndex(p.config.endCheckStart)
  }

  function CheckEnd(p: SheetProcessor): (r: nat)
    requires p.Valid()
  {
    ColumnIndex(p.config.endCheckEnd)
  }

  /** The records collected before sorting: one per data row before the first end row. */
  function Collected(p: SheetProcessor, sheet: seq<seq<string>>): (r: seq<Record>)
    requires p.Valid()
    ensures |r| <= |TableRows(p, sheet)|
  {
    var rows := TableRows(p, sheet);
    Map(RowOf(p), rows[..DataLength(rows, CheckStart(p), CheckEnd(p))])
  }

  /** `process`: skip the header rows, normalise rows until the first end row, then sort
      stably by decreasing ID. */
  method Process(p: SheetProcessor, sheet: seq<seq<string>>) returns (out: seq<Record>)
    requires p.Valid()
    ensures out == SortDesc(SortKey, Collected(p, sheet))
  {
    var startIdx := ColToIndex(p.config.endCheckStart);
    var endIdx := ColToIndex(p.config.endCheckEnd);
    assert startIdx == CheckStart(p) && endIdx == CheckEnd(p);
    var rows := DataRows(sheet, p.config.dataStartRow);
    var processed := CollectRows(p, rows, startIdx, endIdx);
    out := SortDesc(SortKey, processed);
  }

  /** The loop of `process`: normalise the rows in order, stopping at the first end row. */
  method CollectRows(p: SheetProcessor, rows: seq<seq<string>>, lo: nat, hi: nat)
    returns (processed: seq<Record>)
    requires p.Valid()
    ensures processed == Map(RowOf(p), rows[..DataLength(rows, lo, hi)])
  {
    ghost var isEnd := EndTest(lo, hi);
    ghost var f := RowOf(p);
    processed := [];
    var i := 0;
    while i < |rows|
      invariant 0 <= i <= |rows|
      invariant forall j :: 0 <= j < i ==> !isEnd(rows[j])
      invariant processed == Map(f, rows[..i])
    {
      if IsEndRow(rows[i], lo, hi) {
        assert isEnd(rows[i]);
        break;
      }
      assert !isEnd(rows[i]);
      var record := ProcessRow(p, rows[i]);
      assert record == f(rows[i]);
      MapPrefixStep(f, rows, i);
      processed := processed + [record];
      i := i + 1;
    }
    FirstWhereIs(isEnd, rows, i);
  }

  /** The output of `process` for `sheet`. */
  function Table(p: SheetProcessor, sheet: seq<seq<string>>): (r: seq<Record>)
    requires p.Valid()
    ensures |r| == |Collected(p, sheet)|
  {
    SortDesc(SortKey, Collected(p, sheet))
  }

  /** At most one record per data row, and none for the end row or anything below it. */
  lemma TableSize(p: SheetProcessor, sheet: seq<seq<string>>)
    requires p.Valid()
    ensures |Table(p, sheet)| == |Collected(p, sheet)|
    ensures |Collected(p, sheet)| <= |TableRows(p, sheet)| <= |sheet|
    ensures forall i :: 0 <= i < |Collected(p, sheet)| ==>
      Collected(p, sheet)[i] == RowRecord(p, TableRows(p, sheet)[i])
      && !IsEndRow(TableRows(p, sheet)[i], CheckStart(p), CheckEnd(p))
    ensures |Collected(p, sheet)| < |TableRows(p, sheet)| ==>
      IsEndRow(TableRows(p, sheet)[|Collected(p, sheet)|], CheckStart(p), CheckEnd(p))
  {
    var rows := TableRows(p, sheet);
    DataLengthMeaning(rows, CheckStart(p), CheckEnd(p));
    var n := DataLength(rows, CheckStart(p), CheckEnd(p));
    var c := Collected(p, sheet);
    forall i | 0 <= i < n ensures c[i] == RowRecord(p, rows[i]) {
      assert rows[..n][i] == rows[i];
    }
  }

  /** The output is ordered by decreasing ID and holds exactly the collected records. */
  lemma TableSortedPermutation(p: SheetProcessor, sheet: seq<seq<string>>)
    requires p.Valid()
    ensures SortedDesc(SortKey, Table(p, sheet))
    ensures multiset(Table(p, sheet)) == multiset(Collected(p, sheet))
  {
    SortDescSorted(SortKey, Collected(p, sheet));
    SortDescPerm(SortKey, Collected(p, sheet));
  }

  /** Records with the same ID keep their row order. */
  lemma TableStable(p: SheetProcessor, sheet: seq<seq<string>>, id: int)
    requires p.Valid()
    ensures WithKey(SortKey, Table(p, sheet), id) == WithKey(SortKey, Collected(p, sheet), id)
  {
    SortDescStable(SortKey, Collected(p, sheet), id);
  }
}
