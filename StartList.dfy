/**
  * The start list taken from an uploaded CSV file: the guard on the file
  * name and the filter applied to the rows the CSV parser produced. The
  * first row is the header; rows whose cells are all blank are dropped.
  */
module StartList {
  import opened Wrappers
  import opened JsString

  type Row = seq<string>

  /** `row.some(cell => cell.trim() !== '')` */
  predicate HasContent(row: Row) {
    exists k :: 0 <= k < |row| && Trim(row[k]) != ""
  }

  /** `rows.filter(row => HasContent(row))` */
  function KeepNonBlank(rows: seq<Row>): seq<Row> {
    if rows == [] then []
    else (if HasContent(rows[0]) then [rows[0]] else []) + KeepNonBlank(rows[1..])
  }

  /** `data.slice(1).filter(row => row.some(cell => cell.trim() !== ''))` */
  function StartListRows(data: seq<Row>): seq<Row> {
    KeepNonBlank(if data == [] then [] else data[1..])
  }

  /** `a` is `b` with some elements left out, the rest in their order. */
  predicate IsSubsequence(a: seq<Row>, b: seq<Row>)
    decreases |b|
  {
    a == [] || (b != [] && ((a[0] == b[0] && IsSubsequence(a[1..], b[1..])) || IsSubsequence(a, b[1..])))
  }

  /** A row is blank exactly when every cell is white space only. */
  lemma BlankRowIff(row: Row)
    ensures !HasContent(row) <==> forall k :: 0 <= k < |row| ==> AllWhiteSpace(row[k])
  {
    forall k | 0 <= k < |row| {
      TrimEmptyIff(row[k]);
    }
  }

  /** The surviving rows keep their order and content. */
  lemma {:induction false} KeepNonBlankIsSubsequence(rows: seq<Row>)
    ensures IsSubsequence(KeepNonBlank(rows), rows)
  {
    if rows != [] {
      KeepNonBlankIsSubsequence(rows[1..]);
      var kept := KeepNonBlank(rows);
      if HasContent(rows[0]) {
        assert kept[0] == rows[0] && kept[1..] == KeepNonBlank(rows[1..]);
      } else {
        assert kept == KeepNonBlank(rows[1..]);
      }
    }
  }

  /** A row survives exactly when it occurs in the input and has content. */
  lemma {:induction false} KeepNonBlankMembers(rows: seq<Row>, row: Row)
    ensures row in KeepNonBlank(rows) <==> row in rows && HasContent(row)
  {
    if rows != [] {
      KeepNonBlankMembers(rows[1..], row);
      assert rows == [rows[0]] + rows[1..];
    }
  }

  /** A row with content survives as often as it occurs; a blank one not
      at all. */
  lemma {:induction false} KeepNonBlankCount(rows: seq<Row>, row: Row)
    ensures multiset(KeepNonBlank(rows))[row] == if HasContent(row) then multiset(rows)[row] else 0
  {
    if rows != [] {
      KeepNonBlankCount(rows[1..], row);
      assert rows == [rows[0]] + rows[1..];
    }
  }

  /** The surviving rows number at most the input rows. */
  lemma {:induction false} KeepNonBlankLength(rows: seq<Row>)
    ensures |KeepNonBlank(rows)| <= |rows|
  {
    if rows != [] {
      KeepNonBlankLength(rows[1..]);
    }
  }

  /** Filtering a concatenation filters each part. */
  lemma {:induction false} KeepNonBlankAppend(a: seq<Row>, b: seq<Row>)
    ensures KeepNonBlank(a + b) == KeepNonBlank(a) + KeepNonBlank(b)
  {
    if a == [] {
      assert a + b == b;
    } else {
      assert (a + b)[0] == a[0] && (a + b)[1..] == a[1..] + b;
      KeepNonBlankAppend(a[1..], b);
    }
  }

  /** The start list is drawn, in order, from the rows after the header;
      it holds exactly the ones with content, each as often as it occurs
      there, and at most `max(0, n - 1)` rows. */
  lemma StartListRowsSpec(data: seq<Row>)
    ensures |StartListRows(data)| <= if data == [] then 0 else |data| - 1
    ensures data != [] ==> IsSubsequence(StartListRows(data), data[1..])
    ensures data != [] ==> forall row :: row in StartListRows(data) <==> row in data[1..] && HasContent(row)
    ensures data == [] ==> StartListRows(data) == []
    ensures data != [] ==> forall row ::
      multiset(StartListRows(data))[row] == if HasContent(row) then multiset(data[1..])[row] else 0
  {
    var tail := if data == [] then [] else data[1..];
    KeepNonBlankLength(tail);
    KeepNonBlankIsSubsequence(tail);
    forall row
      ensures row in KeepNonBlank(tail) <==> row in tail && HasContent(row)
      ensures multiset(KeepNonBlank(tail))[row] == if HasContent(row) then multiset(tail)[row] else 0
    {
      KeepNonBlankMembers(tail, row);
      KeepNonBlankCount(tail, row);
    }
  }

  /** A file chosen in the CSV upload and the rows the CSV parser produced
      for it. */
  datatype UploadedFile = UploadedFile(name: string, parsedRows: seq<Row>)

  /** The new `startListData` after the CSV upload handler: no file or a
      name not ending in `.csv` (case-sensitive) leaves it unchanged;
      otherwise it becomes the filtered rows. */
  function CsvUpload(file: Option<UploadedFile>, startListData: Option<seq<Row>>): (r: Option<seq<Row>>)
    ensures file.None? ==> r == startListData
    ensures file.Some? && !EndsWith(file.value.name, ".csv") ==> r == startListData
    ensures file.Some? && EndsWith(file.value.name, ".csv") ==> r == Some(StartListRows(file.value.parsedRows))
  {
    match file
    case None => startListData
    case Some(f) => if !EndsWith(f.name, ".csv") then startListData else Some(StartListRows(f.parsedRows))
  }
}
