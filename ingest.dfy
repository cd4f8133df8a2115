/** What a load turns a spreadsheet into: one record per data row, its
    fields named by the header row, the `Build #` field normalised. */
module Ingest {
  import opened Cells
  import opened Records
  import opened Dates

  /** The active sheet of a workbook: the values of its first row (the
      field names) and of every row after it. */
  datatype Sheet = Sheet(header: seq<string>, rows: seq<seq<Value>>)

  /** Every data row has a cell for every header column (the reader yields
      rows as wide as the sheet). */
  predicate WideRows(sh: Sheet)
  {
    forall i :: 0 <= i < |sh.rows| ==> |sh.rows[i]| >= |sh.header|
  }

  /** The sheets a load accepts: rows as wide as the header, and no column
      named `_id`, the name the store keeps for its own identity field. */
  predicate Loadable(files: seq<Sheet>)
  {
    forall i :: 0 <= i < |files| ==> WideRows(files[i]) && "_id" !in files[i].header
  }

  const BUILD_FIELD := "Build #"

  /** The value stored for one cell: `fix_date` only under `Build #`. */
  function CellFor(key: string, v: Value): Value
  {
    if key == BUILD_FIELD then FixDate(v) else v
  }

  /** The values the comprehension stores, column by column. */
  function StoredCells(keys: seq<string>, row: seq<Value>): (vals: seq<Value>)
    requires |row| >= |keys|
    ensures |vals| == |keys|
    ensures forall i :: 0 <= i < |keys| ==> vals[i] == CellFor(keys[i], row[i])
  {
    seq(|keys|, i requires 0 <= i < |keys| && |row| >= |keys| => CellFor(keys[i], row[i]))
  }

  /** `{keys[i]: fix_date(row[i]) if keys[i] == "Build #" else row[i] for i
      in range(len(keys))}`: the comprehension inserts the pairs in header
      order, so a repeated header name keeps its first place and its last
      value. */
  function Build(keys: seq<string>, row: seq<Value>): Record
    requires |row| >= |keys|
  {
    Zip(keys, StoredCells(keys, row))
  }

  /** The built record has exactly the header's keys, holds each key once,
      and the key at a header position that no later position repeats holds
      that column's cell, passed through `fix_date` under `Build #` only. */
  lemma BuildSpec(keys: seq<string>, row: seq<Value>)
    requires |row| >= |keys|
    ensures WellFormed(Build(keys, row))
    ensures forall k :: k in KeysOf(Build(keys, row)) <==> k in keys
    ensures forall i :: 0 <= i < |keys| && LastOf(keys, i) ==>
      Get(Build(keys, row), keys[i]) == Some(if keys[i] == "Build #" then FixDate(row[i]) else row[i])
  {
    var vals := StoredCells(keys, row);
    ZipWellFormed(keys, vals);
    ZipKeySet(keys, vals);
    ZipLastWins(keys, vals);
  }

  /** With a header that names each field once, the record's keys are the
      header in order and each holds the cell of its own column. */
  lemma BuildDistinct(keys: seq<string>, row: seq<Value>)
    requires |row| >= |keys|
    requires Distinct(keys)
    ensures KeysOf(Build(keys, row)) == keys
    ensures forall i :: 0 <= i < |keys| ==>
      Get(Build(keys, row), keys[i]) == Some(if keys[i] == "Build #" then FixDate(row[i]) else row[i])
  {
    ZipDistinct(keys, StoredCells(keys, row));
  }

  /** The records one sheet yields, in row order. */
  function SheetRecords(sh: Sheet): (rs: seq<Record>)
    requires WideRows(sh)
    ensures |rs| == |sh.rows|
    ensures forall i :: 0 <= i < |rs| ==> rs[i] == Build(sh.header, sh.rows[i])
  {
    seq(|sh.rows|, i requires 0 <= i < |sh.rows| && WideRows(sh) => Build(sh.header, sh.rows[i]))
  }

  /** Every record of a sheet is a well-formed dict with exactly the
      header's keys, and each key that no later column repeats holds its
      column's cell, passed through `fix_date` under `Build #` only. */
  lemma SheetRecordsSpec(sh: Sheet)
    requires WideRows(sh)
    ensures forall i :: 0 <= i < |sh.rows| ==>
      WellFormed(SheetRecords(sh)[i]) && (forall k :: k in KeysOf(SheetRecords(sh)[i]) <==> k in sh.header)
    ensures forall i, j :: 0 <= i < |sh.rows| && 0 <= j < |sh.header| && LastOf(sh.header, j) ==>
      Get(SheetRecords(sh)[i], sh.header[j]) == Some(CellFor(sh.header[j], sh.rows[i][j]))
  {
    forall i | 0 <= i < |sh.rows|
      ensures WellFormed(SheetRecords(sh)[i]) && (forall k :: k in KeysOf(SheetRecords(sh)[i]) <==> k in sh.header)
      ensures forall j :: 0 <= j < |sh.header| && LastOf(sh.header, j) ==>
        Get(SheetRecords(sh)[i], sh.header[j]) == Some(CellFor(sh.header[j], sh.rows[i][j]))
    {
      BuildSpec(sh.header, sh.rows[i]);
    }
  }

  /** The records a list of files yields, in file order and then row order. */
  function FilesRecords(files: seq<Sheet>): (rs: seq<Record>)
    requires forall i :: 0 <= i < |files| ==> WideRows(files[i])
  {
    if files == [] then []
    else
      var n := |files| - 1;
      FilesRecords(files[..n]) + SheetRecords(files[n])
  }

  /** One more file adds its records at the end. */
  lemma FilesRecordsStep(files: seq<Sheet>, f: nat)
    requires f < |files|
    requires forall i :: 0 <= i < |files| ==> WideRows(files[i])
    ensures FilesRecords(files[..f + 1]) == FilesRecords(files[..f]) + SheetRecords(files[f])
  {
    assert files[..f + 1][..f] == files[..f];
  }

  lemma {:induction false} FilesRecordsAppend(a: seq<Sheet>, b: seq<Sheet>)
    requires forall i :: 0 <= i < |a| ==> WideRows(a[i])
    requires forall i :: 0 <= i < |b| ==> WideRows(b[i])
    ensures forall i :: 0 <= i < |a + b| ==> WideRows((a + b)[i])
    ensures FilesRecords(a + b) == FilesRecords(a) + FilesRecords(b)
    decreases |b|
  {
    assert forall i :: 0 <= i < |a + b| ==> WideRows((a + b)[i]) by {
      forall i | 0 <= i < |a + b| ensures WideRows((a + b)[i]) {
        if i < |a| { assert (a + b)[i] == a[i]; } else { assert (a + b)[i] == b[i - |a|]; }
      }
    }
    if b == [] {
      assert a + b == a;
    } else {
      var n := |b| - 1;
      assert (a + b)[..|a + b| - 1] == a + b[..n];
      FilesRecordsAppend(a, b[..n]);
    }
  }

  /** Every record a load builds carries the header's keys only, so none has
      an `_id` of its own. */
  lemma {:induction false} FilesRecordsNoId(files: seq<Sheet>)
    requires Loadable(files)
    ensures forall i :: 0 <= i < |FilesRecords(files)| ==> "_id" !in KeysOf(FilesRecords(files)[i])
  {
    if files != [] {
      var n := |files| - 1;
      FilesRecordsNoId(files[..n]);
      var a, b := FilesRecords(files[..n]), SheetRecords(files[n]);
      forall i | 0 <= i < |a + b| ensures "_id" !in KeysOf((a + b)[i]) {
        if i >= |a| {
          assert (a + b)[i] == b[i - |a|];
          BuildSpec(files[n].header, files[n].rows[i - |a|]);
        } else {
          assert (a + b)[i] == a[i];
        }
      }
    }
  }
}
