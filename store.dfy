/** The document store as the script uses it: two collections, `db1` and
    `db2`, each a sequence of documents in insertion order; `delete_many({})`,
    `insert_one` (which gives each document an `_id`), `find` with an
    equality filter, and the script's load and fetch loops over them. */
module Store {
  import opened Cells
  import opened Records
  import opened Ingest

  datatype Partition = Db1 | Db2
  {
    function Other(): Partition
    {
      if this == Db1 then Db2 else Db1
    }
  }

  /** The stored form of a record: the store's identity field in front. */
  function WithId(rec: Record, id: nat): Record
  {
    [("_id", ObjId(id))] + rec
  }

  /** Records inserted one after another, starting at identity `base`. */
  function Tagged(recs: seq<Record>, base: nat): (docs: seq<Record>)
    ensures |docs| == |recs|
    ensures forall i :: 0 <= i < |recs| ==> docs[i] == WithId(recs[i], base + i)
  {
    seq(|recs|, i requires 0 <= i < |recs| => WithId(recs[i], base + i))
  }

  lemma TaggedSnoc(recs: seq<Record>, rec: Record, base: nat)
    ensures Tagged(recs + [rec], base) == Tagged(recs, base) + [WithId(rec, base + |recs|)]
  {
  }

  lemma TaggedAppend(a: seq<Record>, b: seq<Record>, base: nat)
    ensures Tagged(a + b, base) == Tagged(a, base) + Tagged(b, base + |a|)
  {
  }

  /** Stripping the identity field from what a load stored gives back the
      records it built, in order: the store adds nothing else. */
  lemma {:induction false} UntagTagged(recs: seq<Record>, base: nat)
    requires forall i :: 0 <= i < |recs| ==> "_id" !in KeysOf(recs[i])
    ensures forall i :: 0 <= i < |recs| ==> Remove(Tagged(recs, base)[i], "_id") == recs[i]
  {
    forall i | 0 <= i < |recs| ensures Remove(Tagged(recs, base)[i], "_id") == recs[i] {
      RemoveFront(recs[i], "_id", ObjId(base + i));
    }
  }

  /** Every stored document is one of the inserted records under some
      identity. */
  lemma TaggedBuilt(recs: seq<Record>, base: nat)
    ensures forall d :: d in Tagged(recs, base) ==> exists r, id: nat :: r in recs && d == WithId(r, id)
  {
    forall d | d in Tagged(recs, base) ensures exists r, id: nat :: r in recs && d == WithId(r, id) {
      var i :| 0 <= i < |recs| && Tagged(recs, base)[i] == d;
      assert d == WithId(recs[i], base + i);
    }
  }

  /** The equality filter of `find`: every key of the filter is present in
      the document with an equal value. */
  predicate Matches(doc: Record, filter: Record)
  {
    forall i :: 0 <= i < |filter| ==> Get(doc, filter[i].0) == Some(filter[i].1)
  }

  /** `collection.find(filter)`: the matching documents in stored order. */
  function Find(docs: seq<Record>, filter: Record): seq<Record>
  {
    if docs == [] then []
    else
      var n := |docs| - 1;
      Find(docs[..n], filter) + (if Matches(docs[n], filter) then [docs[n]] else [])
  }

  /** `find` returns exactly the matching documents... */
  lemma {:induction false} FindMembers(docs: seq<Record>, filter: Record)
    ensures forall d :: d in Find(docs, filter) <==> d in docs && Matches(d, filter)
  {
    if docs != [] {
      var n := |docs| - 1;
      FindMembers(docs[..n], filter);
      assert docs == docs[..n] + [docs[n]];
    }
  }

  /** ...in the order they are stored, segment by segment. */
  lemma {:induction false} FindAppend(a: seq<Record>, b: seq<Record>, filter: Record)
    ensures Find(a + b, filter) == Find(a, filter) + Find(b, filter)
    decreases |b|
  {
    if b == [] {
      assert a + b == a;
    } else {
      var n := |b| - 1;
      assert (a + b)[..|a + b| - 1] == a + b[..n];
      assert (a + b)[|a + b| - 1] == b[n];
      FindAppend(a, b[..n], filter);
    }
  }

  /** The empty filter matches every document. */
  lemma {:induction false} FindAll(docs: seq<Record>)
    ensures Find(docs, []) == docs
  {
    if docs != [] {
      var n := |docs| - 1;
      FindAll(docs[..n]);
      assert docs[..n] + [docs[n]] == docs;
    }
  }

  /** The concatenated matches of a list of collections, in list order. */
  function FindEach(colls: seq<seq<Record>>, filter: Record): seq<Record>
  {
    if colls == [] then []
    else
      var n := |colls| - 1;
      FindEach(colls[..n], filter) + Find(colls[n], filter)
  }

  class Store {
    var db1: seq<Record>
    var db2: seq<Record>
    /** The identity the next inserted document receives. */
    var nextId: nat

    constructor ()
      ensures db1 == [] && db2 == [] && nextId == 0
    {
      db1, db2, nextId := [], [], 0;
    }

    function Contents(p: Partition): seq<Record>
      reads this
    {
      if p == Db1 then db1 else db2
    }

    /** `coll.delete_many({})`. */
    method DeleteAll(p: Partition)
      modifies this
      ensures Contents(p) == []
      ensures Contents(p.Other()) == old(Contents(p.Other()))
      ensures nextId == old(nextId)
    {
      if p == Db1 { db1 := []; } else { db2 := []; }
    }

    /** `coll.insert_one(rec)`: appends `rec` under a fresh identity. */
    method InsertOne(p: Partition, rec: Record)
      modifies this
      ensures Contents(p) == old(Contents(p)) + [WithId(rec, old(nextId))]
      ensures Contents(p.Other()) == old(Contents(p.Other()))
      ensures nextId == old(nextId) + 1
    {
      var doc := WithId(rec, nextId);
      if p == Db1 { db1 := db1 + [doc]; } else { db2 := db2 + [doc]; }
      nextId := nextId + 1;
    }

    /** The inner loop of the load: one `insert_one` per data row of a
      sheet, in row order. */
    method InsertSheet(sheet: Sheet, p: Partition)
      requires WideRows(sheet)
      modifies this
      ensures Contents(p) == old(Contents(p)) + Tagged(SheetRecords(sheet), old(nextId))
      ensures Contents(p.Other()) == old(Contents(p.Other()))
      ensures nextId == old(nextId) + |sheet.rows|
    {
      var keys := sheet.header;
      ghost var recs := SheetRecords(sheet);
      ghost var inserted: seq<Record> := [];
      for r := 0 to |sheet.rows|
        invariant |inserted| == r
        invariant forall i :: 0 <= i < r ==> inserted[i] == recs[i]
        invariant Contents(p) == old(Contents(p)) + Tagged(inserted, old(nextId))
        invariant Contents(p.Other()) == old(Contents(p.Other()))
        invariant nextId == old(nextId) + r
      {
        var rowData := Build(keys, sheet.rows[r]);
        InsertOne(p, rowData);
        TaggedSnoc(inserted, rowData, old(nextId));
        inserted := inserted + [rowData];
      }
      assert inserted == recs;
    }

    /** The load: clear the partition once, then insert one record per data
      row of every file, in file order and row order. The partition ends up
      holding exactly those records and nothing from before; the other
      partition is untouched. */
    method Load(files: seq<Sheet>, p: Partition)
      requires Loadable(files)
      modifies this
      ensures Contents(p) == Tagged(FilesRecords(files), old(nextId))
      ensures Contents(p.Other()) == old(Contents(p.Other()))
      ensures nextId == old(nextId) + |FilesRecords(files)|
    {
      ghost var base := nextId;
      ghost var loaded: seq<Record> := [];
      DeleteAll(p);
      for f := 0 to |files|
        invariant loaded == FilesRecords(files[..f])
        invariant Contents(p) == Tagged(loaded, base)
        invariant Contents(p.Other()) == old(Contents(p.Other()))
        invariant nextId == base + |loaded|
      {
        ghost var sheetRecords := SheetRecords(files[f]);
        InsertSheet(files[f], p);
        TaggedAppend(loaded, sheetRecords, base);
        FilesRecordsStep(files, f);
        loaded := loaded + sheetRecords;
      }
      assert files[..|files|] == files;
    }

    /** `for collection in [db1, db2]: results.extend(collection.find(filter))`:
      db1's matches followed by db2's. */
    method Fetch(filter: Record) returns (results: seq<Record>)
      ensures results == Find(db1, filter) + Find(db2, filter)
    {
      var collList := [db1, db2];
      results := [];
      for c := 0 to |collList|
        invariant results == FindEach(collList[..c], filter)
      {
        results := results + Find(collList[c], filter);
        assert collList[..c + 1][..c] == collList[..c];
      }
      assert collList[..2][..1] == [db1];
      assert collList[..1][..0] == [];
    }
  }

  /** Loading a partition twice keeps only the second load's records. */
  method Reload(store: Store, first: seq<Sheet>, second: seq<Sheet>, p: Partition)
    requires Loadable(first) && Loadable(second)
    modifies store
    ensures store.Contents(p) == Tagged(FilesRecords(second), old(store.nextId) + |FilesRecords(first)|)
    ensures store.Contents(p.Other()) == old(store.Contents(p.Other()))
  {
    store.Load(first, p);
    store.Load(second, p);
  }
}
