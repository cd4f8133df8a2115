/** One run of the script: load the named files into the chosen partition
    when both `--files` and `--db` are given, fetch the matches from db1 and
    then db2, filter and deduplicate them, and decide the export when
    `--csv` is given. */
module Script {
  import opened Cells
  import opened Records
  import opened Ingest
  import opened Store
  import opened Query

  /** The parsed command line. `files` is empty when `--files` is absent
      (the option takes one or more names). */
  datatype Args = Args(
    files: seq<Sheet>,
    db: Option<Partition>,
    user: Option<string>,
    date: Option<string>,
    repeatable: bool,
    blocker: bool,
    csv: bool)

  /** `if args.files and args.db`. */
  predicate LoadRequested(args: Args)
  {
    args.files != [] && args.db.Some?
  }

  method Run(store: Store, args: Args) returns (finalResults: seq<Record>, report: Option<Report>)
    requires LoadRequested(args) ==> Loadable(args.files)
    modifies store
    ensures LoadRequested(args) ==>
      store.Contents(args.db.value) == Tagged(FilesRecords(args.files), old(store.nextId)) &&
      store.Contents(args.db.value.Other()) == old(store.Contents(args.db.value.Other()))
    ensures !LoadRequested(args) ==> store.db1 == old(store.db1) && store.db2 == old(store.db2)
    ensures finalResults == Select(
      Find(store.db1, SearchParams(args.user, args.date)) + Find(store.db2, SearchParams(args.user, args.date)),
      args.repeatable, args.blocker)
    ensures report == if args.csv then Some(Export(finalResults)) else None
  {
    if LoadRequested(args) {
      store.Load(args.files, args.db.value);
    }
    var searchParams := SearchParams(args.user, args.date);
    var results := store.Fetch(searchParams);
    finalResults := FilterDedup(results, args.repeatable, args.blocker);
    if args.csv {
      report := Some(Export(finalResults));
    } else {
      report := None;
    }
  }

  /** The final results add nothing to what the loads built: when every
      document of db1 and db2 is one of the built records under some
      identity (as `TaggedBuilt` shows for a load), every final record is
      one of those records, with its identity removed. */
  lemma FinalResultsAreBuilt(recs: seq<Record>, db1: seq<Record>, db2: seq<Record>, filter: Record,
                             repeatable: bool, blocker: bool)
    requires forall r :: r in recs ==> "_id" !in KeysOf(r)
    requires forall d :: d in db1 + db2 ==> exists r, id: nat :: r in recs && d == WithId(r, id)
    ensures forall r :: r in Select(Find(db1, filter) + Find(db2, filter), repeatable, blocker) ==> r in recs
  {
    var found := Find(db1, filter) + Find(db2, filter);
    FindAppend(db1, db2, filter);
    FindMembers(db1 + db2, filter);
    var f := Filter(found, repeatable, blocker);
    FilterMembers(found, repeatable, blocker);
    var idx := KeepFirstPositions(f);
    forall r | r in Select(found, repeatable, blocker) ensures r in recs {
      var k :| 0 <= k < |KeepFirst(f)| && KeepFirst(f)[k] == r;
      var d := f[idx[k]];
      assert d in found;
      var r0, id: nat :| r0 in recs && d == WithId(r0, id);
      RemoveFront(r0, "_id", ObjId(id));
    }
  }
}
