/** The query stage: the equality filter built from `--user` and
    `--date`, the `--repeatable` / `--blocker` attribute tests, the loop
    that keeps the first record of each (`Test Case`, `Test Owner`,
    `Build #`) key and drops its `_id`, and the export decision. */
module Query {
  import opened Text
  import opened Cells
  import opened Dates
  import opened Records
  import opened Store

  /** A string option, taken when given and not empty (Python truthiness). */
  predicate Given(o: Option<string>)
  {
    o.Some? && o.value != ""
  }

  /** `search_params`: `Test Owner` is the stripped `--user`, `Build #` the
      normalised `--date`; an option not given adds no key. */
  function SearchParams(user: Option<string>, date: Option<string>): Record
  {
    (if Given(user) then [("Test Owner", Str(Strip(user.value)))] else [])
    + (if Given(date) then [("Build #", FixDate(Str(date.value)))] else [])
  }

  /** A document matches the search parameters exactly when its `Test Owner`
      equals the stripped user (if one is given) and its `Build #` equals
      the normalised date (if one is given); with neither, every document
      matches. */
  lemma SearchParamsMatch(user: Option<string>, date: Option<string>, doc: Record)
    ensures Matches(doc, SearchParams(user, date)) <==>
      (Given(user) ==> Get(doc, "Test Owner") == Some(Str(Strip(user.value)))) &&
      (Given(date) ==> Get(doc, "Build #") == Some(FixDate(Str(date.value))))
  {
    var p := SearchParams(user, date);
    if Given(user) && Given(date) {
      assert p[0] == ("Test Owner", Str(Strip(user.value)));
      assert p[1] == ("Build #", FixDate(Str(date.value)));
    } else if Given(user) {
      assert p[0] == ("Test Owner", Str(Strip(user.value)));
    } else if Given(date) {
      assert p[0] == ("Build #", FixDate(Str(date.value)));
    }
  }

  /** With no filter options, the candidates are all of db1 followed by all
      of db2. */
  lemma NoFilterFetchesAll(db1: seq<Record>, db2: seq<Record>, user: Option<string>, date: Option<string>)
    requires !Given(user) && !Given(date)
    ensures Find(db1, SearchParams(user, date)) + Find(db2, SearchParams(user, date)) == db1 + db2
  {
    assert SearchParams(user, date) == [];
    FindAll(db1);
    FindAll(db2);
  }

  /** `str(item.get("Repeatable?", "")).lower().startswith("y")`. */
  predicate IsRepeatable(item: Record)
  {
    StartsWithY(GetOr(item, "Repeatable?", Str("")))
  }

  /** `str(item.get("Blocker?", "")).lower().startswith("y")`. */
  predicate IsBlocker(item: Record)
  {
    StartsWithY(GetOr(item, "Blocker?", Str("")))
  }

  /** A candidate survives the `continue` statements of the loop. */
  predicate Passes(item: Record, repeatable: bool, blocker: bool)
  {
    (!repeatable || IsRepeatable(item)) && (!blocker || IsBlocker(item))
  }

  /** An attribute test passes exactly when the field is present and holds
      a string that starts with `y` or `Y`. */
  lemma AttributeTests(item: Record)
    ensures IsRepeatable(item) <==> exists rest ::
      Get(item, "Repeatable?") == Some(Str(['y'] + rest)) || Get(item, "Repeatable?") == Some(Str(['Y'] + rest))
    ensures IsBlocker(item) <==> exists rest ::
      Get(item, "Blocker?") == Some(Str(['y'] + rest)) || Get(item, "Blocker?") == Some(Str(['Y'] + rest))
  {
    StartsWithYIff(GetOr(item, "Repeatable?", Str("")));
    StartsWithYIff(GetOr(item, "Blocker?", Str("")));
  }

  /** A missing attribute counts as `""`, so it fails its test. */
  lemma MissingAttributeFails(item: Record)
    ensures "Repeatable?" !in KeysOf(item) ==> !Passes(item, true, false)
    ensures "Blocker?" !in KeysOf(item) ==> !Passes(item, false, true)
  {
  }

  /** The candidates that survive the attribute tests, in order. */
  function Filter(xs: seq<Record>, repeatable: bool, blocker: bool): seq<Record>
  {
    if xs == [] then []
    else
      var n := |xs| - 1;
      Filter(xs[..n], repeatable, blocker) + (if Passes(xs[n], repeatable, blocker) then [xs[n]] else [])
  }

  /** Exactly the candidates that pass both requested tests survive. */
  lemma {:induction false} FilterMembers(xs: seq<Record>, repeatable: bool, blocker: bool)
    ensures forall x :: x in Filter(xs, repeatable, blocker) <==> x in xs && Passes(x, repeatable, blocker)
  {
    if xs != [] {
      var n := |xs| - 1;
      FilterMembers(xs[..n], repeatable, blocker);
      assert xs == xs[..n] + [xs[n]];
    }
  }

  lemma FilterSnoc(xs: seq<Record>, x: Record, repeatable: bool, blocker: bool)
    ensures Filter(xs + [x], repeatable, blocker) ==
      Filter(xs, repeatable, blocker) + (if Passes(x, repeatable, blocker) then [x] else [])
  {
    assert (xs + [x])[..|xs|] == xs;
  }

  lemma {:induction false} FilterAppend(a: seq<Record>, b: seq<Record>, repeatable: bool, blocker: bool)
    ensures Filter(a + b, repeatable, blocker) == Filter(a, repeatable, blocker) + Filter(b, repeatable, blocker)
    decreases |b|
  {
    if b == [] {
      assert a + b == a;
    } else {
      var n := |b| - 1;
      assert (a + b)[..|a + b| - 1] == a + b[..n];
      assert (a + b)[|a + b| - 1] == b[n];
      FilterAppend(a, b[..n], repeatable, blocker);
    }
  }

  type Key = (Value, Value, Value)

  /** `(item.get("Test Case"), item.get("Test Owner"), item.get("Build #"))`:
      a missing field and a field holding `None` give the same component. */
  function KeyOf(item: Record): Key
  {
    (GetOr(item, "Test Case", Null), GetOr(item, "Test Owner", Null), GetOr(item, "Build #", Null))
  }

  /** `item.pop("_id", None)`. */
  function StripId(item: Record): Record
  {
    Remove(item, "_id")
  }

  /** Dropping `_id` leaves the key alone. */
  lemma StripIdSpec(item: Record)
    ensures "_id" !in KeysOf(StripId(item))
    ensures KeyOf(StripId(item)) == KeyOf(item)
  {
  }

  /** Some record of `xs` has key `k`: `k` is in `unique_set` once `xs`
      has been seen. */
  predicate HasKey(xs: seq<Record>, k: Key)
  {
    exists i {:trigger KeyOf(xs[i])} :: 0 <= i < |xs| && KeyOf(xs[i]) == k
  }

  lemma HasKeyAppend(a: seq<Record>, b: seq<Record>, k: Key)
    ensures HasKey(a + b, k) <==> HasKey(a, k) || HasKey(b, k)
  {
    if HasKey(a + b, k) {
      var i :| 0 <= i < |a + b| && KeyOf((a + b)[i]) == k;
      if i >= |a| {
        assert (a + b)[i] == b[i - |a|];
      }
    }
    if HasKey(a, k) {
      var i :| 0 <= i < |a| && KeyOf(a[i]) == k;
      assert (a + b)[i] == a[i];
    }
    if HasKey(b, k) {
      var i :| 0 <= i < |b| && KeyOf(b[i]) == k;
      assert (a + b)[|a| + i] == b[i];
    }
  }

  lemma HasKeyPrefix(a: seq<Record>, b: seq<Record>, k: Key)
    ensures HasKey(a, k) ==> HasKey(a + b, k)
  {
    if HasKey(a, k) {
      var i :| 0 <= i < |a| && KeyOf(a[i]) == k;
      assert (a + b)[i] == a[i];
    }
  }

  lemma HasKeySnoc(xs: seq<Record>, x: Record, k: Key)
    ensures HasKey(xs + [x], k) <==> HasKey(xs, k) || KeyOf(x) == k
  {
    HasKeyAppend(xs, [x], k);
    assert HasKey([x], k) <==> KeyOf(x) == k by {
      assert [x][0] == x;
    }
  }

  /** The first-wins deduplication: each record whose key no earlier record
      had, stripped of `_id`, in order. */
  function KeepFirst(xs: seq<Record>): seq<Record>
  {
    if xs == [] then []
    else
      var n := |xs| - 1;
      var p := KeepFirst(xs[..n]);
      if HasKey(xs[..n], KeyOf(xs[n])) then p else p + [StripId(xs[n])]
  }

  lemma KeepFirstSnoc(xs: seq<Record>, x: Record)
    ensures KeepFirst(xs + [x]) ==
      if HasKey(xs, KeyOf(x)) then KeepFirst(xs) else KeepFirst(xs) + [StripId(x)]
  {
    assert (xs + [x])[..|xs|] == xs;
  }

  /** The deduplicated records have the keys of the input, no two the same,
      and none has an `_id`. */
  lemma {:induction false} KeepFirstSpec(xs: seq<Record>)
    ensures forall k :: HasKey(KeepFirst(xs), k) <==> HasKey(xs, k)
    ensures forall i, j :: 0 <= i < j < |KeepFirst(xs)| ==> KeyOf(KeepFirst(xs)[i]) != KeyOf(KeepFirst(xs)[j])
    ensures forall i :: 0 <= i < |KeepFirst(xs)| ==> "_id" !in KeysOf(KeepFirst(xs)[i])
  {
    if xs != [] {
      var n := |xs| - 1;
      KeepFirstSpec(xs[..n]);
      LastSplit(xs);
      KeepFirstSpecStep(xs[..n], xs[n]);
    }
  }

  lemma KeepFirstSpecStep(init: seq<Record>, x: Record)
    requires forall k :: HasKey(KeepFirst(init), k) <==> HasKey(init, k)
    requires forall i, j :: 0 <= i < j < |KeepFirst(init)| ==> KeyOf(KeepFirst(init)[i]) != KeyOf(KeepFirst(init)[j])
    requires forall i :: 0 <= i < |KeepFirst(init)| ==> "_id" !in KeysOf(KeepFirst(init)[i])
    ensures forall k :: HasKey(KeepFirst(init + [x]), k) <==> HasKey(init + [x], k)
    ensures forall i, j :: 0 <= i < j < |KeepFirst(init + [x])| ==>
      KeyOf(KeepFirst(init + [x])[i]) != KeyOf(KeepFirst(init + [x])[j])
    ensures forall i :: 0 <= i < |KeepFirst(init + [x])| ==> "_id" !in KeysOf(KeepFirst(init + [x])[i])
  {
    KeepFirstSnoc(init, x);
    var p := KeepFirst(init);
    StripIdSpec(x);
    forall k ensures HasKey(KeepFirst(init + [x]), k) <==> HasKey(init + [x], k) {
      HasKeySnoc(init, x, k);
      HasKeySnoc(p, StripId(x), k);
    }
    if !HasKey(init, KeyOf(x)) {
      forall i | 0 <= i < |p| ensures KeyOf(p[i]) != KeyOf(x) {
        assert HasKey(p, KeyOf(p[i]));
      }
    }
  }

  /** What the script keeps: the surviving candidates, deduplicated. */
  function Select(results: seq<Record>, repeatable: bool, blocker: bool): seq<Record>
  {
    KeepFirst(Filter(results, repeatable, blocker))
  }

  /** Position `j` holds the first record with its key. */
  predicate FirstOfKey(xs: seq<Record>, j: int)
  {
    0 <= j < |xs| && forall i :: 0 <= i < j ==> KeyOf(xs[i]) != KeyOf(xs[j])
  }

  lemma FirstOfKeySnoc(ys: seq<Record>, x: Record)
    ensures forall j :: 0 <= j < |ys| ==> (FirstOfKey(ys + [x], j) <==> FirstOfKey(ys, j))
    ensures FirstOfKey(ys + [x], |ys|) <==> !HasKey(ys, KeyOf(x))
  {
    var zs := ys + [x];
    assert forall i :: 0 <= i < |ys| ==> zs[i] == ys[i];
  }

  /** The deduplicated sequence is the subsequence of first occurrences,
      stripped: `idx` lists the positions it keeps, in increasing order;
      each kept position is the first of its key, and every first position
      is kept. */
  lemma {:induction false} KeepFirstPositions(xs: seq<Record>) returns (idx: seq<nat>)
    ensures |idx| == |KeepFirst(xs)|
    ensures forall k :: 0 <= k < |idx| ==>
      FirstOfKey(xs, idx[k]) && KeepFirst(xs)[k] == StripId(xs[idx[k]])
    ensures forall k, l :: 0 <= k < l < |idx| ==> idx[k] < idx[l]
    ensures forall j :: FirstOfKey(xs, j) ==> j in idx
  {
    if xs == [] {
      idx := [];
    } else {
      var n := |xs| - 1;
      var idx0 := KeepFirstPositions(xs[..n]);
      LastSplit(xs);
      idx := KeepFirstPositionsStep(xs[..n], xs[n], idx0);
    }
  }

  lemma KeepFirstPositionsStep(init: seq<Record>, x: Record, idx0: seq<nat>) returns (idx: seq<nat>)
    requires |idx0| == |KeepFirst(init)|
    requires forall k :: 0 <= k < |idx0| ==>
      FirstOfKey(init, idx0[k]) && KeepFirst(init)[k] == StripId(init[idx0[k]])
    requires forall k, l :: 0 <= k < l < |idx0| ==> idx0[k] < idx0[l]
    requires forall j :: FirstOfKey(init, j) ==> j in idx0
    ensures |idx| == |KeepFirst(init + [x])|
    ensures forall k :: 0 <= k < |idx| ==>
      FirstOfKey(init + [x], idx[k]) && KeepFirst(init + [x])[k] == StripId((init + [x])[idx[k]])
    ensures forall k, l :: 0 <= k < l < |idx| ==> idx[k] < idx[l]
    ensures forall j :: FirstOfKey(init + [x], j) ==> j in idx
  {
    var xs := init + [x];
    KeepFirstSnoc(init, x);
    FirstOfKeySnoc(init, x);
    assert forall i :: 0 <= i < |init| ==> xs[i] == init[i];
    if HasKey(init, KeyOf(x)) {
      idx := idx0;
    } else {
      idx := idx0 + [|init|];
    }
  }

  /** Deduplicating a concatenation extends the deduplication of its first
      part, and whatever it adds has a key the first part did not have: a
      record from db1 wins over every later one with its key. */
  lemma {:induction false} KeepFirstAppend(a: seq<Record>, b: seq<Record>) returns (added: seq<Record>)
    ensures KeepFirst(a + b) == KeepFirst(a) + added
    ensures forall k :: 0 <= k < |added| ==> !HasKey(a, KeyOf(added[k]))
    decreases |b|
  {
    if b == [] {
      assert a + b == a;
      added := [];
    } else {
      var n := |b| - 1;
      var added0 := KeepFirstAppend(a, b[..n]);
      AppendSnoc(a, b);
      added := KeepFirstAppendStep(a, b[..n], b[n], added0);
    }
  }

  lemma AppendSnoc(a: seq<Record>, b: seq<Record>)
    requires b != []
    ensures a + b == (a + b[..|b| - 1]) + [b[|b| - 1]]
  {
    assert a + b == (a + b[..|b| - 1]) + [b[|b| - 1]];
  }

  lemma KeepFirstAppendStep(a: seq<Record>, c: seq<Record>, x: Record, added0: seq<Record>) returns (added: seq<Record>)
    requires KeepFirst(a + c) == KeepFirst(a) + added0
    requires forall k :: 0 <= k < |added0| ==> !HasKey(a, KeyOf(added0[k]))
    ensures KeepFirst((a + c) + [x]) == KeepFirst(a) + added
    ensures forall k :: 0 <= k < |added| ==> !HasKey(a, KeyOf(added[k]))
  {
    KeepFirstSnoc(a + c, x);
    if HasKey(a + c, KeyOf(x)) {
      added := added0;
    } else {
      HasKeyPrefix(a, c, KeyOf(x));
      StripIdSpec(x);
      added := added0 + [StripId(x)];
    }
  }

  /** Across the two partitions: the final results start with db1's
      surviving matches, deduplicated, and every later record comes from
      db2 with a key none of db1's surviving matches has. */
  lemma Db1Wins(m1: seq<Record>, m2: seq<Record>, repeatable: bool, blocker: bool)
    ensures var first := Select(m1, repeatable, blocker);
      var all := Select(m1 + m2, repeatable, blocker);
      |first| <= |all| && all[..|first|] == first &&
      forall k :: |first| <= k < |all| ==> !HasKey(Filter(m1, repeatable, blocker), KeyOf(all[k]))
  {
    FilterAppend(m1, m2, repeatable, blocker);
    var f1 := Filter(m1, repeatable, blocker);
    var added := KeepFirstAppend(f1, Filter(m2, repeatable, blocker));
    var first, all := KeepFirst(f1), Select(m1 + m2, repeatable, blocker);
    assert all == first + added;
    assert all[..|first|] == first;
    assert forall k :: |first| <= k < |all| ==> all[k] == added[k - |first|];
  }

  /** A candidate that fails the attribute tests claims no key: a later
      surviving record with that key is still kept, if no earlier survivor
      had it. */
  lemma FilteredOutClaimsNothing(xs: seq<Record>, repeatable: bool, blocker: bool, j: nat)
    requires j < |xs| && Passes(xs[j], repeatable, blocker)
    requires forall i :: 0 <= i < j && KeyOf(xs[i]) == KeyOf(xs[j]) ==> !Passes(xs[i], repeatable, blocker)
    ensures StripId(xs[j]) in Select(xs, repeatable, blocker)
  {
    var pre := xs[..j];
    var fa := Filter(pre, repeatable, blocker);
    FilterMembers(pre, repeatable, blocker);
    assert !HasKey(fa, KeyOf(xs[j])) by {
      forall i | 0 <= i < |fa| ensures KeyOf(fa[i]) != KeyOf(xs[j]) {
        assert fa[i] in pre;
        var i' :| 0 <= i' < |pre| && pre[i'] == fa[i];
        assert xs[i'] == pre[i'];
      }
    }
    var added := SelectPrefix(xs, j, repeatable, blocker);
    KeepFirstSnoc(fa, xs[j]);
    var all := Select(xs, repeatable, blocker);
    assert all == KeepFirst(fa) + [StripId(xs[j])] + added;
    assert all[|KeepFirst(fa)|] == StripId(xs[j]);
  }

  /** When `xs[j]` survives, deduplicating all of `xs` extends deduplicating
      the survivors of `xs[..j]` followed by `xs[j]`. */
  lemma SelectPrefix(xs: seq<Record>, j: nat, repeatable: bool, blocker: bool) returns (added: seq<Record>)
    requires j < |xs| && Passes(xs[j], repeatable, blocker)
    ensures Select(xs, repeatable, blocker) == KeepFirst(Filter(xs[..j], repeatable, blocker) + [xs[j]]) + added
  {
    FilterStep(xs, j, repeatable, blocker);
    var rest := xs[j + 1..];
    assert xs == xs[..j + 1] + rest;
    FilterAppend(xs[..j + 1], rest, repeatable, blocker);
    added := KeepFirstAppend(Filter(xs[..j + 1], repeatable, blocker), Filter(rest, repeatable, blocker));
  }

  lemma FilterStep(results: seq<Record>, i: nat, repeatable: bool, blocker: bool)
    requires i < |results|
    ensures Filter(results[..i + 1], repeatable, blocker) ==
      Filter(results[..i], repeatable, blocker) + (if Passes(results[i], repeatable, blocker) then [results[i]] else [])
  {
    assert results[..i + 1] == results[..i] + [results[i]];
    FilterSnoc(results[..i], results[i], repeatable, blocker);
  }

  /** Adding a surviving record's key to the set keeps it the set of keys
      seen so far; a key already there leaves the set as it is. */
  lemma SeenStep(seen: seq<Record>, item: Record, uniqueSet: set<Key>)
    requires forall k :: k in uniqueSet <==> HasKey(seen, k)
    ensures forall k :: k in uniqueSet + {KeyOf(item)} <==> HasKey(seen + [item], k)
    ensures KeyOf(item) in uniqueSet ==> forall k :: k in uniqueSet <==> HasKey(seen + [item], k)
  {
    forall k ensures HasKey(seen + [item], k) <==> HasKey(seen, k) || KeyOf(item) == k {
      HasKeySnoc(seen, item, k);
    }
  }

  /** The filter and dedup loop of the script: `continue` past a candidate
      that fails a requested test, keep an unseen key, strip its `_id` and
      append it. */
  method FilterDedup(results: seq<Record>, repeatable: bool, blocker: bool) returns (finalResults: seq<Record>)
    ensures finalResults == Select(results, repeatable, blocker)
  {
    finalResults := [];
    var uniqueSet: set<Key> := {};
    ghost var seen: seq<Record> := [];
    for i := 0 to |results|
      invariant seen == Filter(results[..i], repeatable, blocker)
      invariant finalResults == KeepFirst(seen)
      invariant forall k :: k in uniqueSet <==> HasKey(seen, k)
    {
      var item := results[i];
      FilterStep(results, i, repeatable, blocker);
      if repeatable && !IsRepeatable(item) {
        continue;
      }
      if blocker && !IsBlocker(item) {
        continue;
      }
      KeepFirstSnoc(seen, item);
      SeenStep(seen, item, uniqueSet);
      seen := seen + [item];
      var uniqueKey := KeyOf(item);
      if uniqueKey !in uniqueSet {
        uniqueSet := uniqueSet + {uniqueKey};
        finalResults := finalResults + [StripId(item)];
      }
    }
    assert results[..|results|] == results;
  }

  /** What the export reports. `Rejected(row)`: `csv.DictWriter` raises
      `ValueError` at that row, which has a field the header lacks. */
  datatype Report = NoResults | Exported(header: seq<string>, count: nat) | Rejected(row: nat)

  predicate Conforms(r: Record, header: seq<string>)
  {
    forall i :: 0 <= i < |r| ==> r[i].0 in header
  }

  /** The number of leading records all of whose fields are in `header`. */
  function ConformingPrefix(rs: seq<Record>, header: seq<string>): (n: nat)
    ensures n <= |rs|
    ensures forall i :: 0 <= i < n ==> Conforms(rs[i], header)
    ensures n < |rs| ==> !Conforms(rs[n], header)
  {
    if rs == [] || !Conforms(rs[0], header) then 0
    else
      var n := 1 + ConformingPrefix(rs[1..], header);
      assert forall i :: 1 <= i < n ==> rs[i] == rs[1..][i - 1];
      n
  }

  /** The export: nothing to write for an empty result; otherwise the header
      is the first record's keys, and the writer either writes every record
      or stops at the first one with a field outside that header. */
  function Export(finalResults: seq<Record>): (rep: Report)
    ensures rep.NoResults? <==> finalResults == []
    ensures rep.Exported? <==>
      finalResults != [] && forall i :: 0 <= i < |finalResults| ==> Conforms(finalResults[i], KeysOf(finalResults[0]))
    ensures rep.Exported? ==> rep.header == KeysOf(finalResults[0]) && rep.count == |finalResults|
    ensures rep.Rejected? ==> rep.row < |finalResults| && !Conforms(finalResults[rep.row], KeysOf(finalResults[0]))
  {
    if finalResults == [] then NoResults
    else
      var header := KeysOf(finalResults[0]);
      var n := ConformingPrefix(finalResults, header);
      if n == |finalResults| then Exported(header, n) else Rejected(n)
  }

  /** The number a string of decimal digits denotes. */
  function DecimalValue(s: string): nat
    requires forall i :: 0 <= i < |s| ==> IsDigit(s[i])
  {
    if s == [] then 0 else 10 * DecimalValue(s[..|s| - 1]) + DigitValue(s[|s| - 1])
  }

  /** `str(n)` for a count: decimal digits without a leading zero that
      denote `n`. */
  function NatToString(n: nat): (s: string)
    ensures |s| > 0
    ensures forall i :: 0 <= i < |s| ==> IsDigit(s[i])
    ensures DecimalValue(s) == n
    ensures |s| > 1 ==> s[0] != '0'
    ensures s == "0" <==> n == 0
  {
    if n < 10 then [DigitChar(n)] else NatToString(n / 10) + [DigitChar(n % 10)]
  }

  /** The line the script prints; `None` when the writer raised instead. */
  function Summary(rep: Report): (line: Option<string>)
    ensures line.Some? <==> !rep.Rejected?
    ensures rep.NoResults? ==> line == Some("No results to export.")
    ensures rep.Exported? ==> line == Some("Exported " + NatToString(rep.count) + " records to output.csv")
  {
    match rep
    case NoResults => Some("No results to export.")
    case Exported(_, n) => Some("Exported " + NatToString(n) + " records to output.csv")
    case Rejected(_) => None
  }

  /** After a successful export the printed line gives `len(final_results)`
      in decimal. */
  lemma SummaryExported(finalResults: seq<Record>)
    ensures Export(finalResults).Exported? ==>
      Summary(Export(finalResults)) == Some("Exported " + NatToString(|finalResults|) + " records to output.csv") &&
      DecimalValue(NatToString(|finalResults|)) == |finalResults|
  {
  }

  /** The printed line says "No results to export." exactly when the result
      is empty. */
  lemma SummaryNoResults(finalResults: seq<Record>)
    ensures Summary(Export(finalResults)) == Some("No results to export.") <==> finalResults == []
  {
    var rep := Export(finalResults);
    if rep.Exported? {
      assert Summary(rep).value[0] == 'E';
    }
  }

  /** The header the export writes: the first kept record's keys, each once
      (when records are well formed), and never `_id`. */
  lemma ExportHeader(results: seq<Record>, repeatable: bool, blocker: bool)
    requires forall i :: 0 <= i < |results| ==> WellFormed(results[i])
    ensures var final := Select(results, repeatable, blocker);
      Export(final).Exported? ==> "_id" !in Export(final).header && Distinct(Export(final).header)
  {
    var final := Select(results, repeatable, blocker);
    if final != [] {
      var idx := KeepFirstPositions(Filter(results, repeatable, blocker));
      var j := idx[0];
      FilterMembers(results, repeatable, blocker);
      var f := Filter(results, repeatable, blocker);
      assert f[j] in results;
      RemoveWellFormed(f[j], "_id");
    }
  }
}
