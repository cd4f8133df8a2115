/** A record: what the script builds from a row and what the store hands
    back, a Python `dict` from field names to values. Its keys keep the
    order in which they were first inserted, which decides the header of an
    export. */
module Records {
  import opened Cells

  type Record = seq<(string, Value)>

  /** A non-empty sequence is its front followed by its last element. */
  lemma LastSplit<T>(xs: seq<T>)
    requires xs != []
    ensures xs == xs[..|xs| - 1] + [xs[|xs| - 1]]
  {
  }

  function KeysOf(r: Record): (ks: seq<string>)
    ensures |ks| == |r|
    ensures forall i :: 0 <= i < |r| ==> ks[i] == r[i].0
  {
    if r == [] then [] else [r[0].0] + KeysOf(r[1..])
  }

  predicate Distinct(ks: seq<string>)
  {
    forall i, j :: 0 <= i < j < |ks| ==> ks[i] != ks[j]
  }

  /** A `dict` holds each key once. */
  predicate WellFormed(r: Record)
  {
    Distinct(KeysOf(r))
  }

  /** `k in r and r[k]`: the value stored under `k`, if any. */
  function Get(r: Record, k: string): (o: Option<Value>)
    ensures o.Some? <==> k in KeysOf(r)
  {
    if r == [] then None
    else if r[0].0 == k then Some(r[0].1)
    else Get(r[1..], k)
  }

  /** `r.get(k, default)`. */
  function GetOr(r: Record, k: string, default: Value): Value
  {
    match Get(r, k)
    case Some(v) => v
    case None => default
  }

  /** `r[k] = v`. */
  function Put(r: Record, k: string, v: Value): Record
  {
    if r == [] then [(k, v)]
    else if r[0].0 == k then [(k, v)] + r[1..]
    else [r[0]] + Put(r[1..], k, v)
  }

  /** After `r[k] = v` the new value is found under `k` and every other key
      keeps its value. */
  lemma {:induction false} PutGet(r: Record, k: string, v: Value, k': string)
    ensures Get(Put(r, k, v), k') == if k' == k then Some(v) else Get(r, k')
  {
    if r != [] && r[0].0 != k {
      PutGet(r[1..], k, v, k');
      var tail := Put(r[1..], k, v);
      assert ([r[0]] + tail)[1..] == tail;
    } else if r != [] {
      assert ([(k, v)] + r[1..])[1..] == r[1..];
    }
  }

  /** A key already present keeps its place. */
  lemma {:induction false} PutPresentKey(r: Record, k: string, v: Value)
    requires k in KeysOf(r)
    ensures KeysOf(Put(r, k, v)) == KeysOf(r)
  {
    if r[0].0 == k {
      assert ([(k, v)] + r[1..])[1..] == r[1..];
    } else {
      var tail := Put(r[1..], k, v);
      assert ([r[0]] + tail)[1..] == tail;
      PutPresentKey(r[1..], k, v);
    }
  }

  /** A new key goes at the end. */
  lemma {:induction false} PutNewKey(r: Record, k: string, v: Value)
    requires k !in KeysOf(r)
    ensures KeysOf(Put(r, k, v)) == KeysOf(r) + [k]
  {
    if r != [] {
      var tail := Put(r[1..], k, v);
      assert ([r[0]] + tail)[1..] == tail;
      PutNewKey(r[1..], k, v);
      assert [r[0].0] + (KeysOf(r[1..]) + [k]) == KeysOf(r) + [k];
    }
  }

  lemma PutKeys(r: Record, k: string, v: Value)
    ensures KeysOf(Put(r, k, v)) == if k in KeysOf(r) then KeysOf(r) else KeysOf(r) + [k]
  {
    if k in KeysOf(r) { PutPresentKey(r, k, v); } else { PutNewKey(r, k, v); }
  }

  lemma PutWellFormed(r: Record, k: string, v: Value)
    requires WellFormed(r)
    ensures WellFormed(Put(r, k, v))
  {
    PutKeys(r, k, v);
  }

  /** `r.pop(k, None)`: `r` without the field `k`; every other key keeps its
      value. */
  function Remove(r: Record, k: string): (r': Record)
    ensures Get(r', k) == None
    ensures forall k' :: k' != k ==> Get(r', k') == Get(r, k')
  {
    if r == [] then []
    else if r[0].0 == k then Remove(r[1..], k)
    else [r[0]] + Remove(r[1..], k)
  }

  /** The remaining keys are the old ones but `k`. */
  lemma {:induction false} RemoveKeySet(r: Record, k: string)
    ensures forall k' :: k' in KeysOf(Remove(r, k)) <==> k' in KeysOf(r) && k' != k
  {
    if r != [] {
      RemoveKeySet(r[1..], k);
      if r[0].0 != k {
        var tail := Remove(r[1..], k);
        assert ([r[0]] + tail)[1..] == tail;
      }
    }
  }

  lemma {:induction false} RemoveWellFormed(r: Record, k: string)
    requires WellFormed(r)
    ensures WellFormed(Remove(r, k))
  {
    if r != [] {
      assert KeysOf(r) == [r[0].0] + KeysOf(r[1..]);
      assert WellFormed(r[1..]);
      RemoveWellFormed(r[1..], k);
      if r[0].0 != k {
        var tail := Remove(r[1..], k);
        assert ([r[0]] + tail)[1..] == tail;
        RemoveKeySet(r[1..], k);
        assert r[0].0 !in KeysOf(r[1..]);
      }
    }
  }

  /** Removing an absent key changes nothing. */
  lemma {:induction false} RemoveAbsent(r: Record, k: string)
    requires k !in KeysOf(r)
    ensures Remove(r, k) == r
  {
    if r != [] {
      RemoveAbsent(r[1..], k);
    }
  }

  /** Removing a field that was just put in front undoes the insertion. */
  lemma {:induction false} RemoveFront(r: Record, k: string, v: Value)
    requires k !in KeysOf(r)
    ensures Remove([(k, v)] + r, k) == r
  {
    assert ([(k, v)] + r)[1..] == r;
    RemoveAbsent(r, k);
  }

  /** No later position of `keys` repeats the key at position `i`. */
  predicate LastOf(keys: seq<string>, i: int)
    requires 0 <= i < |keys|
  {
    forall j :: i < j < |keys| ==> keys[j] != keys[i]
  }

  /** The record that inserting `keys[i]: vals[i]` for each `i` in order
      builds: a repeated key keeps its first place and its last value. */
  function Zip(keys: seq<string>, vals: seq<Value>): Record
    requires |vals| >= |keys|
  {
    if |keys| == 0 then []
    else
      var n := |keys| - 1;
      Put(Zip(keys[..n], vals), keys[n], vals[n])
  }

  /** `r[k] = v` adds `k` to the keys. */
  lemma PutKeySet(r: Record, k: string, v: Value, ks: seq<string>)
    requires forall k' :: k' in KeysOf(r) <==> k' in ks
    ensures forall k' :: k' in KeysOf(Put(r, k, v)) <==> k' in ks + [k]
  {
    PutKeys(r, k, v);
    forall k' ensures k' in KeysOf(Put(r, k, v)) <==> k' in ks + [k] {
      assert k' in ks + [k] <==> k' in ks || k' == k;
      assert k' in KeysOf(r) + [k] <==> k' in KeysOf(r) || k' == k;
    }
  }

  /** The record has exactly the given keys. */
  lemma {:induction false} ZipKeySet(keys: seq<string>, vals: seq<Value>)
    requires |vals| >= |keys|
    ensures forall k :: k in KeysOf(Zip(keys, vals)) <==> k in keys
  {
    if |keys| > 0 {
      var n := |keys| - 1;
      var p := Zip(keys[..n], vals);
      ZipKeySet(keys[..n], vals);
      PutKeySet(p, keys[n], vals[n], keys[..n]);
      LastSplit(keys);
    }
  }

  /** The key at a position that no later position repeats holds that
      position's value: a later duplicate overwrites an earlier one. */
  lemma {:induction false} ZipLastWins(keys: seq<string>, vals: seq<Value>)
    requires |vals| >= |keys|
    ensures forall i :: 0 <= i < |keys| && LastOf(keys, i) ==> Get(Zip(keys, vals), keys[i]) == Some(vals[i])
  {
    if |keys| > 0 {
      var n := |keys| - 1;
      var init := keys[..n];
      var p := Zip(init, vals);
      ZipLastWins(init, vals);
      forall i | 0 <= i < |keys| && LastOf(keys, i)
        ensures Get(Zip(keys, vals), keys[i]) == Some(vals[i])
      {
        PutGet(p, keys[n], vals[n], keys[i]);
        if i < n {
          assert init[i] == keys[i];
          assert LastOf(init, i);
        }
      }
    }
  }

  lemma {:induction false} ZipWellFormed(keys: seq<string>, vals: seq<Value>)
    requires |vals| >= |keys|
    ensures WellFormed(Zip(keys, vals))
  {
    if |keys| > 0 {
      var n := |keys| - 1;
      ZipWellFormed(keys[..n], vals);
      PutWellFormed(Zip(keys[..n], vals), keys[n], vals[n]);
    }
  }

  /** With keys that are all different, the record's keys are `keys` in
      order and each holds the value at its own position. */
  lemma {:induction false} ZipDistinct(keys: seq<string>, vals: seq<Value>)
    requires |vals| >= |keys|
    requires Distinct(keys)
    ensures KeysOf(Zip(keys, vals)) == keys
    ensures forall i :: 0 <= i < |keys| ==> Get(Zip(keys, vals), keys[i]) == Some(vals[i])
  {
    if |keys| > 0 {
      var n := |keys| - 1;
      var p := Zip(keys[..n], vals);
      ZipDistinct(keys[..n], vals);
      assert keys[n] !in KeysOf(p);
      PutNewKey(p, keys[n], vals[n]);
      assert keys[..n] + [keys[n]] == keys;
      ZipLastWins(keys, vals);
      forall i | 0 <= i < |keys| ensures LastOf(keys, i) { }
    }
  }
}
