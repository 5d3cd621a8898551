/** Python's insertion-ordered `dict` with string keys, as a sequence of entries. */
module Dicts {
  import opened Wrappers

  type Dict<V> = seq<(string, V)>

  /** The keys in insertion order, as `list(d)`. */
  function Keys<V>(d: Dict<V>): (ks: seq<string>)
    ensures |ks| == |d|
    ensures forall i :: 0 <= i < |d| ==> ks[i] == d[i].0
  {
    seq(|d|, i requires 0 <= i < |d| => d[i].0)
  }

  /** No key occurs twice, as in every real `dict`. */
  ghost predicate DistinctKeys<V>(d: Dict<V>)
  {
    forall i, j :: 0 <= i < j < |d| ==> d[i].0 != d[j].0
  }

  /** Position of the first entry with key `k`, or `|d|` when there is none. */
  function IndexOf<V>(d: Dict<V>, k: string): (i: nat)
    ensures i <= |d|
    ensures i < |d| ==> d[i].0 == k
    ensures forall j :: 0 <= j < i ==> d[j].0 != k
  {
    if d == [] then 0
    else if d[0].0 == k then 0
    else 1 + IndexOf(d[1..], k)
  }

  /** The first position holding `k` is determined by the entries before it. */
  lemma IndexOfUnique<V>(d: Dict<V>, k: string, i: nat)
    requires i <= |d|
    requires i < |d| ==> d[i].0 == k
    requires forall j :: 0 <= j < i ==> d[j].0 != k
    ensures IndexOf(d, k) == i
  {
  }

  /** `d.get(k)`: the value stored under `k`, if any. */
  function Lookup<V>(d: Dict<V>, k: string): (r: Option<V>)
    ensures r.Some? <==> k in Keys(d)
    ensures r.Some? ==> (k, r.value) in d
  {
    var i := IndexOf(d, k);
    if i < |d| then Some(d[i].1)
    else
      assert forall j :: 0 <= j < |d| ==> Keys(d)[j] != k;
      None
  }

  /** `d[k] = v`: overwrites the value in place when `k` is present, appends otherwise. */
  function Put<V>(d: Dict<V>, k: string, v: V): (r: Dict<V>)
    ensures Lookup(r, k) == Some(v)
    ensures forall k' :: k' != k ==> Lookup(r, k') == Lookup(d, k')
    ensures Keys(r) == if k in Keys(d) then Keys(d) else Keys(d) + [k]
  {
    var i := IndexOf(d, k);
    var r := if i < |d| then d[i := (k, v)] else d + [(k, v)];
    IndexOfUnique(r, k, i);
    assert forall k' :: k' != k ==> Lookup(r, k') == Lookup(d, k') by {
      forall k' | k' != k
        ensures Lookup(r, k') == Lookup(d, k')
      {
        var j := IndexOf(d, k');
        if j == |d| {
          IndexOfUnique(r, k', |r|);
        } else {
          IndexOfUnique(r, k', j);
        }
      }
    }
    assert Keys(r) == if k in Keys(d) then Keys(d) else Keys(d) + [k] by {
      if i == |d| {
        assert Lookup(d, k).None?;
      }
    }
    r
  }

  /** Writing a new key appends its entry at the end. */
  lemma PutFresh<V>(d: Dict<V>, k: string, v: V)
    requires k !in Keys(d)
    ensures Put(d, k, v) == d + [(k, v)]
  {
    assert forall j :: 0 <= j < |d| ==> d[j].0 != k by {
      forall j | 0 <= j < |d|
        ensures d[j].0 != k
      {
        assert Keys(d)[j] == d[j].0;
      }
    }
    IndexOfUnique(d, k, |d|);
  }

  /** Writing a key never introduces a duplicate key. */
  lemma PutDistinct<V>(d: Dict<V>, k: string, v: V)
    requires DistinctKeys(d)
    ensures DistinctKeys(Put(d, k, v))
  {
    var r := Put(d, k, v);
    forall i, j | 0 <= i < j < |r|
      ensures r[i].0 != r[j].0
    {
      assert Keys(r)[i] == r[i].0 && Keys(r)[j] == r[j].0;
      if k !in Keys(d) && j == |d| {
        assert Keys(r)[i] == Keys(d)[i];
      } else {
        assert Keys(r)[i] == Keys(d)[i] && Keys(r)[j] == Keys(d)[j];
      }
    }
  }

  /** Dropping the first entry of a dict with distinct keys keeps every other key's value. */
  lemma LookupTail<V>(e: Dict<V>, k: string)
    requires DistinctKeys(e) && e != [] && k != e[0].0
    ensures Lookup(e[1..], k) == Lookup(e, k)
  {
    var j := IndexOf(e[1..], k);
    IndexOfUnique(e, k, j + 1);
  }

  lemma KeysTail<V>(e: Dict<V>)
    requires e != []
    ensures Keys(e) == [e[0].0] + Keys(e[1..])
  {
  }

  /** `d.update(e)`: every entry of `e`, in order, written into `d`. */
  function Update<V>(d: Dict<V>, e: Dict<V>): Dict<V>
    decreases |e|
  {
    if e == [] then d else Update(Put(d, e[0].0, e[0].1), e[1..])
  }

  /** After `d.update(e)` a key has its value from `e` when `e` has it, and keeps its value from `d` otherwise. */
  lemma {:induction false} UpdateLookup<V>(d: Dict<V>, e: Dict<V>, k: string)
    requires DistinctKeys(e)
    ensures Lookup(Update(d, e), k) == if k in Keys(e) then Lookup(e, k) else Lookup(d, k)
    decreases |e|
  {
    if e != [] {
      UpdateLookup(Put(d, e[0].0, e[0].1), e[1..], k);
      KeysTail(e);
      if k == e[0].0 {
        IndexOfUnique(e, k, 0);
        assert k !in Keys(e[1..]);
      } else {
        LookupTail(e, k);
      }
    }
  }

  /** Updating with one more entry at the end is updating, then writing that entry. */
  lemma {:induction false} UpdateSnoc<V>(d: Dict<V>, e: Dict<V>, k: string, v: V)
    ensures Update(d, e + [(k, v)]) == Put(Update(d, e), k, v)
    decreases |e|
  {
    if e == [] {
      assert e + [(k, v)] == [(k, v)];
    } else {
      assert (e + [(k, v)])[1..] == e[1..] + [(k, v)];
      UpdateSnoc(Put(d, e[0].0, e[0].1), e[1..], k, v);
    }
  }

  /**
   * Updating with entries that may repeat a key: a key no entry names keeps its value, and a
   * named key gets the value of the last entry naming it.
   */
  lemma {:induction false} UpdateUnnamed<V>(d: Dict<V>, e: Dict<V>, k: string)
    requires forall j :: 0 <= j < |e| ==> e[j].0 != k
    ensures Lookup(Update(d, e), k) == Lookup(d, k)
    decreases |e|
  {
    if e != [] {
      var init := e[..|e| - 1];
      assert e == init + [e[|e| - 1]];
      UpdateSnoc(d, init, e[|e| - 1].0, e[|e| - 1].1);
      UpdateUnnamed(d, init, k);
    }
  }

  /** The entry at position `j` names `k`, and no later entry does. */
  ghost predicate LastEntryFor<V>(e: Dict<V>, k: string, j: nat)
  {
    j < |e| && e[j].0 == k && forall j' :: j < j' < |e| ==> e[j'].0 != k
  }

  lemma {:induction false} UpdateLastEntry<V>(d: Dict<V>, e: Dict<V>, k: string, j: nat)
    requires LastEntryFor(e, k, j)
    ensures Lookup(Update(d, e), k) == Some(e[j].1)
    decreases |e|
  {
    var init := e[..|e| - 1];
    assert e == init + [e[|e| - 1]];
    UpdateSnoc(d, init, e[|e| - 1].0, e[|e| - 1].1);
    if j < |e| - 1 {
      UpdateLastEntry(d, init, k, j);
    }
  }

  /** The keys after an update are those of either side. */
  lemma {:induction false} UpdateKeys<V>(d: Dict<V>, e: Dict<V>, k: string)
    ensures k in Keys(Update(d, e)) <==> k in Keys(d) || k in Keys(e)
    decreases |e|
  {
    if e != [] {
      var d' := Put(d, e[0].0, e[0].1);
      UpdateKeys(d', e[1..], k);
      KeysTail(e);
      assert k in Keys(d') <==> k in Keys(d) || k == e[0].0;
    }
  }

  /** Updating keeps the keys distinct. */
  lemma {:induction false} UpdateDistinct<V>(d: Dict<V>, e: Dict<V>)
    requires DistinctKeys(d)
    ensures DistinctKeys(Update(d, e))
    decreases |e|
  {
    if e != [] {
      PutDistinct(d, e[0].0, e[0].1);
      UpdateDistinct(Put(d, e[0].0, e[0].1), e[1..]);
    }
  }
}
