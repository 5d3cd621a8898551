/** Row selection over the W-section catalog: comparison filters, the approximate band and the weight sort. */
module Sections {
  import opened Wrappers
  import opened Errors
  import opened Seqs
  import opened Dicts
  import opened Frames

  /** The numeric comparisons the query layer dispatches to, one per `sections_*` helper. */
  datatype Comparison = LessThan | LessThanOrEqual | GreaterThan | GreaterThanOrEqual | Equal | NotEqual

  function Compares(c: Comparison, x: real, v: real): bool
  {
    match c
    case LessThan => x < v
    case LessThanOrEqual => x <= v
    case GreaterThan => x > v
    case GreaterThanOrEqual => x >= v
    case Equal => x == v
    case NotEqual => x != v
  }

  /** Lower and upper factors of the approximate-equality band. */
  const BandLow: real := 0.90
  const BandHigh: real := 1.10

  /** A per-column row test: a comparison with the value, or membership of the band around it. */
  datatype Test = Compare(c: Comparison) | Band

  /**
   * Whether `rec` passes `t` on column `key` against `v`, as pandas evaluates the mask:
   * a missing cell is NaN, for which only `!=` holds.
   */
  function Passes(t: Test, rec: Record, key: string, v: real): bool
  {
    match t
    case Compare(c) => if key in rec.fields then Compares(c, rec.fields[key], v) else c == NotEqual
    case Band => key in rec.fields && v * BandLow <= rec.fields[key] <= v * BandHigh
  }

  /** `rec` passes `t` for every constraint of `kwargs`. */
  predicate PassesAll(t: Test, rec: Record, kwargs: Dict<real>)
  {
    forall i :: 0 <= i < |kwargs| ==> Passes(t, rec, kwargs[i].0, kwargs[i].1)
  }

  /** The row test of a whole set of constraints, as a function value. */
  function Conjunction(t: Test, kwargs: Dict<real>): Record -> bool
  {
    rec => PassesAll(t, rec, kwargs)
  }

  function Single(t: Test, key: string, v: real): Record -> bool
  {
    rec => Passes(t, rec, key, v)
  }

  /** Every constrained key is a column of `f`. */
  predicate KnownColumns(f: Frame, kwargs: Dict<real>)
  {
    forall i :: 0 <= i < |kwargs| ==> kwargs[i].0 in f.columns
  }

  /** `df.loc[mask]` for one column: `KeyError` for an unknown column, else the rows that pass, in order. */
  function Narrow(f: Frame, t: Test, key: string, v: real): (r: Result<Frame, Error>)
    ensures r.Failure? <==> key !in f.columns
    ensures r.Failure? ==> r.error == MissingColumn(key)
    ensures r.Success? ==> r.value.columns == f.columns
    ensures r.Success? ==> forall rec :: rec in r.value.records <==> rec in f.records && Passes(t, rec, key, v)
  {
    if key !in f.columns then
      Failure(MissingColumn(key))
    else
      var kept := Where(f.records, Single(t, key, v));
      assert forall rec :: rec in kept <==> rec in f.records && Passes(t, rec, key, v) by {
        forall rec
          ensures rec in kept <==> rec in f.records && Passes(t, rec, key, v)
        {
          WhereMembers(f.records, Single(t, key, v), rec);
        }
      }
      Success(Frame(f.columns, kept))
  }

  /**
   * The loop shared by `section_filter` and `sections_approx_equal`: narrow by each constraint in
   * turn, raising on the first unknown column. A narrowing that leaves no rows is not an error.
   */
  function NarrowAll(f: Frame, t: Test, kwargs: Dict<real>): (r: Result<Frame, Error>)
    ensures r.Success? <==> KnownColumns(f, kwargs)
    ensures r.Failure? ==> exists i :: 0 <= i < |kwargs| && kwargs[i].0 !in f.columns && r.error == MissingColumn(kwargs[i].0)
    ensures r.Success? ==> r.value.columns == f.columns
    decreases |kwargs|
  {
    if kwargs == [] then
      Success(f)
    else
      match Narrow(f, t, kwargs[0].0, kwargs[0].1)
      case Failure(e) => Failure(e)
      case Success(g) =>
        var r := NarrowAll(g, t, kwargs[1..]);
        assert KnownColumns(f, kwargs) <==> kwargs[0].0 in f.columns && KnownColumns(g, kwargs[1..]) by {
          assert forall i :: 1 <= i < |kwargs| ==> kwargs[1..][i - 1] == kwargs[i];
        }
        assert r.Failure? ==> exists i :: 0 <= i < |kwargs| && kwargs[i].0 !in f.columns && r.error == MissingColumn(kwargs[i].0) by {
          if r.Failure? {
            var i :| 0 <= i < |kwargs[1..]| && kwargs[1..][i].0 !in g.columns && r.error == MissingColumn(kwargs[1..][i].0);
            assert kwargs[i + 1] == kwargs[1..][i];
          }
        }
        r
  }

  /** Narrowing by each constraint in turn keeps exactly the rows that pass all of them, in their original order. */
  lemma {:induction false} NarrowAllKeepsConjunction(f: Frame, t: Test, kwargs: Dict<real>)
    requires KnownColumns(f, kwargs)
    ensures NarrowAll(f, t, kwargs) == Success(Frame(f.columns, Where(f.records, Conjunction(t, kwargs))))
    decreases |kwargs|
  {
    if kwargs == [] {
      WhereAll(f.records, Conjunction(t, kwargs));
    } else {
      var key := kwargs[0].0;
      var v := kwargs[0].1;
      var g := Narrow(f, t, key, v).value;
      var rest := kwargs[1..];
      assert KnownColumns(g, rest);
      NarrowAllKeepsConjunction(g, t, rest);
      forall i | 0 <= i < |f.records|
        ensures Conjunction(t, kwargs)(f.records[i]) == (Single(t, key, v)(f.records[i]) && Conjunction(t, rest)(f.records[i]))
      {
        var rec := f.records[i];
        assert forall j :: 1 <= j < |kwargs| ==> rest[j - 1] == kwargs[j];
        if Passes(t, rec, key, v) && PassesAll(t, rec, rest) {
          forall j | 0 <= j < |kwargs|
            ensures Passes(t, rec, kwargs[j].0, kwargs[j].1)
          {
            if j > 0 {
              assert kwargs[j] == rest[j - 1];
            }
          }
        }
      }
      WhereFusion(f.records, Single(t, key, v), Conjunction(t, rest), Conjunction(t, kwargs));
    }
  }

  /** Narrowing depends on the set of constraints only, not on the order they are listed in. */
  lemma NarrowAllOrderIndependent(f: Frame, t: Test, kw1: Dict<real>, kw2: Dict<real>)
    requires forall p :: p in kw1 <==> p in kw2
    ensures NarrowAll(f, t, kw1).Success? == NarrowAll(f, t, kw2).Success?
    ensures NarrowAll(f, t, kw1).Success? ==> NarrowAll(f, t, kw1) == NarrowAll(f, t, kw2)
  {
    assert KnownColumns(f, kw1) == KnownColumns(f, kw2) by {
      if KnownColumns(f, kw1) {
        forall i | 0 <= i < |kw2|
          ensures kw2[i].0 in f.columns
        {
          assert kw2[i] in kw1;
        }
      }
      if KnownColumns(f, kw2) {
        forall i | 0 <= i < |kw1|
          ensures kw1[i].0 in f.columns
        {
          assert kw1[i] in kw2;
        }
      }
    }
    if KnownColumns(f, kw1) {
      NarrowAllKeepsConjunction(f, t, kw1);
      NarrowAllKeepsConjunction(f, t, kw2);
      forall i | 0 <= i < |f.records|
        ensures Conjunction(t, kw1)(f.records[i]) == Conjunction(t, kw2)(f.records[i])
      {
        var rec := f.records[i];
        if PassesAll(t, rec, kw1) {
          forall j | 0 <= j < |kw2|
            ensures Passes(t, rec, kw2[j].0, kw2[j].1)
          {
            assert kw2[j] in kw1;
            var k :| 0 <= k < |kw1| && kw1[k] == kw2[j];
          }
        }
        if PassesAll(t, rec, kw2) {
          forall j | 0 <= j < |kw1|
            ensures Passes(t, rec, kw1[j].0, kw1[j].1)
          {
            assert kw1[j] in kw2;
            var k :| 0 <= k < |kw2| && kw2[k] == kw1[j];
          }
        }
      }
      WhereCongruent(f.records, Conjunction(t, kw1), Conjunction(t, kw2));
    }
  }

  /** For a nonnegative target, a row whose cells equal the targets is always kept by the band. */
  lemma ApproxKeepsTarget(f: Frame, operator: string, kwargs: Dict<real>, rec: Record)
    requires KnownColumns(f, kwargs)
    requires rec in f.records
    requires forall i :: 0 <= i < |kwargs| ==>
               kwargs[i].1 >= 0.0 && kwargs[i].0 in rec.fields && rec.fields[kwargs[i].0] == kwargs[i].1
    ensures rec in SectionsApproxEqual(f, operator, kwargs).value.records
  {
    WhereMembers(f.records, Conjunction(Band, kwargs), rec);
  }

  /** A negative target turns the band around (0.90 v > 1.10 v), so no row is kept. */
  lemma ApproxNegativeKeepsNothing(f: Frame, operator: string, kwargs: Dict<real>, i: nat)
    requires KnownColumns(f, kwargs)
    requires i < |kwargs| && kwargs[i].1 < 0.0
    ensures SectionsApproxEqual(f, operator, kwargs).value.records == []
  {
    forall j | 0 <= j < |f.records|
      ensures !Conjunction(Band, kwargs)(f.records[j])
    {
      assert !Passes(Band, f.records[j], kwargs[i].0, kwargs[i].1);
    }
    WhereNone(f.records, Conjunction(Band, kwargs));
  }

  /** The band is symmetric about a nonnegative target: inside it means within a tenth of the target. */
  lemma ApproxBandSymmetric(rec: Record, key: string, v: real)
    requires v >= 0.0
    ensures Passes(Band, rec, key, v) <==> key in rec.fields && -(v / 10.0) <= rec.fields[key] - v <= v / 10.0
  {
  }

  function LowerChar(c: char): char
  {
    if 'A' <= c <= 'Z' then (c as int + 32) as char else c
  }

  /** `s.lower()` for ASCII letters. */
  function Lower(s: string): string
  {
    Map(s, LowerChar)
  }

  /** The comparison `section_filter` applies for an operator name: `le` or `ge` in any letter case. */
  function FilterMode(operator: string): Option<Comparison>
  {
    var op := Lower(operator);
    if op == "le" then Some(LessThanOrEqual)
    else if op == "ge" then Some(GreaterThanOrEqual)
    else None
  }

  lemma LowerPair(op: string)
    requires |op| == 2
    ensures Lower(op) == [LowerChar(op[0]), LowerChar(op[1])]
  {
  }

  /** The operator is matched without regard to letter case, and only the two-letter names `le` and `ge` select a comparison. */
  lemma FilterModeSpellings(op: string)
    ensures FilterMode(op) == Some(LessThanOrEqual) <==> op == "le" || op == "lE" || op == "Le" || op == "LE"
    ensures FilterMode(op) == Some(GreaterThanOrEqual) <==> op == "ge" || op == "gE" || op == "Ge" || op == "GE"
  {
    if |op| == 2 {
      LowerPair(op);
      assert op == [op[0], op[1]];
    } else {
      assert |Lower(op)| != 2;
    }
  }

  /**
   * `section_filter(df, operator, **kwargs)`: with `le` (`ge`) the rows whose every constrained
   * column is at most (at least) its value; any other operator returns the rows unchanged.
   */
  function SectionFilter(f: Frame, operator: string, kwargs: Dict<real>): (r: Result<Frame, Error>)
    ensures FilterMode(operator).None? ==> r == Success(f)
    ensures FilterMode(operator).Some? ==> (r.Success? <==> KnownColumns(f, kwargs))
    ensures FilterMode(operator).Some? && r.Success? ==>
              r.value == Frame(f.columns, Where(f.records, Conjunction(Compare(FilterMode(operator).value), kwargs)))
  {
    match FilterMode(operator)
    case None => Success(f)
    case Some(c) =>
      var r := NarrowAll(f, Compare(c), kwargs);
      if r.Success? then NarrowAllKeepsConjunction(f, Compare(c), kwargs); r else r
  }

  /** `sections_approx_equal(df, operator, **kwargs)`: rows within [0.90 v, 1.10 v] for every constraint; `operator` is not used. */
  function SectionsApproxEqual(f: Frame, operator: string, kwargs: Dict<real>): (r: Result<Frame, Error>)
    ensures r.Success? <==> KnownColumns(f, kwargs)
    ensures r.Success? ==> r.value == Frame(f.columns, Where(f.records, Conjunction(Band, kwargs)))
  {
    var r := NarrowAll(f, Band, kwargs);
    if r.Success? then NarrowAllKeepsConjunction(f, Band, kwargs); r else r
  }

  /**
   * With one constraint, `le` and `ge` together keep every row that has a value in the column,
   * and both keep a row exactly when its value equals the threshold; a NaN cell is kept by neither.
   */
  lemma LeGeComplement(f: Frame, key: string, v: real, rec: Record)
    requires key in f.columns && rec in f.records
    ensures var le := SectionFilter(f, "le", [(key, v)]).value.records;
            var ge := SectionFilter(f, "ge", [(key, v)]).value.records;
            && (key in rec.fields <==> rec in le || rec in ge)
            && (rec in le && rec in ge <==> key in rec.fields && rec.fields[key] == v)
  {
    assert Lower("le") == "le";
    assert Lower("ge") == "ge";
    var kw: Dict<real> := [(key, v)];
    assert KnownColumns(f, kw);
    WhereMembers(f.records, Conjunction(Compare(LessThanOrEqual), kw), rec);
    WhereMembers(f.records, Conjunction(Compare(GreaterThanOrEqual), kw), rec);
  }

  /** `a` may precede `b` when sorting ascending by `W`; rows without a weight (NaN) sort last. */
  predicate WeightBefore(a: Record, b: Record)
  {
    "W" !in b.fields || ("W" in a.fields && a.fields["W"] <= b.fields["W"])
  }

  predicate SortedByWeight(rs: seq<Record>)
  {
    forall i, j :: 0 <= i < j < |rs| ==> WeightBefore(rs[i], rs[j])
  }

  /** Inserts `x` into rows already in weight order. */
  function InsertByWeight(x: Record, rs: seq<Record>): (r: seq<Record>)
    requires SortedByWeight(rs)
    ensures SortedByWeight(r)
    ensures multiset(r) == multiset(rs) + multiset{x}
  {
    if rs == [] then
      [x]
    else if WeightBefore(x, rs[0]) then
      assert forall j :: 0 <= j < |rs| ==> WeightBefore(x, rs[j]) by {
        forall j | 0 <= j < |rs|
          ensures WeightBefore(x, rs[j])
        {
          if j > 0 {
            assert WeightBefore(rs[0], rs[j]);
          }
        }
      }
      [x] + rs
    else
      var rest := InsertByWeight(x, rs[1..]);
      assert rs == [rs[0]] + rs[1..];
      assert forall y :: y in multiset(rest) ==> WeightBefore(rs[0], y) by {
        forall y | y in multiset(rest)
          ensures WeightBefore(rs[0], y)
        {
          assert y == x || y in multiset(rs[1..]);
          if y != x {
            var j :| 0 <= j < |rs[1..]| && rs[1..][j] == y;
            assert rs[j + 1] == y;
          }
        }
      }
      assert forall j :: 0 <= j < |rest| ==> WeightBefore(rs[0], rest[j]) by {
        forall j | 0 <= j < |rest|
          ensures WeightBefore(rs[0], rest[j])
        {
          assert rest[j] in multiset(rest);
        }
      }
      [rs[0]] + rest
  }

  /** Insertion sort by weight. */
  function SortRecords(rs: seq<Record>): (r: seq<Record>)
    ensures SortedByWeight(r)
    ensures multiset(r) == multiset(rs)
  {
    if rs == [] then []
    else
      assert rs == [rs[0]] + rs[1..];
      InsertByWeight(rs[0], SortRecords(rs[1..]))
  }

  /** `df.sort_values("W")`: the same rows reordered by ascending weight; `KeyError` when there is no `W` column. */
  function SortByWeight(f: Frame): (r: Result<Frame, Error>)
    ensures r.Success? <==> "W" in f.columns
    ensures r.Failure? ==> r.error == MissingColumn("W")
    ensures r.Success? ==> r.value.columns == f.columns
    ensures r.Success? ==> multiset(r.value.records) == multiset(f.records) && SortedByWeight(r.value.records)
  {
    if "W" in f.columns then Success(Frame(f.columns, SortRecords(f.records))) else Failure(MissingColumn("W"))
  }
}
