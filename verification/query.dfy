/** Filter expressions applied to a frame: the operator dispatch table and the fold over all filters. */
module Query {
  import opened Wrappers
  import opened Errors
  import opened Seqs
  import opened Dicts
  import opened Frames
  import opened Sections
  import opened Text
  import opened Parsers

  /** The row-selection functions the dispatch table names. */
  datatype Operation = Comparing(c: Comparison) | ApproxEqual

  /** The operators that are keys of the dispatch table. */
  const OperatorKeys: set<string> := {"<", "<=", ">", ">=", "@", "==", "!="}

  /**
   * The dispatch table of `_apply_filter`. The key `>=` is bound to the strict greater-than
   * helper, exactly as `>` is.
   */
  function Operations(op: string): (r: Option<Operation>)
    ensures r.Some? <==> op in OperatorKeys
  {
    if op == "<" then Some(Comparing(LessThan))
    else if op == "<=" then Some(Comparing(LessThanOrEqual))
    else if op == ">" then Some(Comparing(GreaterThan))
    else if op == ">=" then Some(Comparing(GreaterThan))
    else if op == "@" then Some(ApproxEqual)
    else if op == "==" then Some(Comparing(Equal))
    else if op == "!=" then Some(Comparing(NotEqual))
    else None
  }

  /**
   * Calling a table entry as `operation(frame, **{field: value})`. The comparison helpers take
   * their constraints as keywords. `sections_approx_equal` also has a positional `operator`
   * parameter that this call does not supply: Python raises `TypeError`, unless the field is
   * literally `operator`, which then fills the parameter and leaves no constraint at all. The
   * field `aisc_db` also raises `TypeError`, for a first argument given twice.
   */
  function Call(operation: Operation, f: Frame, field: string, value: real): (r: Result<Frame, Error>)
    ensures operation.Comparing? ==> (r.Success? <==> field in f.columns)
    ensures operation.Comparing? && r.Failure? ==> r.error == MissingColumn(field)
    ensures operation.Comparing? && r.Success? ==>
              r.value == Frame(f.columns, Where(f.records, Single(Compare(operation.c), field, value)))
    ensures operation.ApproxEqual? ==> (r.Success? <==> field == "operator")
    ensures operation.ApproxEqual? && r.Failure? ==> r.error == BadApproxArguments
    ensures operation.ApproxEqual? && r.Success? ==> r.value == f
  {
    match operation
    case Comparing(c) => Narrow(f, Compare(c), field, value)
    case ApproxEqual =>
      if field == "operator" then
        WhereAll(f.records, Conjunction(Band, []));
        SectionsApproxEqual(f, "", [])
      else
        Failure(BadApproxArguments)
  }

  /** `_apply_filter(frame, field, expression)`: parse, look the operator up, call the selected function. */
  function ApplyFilter(f: Frame, field: string, expr: string): (r: Result<Frame, Error>)
    ensures ParseComparisonValue(expr).Failure? ==> r == Failure(ParseComparisonValue(expr).error)
    ensures ParseComparisonValue(expr).Success? && ParseComparisonValue(expr).value.0 !in OperatorKeys ==>
              r == Failure(UnknownOperator(ParseComparisonValue(expr).value.0))
    ensures r.Success? ==> ParseComparisonValue(expr).Success? && ParseComparisonValue(expr).value.0 in OperatorKeys
    ensures r.Success? ==> r.value.columns == f.columns
    ensures r.Success? ==> forall rec :: rec in r.value.records ==> rec in f.records
  {
    var (op, value) :- ParseComparisonValue(expr);
    Dispatch(f, field, op, value)
  }

  /** The part of `_apply_filter` after parsing: look the operator up and call the selected function. */
  function Dispatch(f: Frame, field: string, op: string, value: real): (r: Result<Frame, Error>)
    ensures op !in OperatorKeys ==> r == Failure(UnknownOperator(op))
    ensures r.Success? ==> op in OperatorKeys && r.value.columns == f.columns
    ensures r.Success? ==> forall rec :: rec in r.value.records ==> rec in f.records
  {
    match Operations(op)
    case None => Failure(UnknownOperator(op))
    case Some(operation) =>
      var r := Call(operation, f, field, value);
      if r.Success? && operation.ApproxEqual? then
        WhereAll(f.records, Conjunction(Band, []));
        r
      else
        r
  }

  function KeepEvery(rec: Record): bool
  {
    true
  }

  /** The test an operator and a value select on these columns, or the error the call raises. */
  function Selects(columns: set<string>, field: string, op: string, v: real): (r: Result<Record -> bool, Error>)
    ensures op !in OperatorKeys ==> r == Failure(UnknownOperator(op))
    ensures r.Success? <==>
              && op in OperatorKeys
              && (op == "@" ==> field == "operator")
              && (op != "@" ==> field in columns)
    ensures r.Success? ==> forall rec: Record :: r.value(rec) == (op == "@" || Passes(Compare(Operations(op).value.c), rec, field, v))
  {
    match Operations(op)
    case None => Failure(UnknownOperator(op))
    case Some(Comparing(c)) => if field in columns then Success(Single(Compare(c), field, v)) else Failure(MissingColumn(field))
    case Some(ApproxEqual) => if field == "operator" then Success(KeepEvery) else Failure(BadApproxArguments)
  }

  /**
   * What one filter entry means, whatever rows it meets: the error it raises, or the test a row
   * must pass to stay. It depends on the frame's columns only.
   */
  function Criterion(columns: set<string>, field: string, expr: string): (r: Result<Record -> bool, Error>)
    ensures ParseComparisonValue(expr).Failure? ==> r == Failure(ParseComparisonValue(expr).error)
    ensures r.Success? <==>
              && ParseComparisonValue(expr).Success?
              && var op := ParseComparisonValue(expr).value.0;
                 && op in OperatorKeys
                 && (op == "@" ==> field == "operator")
                 && (op != "@" ==> field in columns)
    ensures ParseComparisonValue(expr).Success? ==>
              r == Selects(columns, field, ParseComparisonValue(expr).value.0, ParseComparisonValue(expr).value.1)
  {
    match ParseComparisonValue(expr)
    case Failure(e) => Failure(e)
    case Success((op, v)) => Selects(columns, field, op, v)
  }

  /** Applying one filter raises the entry's error, or keeps exactly the rows that pass its test, in order. */
  lemma ApplyFilterMatchesCriterion(f: Frame, field: string, expr: string)
    ensures ApplyFilter(f, field, expr) ==
              match Criterion(f.columns, field, expr)
              case Failure(e) => Failure(e)
              case Success(p) => Success(Frame(f.columns, Where(f.records, p)))
  {
    match ParseComparisonValue(expr)
    case Failure(e) =>
    case Success((op, v)) =>
      match Operations(op)
      case None =>
      case Some(Comparing(c)) =>
      case Some(ApproxEqual) =>
        if field == "operator" {
          WhereAll(f.records, Conjunction(Band, []));
          WhereAll(f.records, KeepEvery);
        }
  }

  /** Operators bound to the same function of the table filter alike. */
  lemma SameOperationSameDispatch(f: Frame, field: string, op1: string, op2: string, value: real)
    requires Operations(op1).Some? && Operations(op1) == Operations(op2)
    ensures Dispatch(f, field, op1, value) == Dispatch(f, field, op2, value)
  {
  }

  /** `>=` filters exactly as `>` does: the boundary row is dropped. */
  lemma GreaterEqualIsStrict(f: Frame, field: string, num: string)
    requires forall i :: 0 <= i < |num| ==> IsValueChar(num[i])
    ensures ApplyFilter(f, field, ">=" + num) == ApplyFilter(f, field, ">" + num)
  {
    ParseConcat(">=", num);
    ParseConcat(">", num);
    if ParseFloat(num).Some? {
      SameOperationSameDispatch(f, field, ">=", ">", ParseFloat(num).value);
    }
  }

  /** A bare number has the empty operator, which is not in the table: it is rejected, not read as equality. */
  lemma BareNumberRejected(f: Frame, field: string, n: int)
    ensures ApplyFilter(f, field, ShowInt(n)) == Failure(UnknownOperator(""))
  {
    var expr := ShowInt(n);
    assert ParseComparisonValue(expr) == Success(("", n as real)) by {
      assert "" + expr == expr;
      ParseComparisonValueRoundTrip("", n);
    }
    assert Dispatch(f, field, "", n as real) == Failure(UnknownOperator(""));
  }

  /**
   * `@` never narrows: it raises for lack of the `operator` argument, except on a field named
   * `operator`, where every row is kept.
   */
  lemma ApproxDispatch(f: Frame, field: string, num: string)
    requires forall i :: 0 <= i < |num| ==> IsValueChar(num[i])
    requires ParseFloat(num).Some?
    ensures ApplyFilter(f, field, "@" + num) == if field == "operator" then Success(f) else Failure(BadApproxArguments)
  {
    ParseConcat("@", num);
    assert Operations("@") == Some(ApproxEqual);
    ApplyFilterMatchesCriterion(f, field, "@" + num);
    WhereAll(f.records, KeepEvery);
  }

  /** Two filters applied one after the other give the same rows in either order. */
  lemma ApplyFilterCommutes(f: Frame, a: string, ea: string, b: string, eb: string)
    requires ApplyFilter(f, a, ea).Success? && ApplyFilter(f, b, eb).Success?
    ensures ApplyFilter(ApplyFilter(f, a, ea).value, b, eb) == ApplyFilter(ApplyFilter(f, b, eb).value, a, ea)
  {
    ApplyFilterMatchesCriterion(f, a, ea);
    ApplyFilterMatchesCriterion(f, b, eb);
    var fa := ApplyFilter(f, a, ea).value;
    var fb := ApplyFilter(f, b, eb).value;
    ApplyFilterMatchesCriterion(fa, b, eb);
    ApplyFilterMatchesCriterion(fb, a, ea);
    var p := Criterion(f.columns, a, ea).value;
    var q := Criterion(f.columns, b, eb).value;
    var both := (rec: Record) => p(rec) && q(rec);
    WhereFusion(f.records, p, q, both);
    WhereFusion(f.records, q, p, both);
  }

  /** The entry `(field, expr)` is accepted on these columns. */
  predicate Accepted(columns: set<string>, entry: (string, string))
  {
    Criterion(columns, entry.0, entry.1).Success?
  }

  /** The entry `(field, expr)` is accepted and the row passes its test. */
  predicate EntryPasses(columns: set<string>, entry: (string, string), rec: Record)
  {
    var c := Criterion(columns, entry.0, entry.1);
    c.Success? && c.value(rec)
  }

  /** Every entry of `filters` is accepted on these columns. */
  predicate AllAccepted(columns: set<string>, filters: Dict<string>)
  {
    forall i :: 0 <= i < |filters| ==> Accepted(columns, filters[i])
  }

  /** A row passes every entry's test. */
  predicate PassesCriteria(columns: set<string>, filters: Dict<string>, rec: Record)
  {
    forall i :: 0 <= i < |filters| ==> EntryPasses(columns, filters[i], rec)
  }

  /** Every entry is accepted exactly when the first one is and every later one is. */
  lemma AllAcceptedCons(columns: set<string>, filters: Dict<string>)
    requires filters != []
    ensures AllAccepted(columns, filters) <==> Accepted(columns, filters[0]) && AllAccepted(columns, filters[1..])
  {
    AllCons(filters, e => Accepted(columns, e));
  }

  function Criteria(columns: set<string>, filters: Dict<string>): Record -> bool
  {
    rec => PassesCriteria(columns, filters, rec)
  }

  /** `_apply_all_filters(frame, filters)`: each filter applied in turn, the first failure raised. */
  function ApplyAllFilters(f: Frame, filters: Dict<string>): (r: Result<Frame, Error>)
    ensures r.Success? <==> AllAccepted(f.columns, filters)
    ensures r.Success? ==> r.value.columns == f.columns
    decreases |filters|
  {
    if filters == [] then
      Success(f)
    else
      ApplyFilterMatchesCriterion(f, filters[0].0, filters[0].1);
      match ApplyFilter(f, filters[0].0, filters[0].1)
      case Failure(e) => Failure(e)
      case Success(g) =>
        AllAcceptedCons(f.columns, filters);
        ApplyAllFilters(g, filters[1..])
  }

  /** A fold whose first entry is not accepted raises that entry's error. */
  lemma ApplyAllFiltersHeadFails(f: Frame, filters: Dict<string>)
    requires filters != [] && Criterion(f.columns, filters[0].0, filters[0].1).Failure?
    ensures ApplyAllFilters(f, filters) == Failure(Criterion(f.columns, filters[0].0, filters[0].1).error)
  {
    ApplyFilterMatchesCriterion(f, filters[0].0, filters[0].1);
  }

  /** A fold whose first entry is accepted continues on the rows that pass it. */
  lemma ApplyAllFiltersHeadPasses(f: Frame, filters: Dict<string>)
    requires filters != [] && Criterion(f.columns, filters[0].0, filters[0].1).Success?
    ensures var p := Criterion(f.columns, filters[0].0, filters[0].1).value;
            ApplyAllFilters(f, filters) == ApplyAllFilters(Frame(f.columns, Where(f.records, p)), filters[1..])
  {
    ApplyFilterMatchesCriterion(f, filters[0].0, filters[0].1);
  }

  /** A failing fold raises the error of the first entry that is not accepted. */
  lemma {:induction false} ApplyAllFiltersFirstFailure(f: Frame, filters: Dict<string>) returns (i: nat)
    requires ApplyAllFilters(f, filters).Failure?
    ensures i < |filters| && Criterion(f.columns, filters[i].0, filters[i].1) == Failure(ApplyAllFilters(f, filters).error)
    ensures forall j :: 0 <= j < i ==> Criterion(f.columns, filters[j].0, filters[j].1).Success?
    decreases |filters|
  {
    var c := Criterion(f.columns, filters[0].0, filters[0].1);
    if c.Failure? {
      ApplyAllFiltersHeadFails(f, filters);
      i := 0;
    } else {
      ApplyAllFiltersHeadPasses(f, filters);
      var g := Frame(f.columns, Where(f.records, c.value));
      var rest := filters[1..];
      var k := ApplyAllFiltersFirstFailure(g, rest);
      i := k + 1;
      assert filters[i] == rest[k];
      PrefixCons(filters, (e: (string, string)) => Criterion(f.columns, e.0, e.1).Success?, k);
    }
  }

  /** When every filter is accepted, the fold keeps exactly the rows passing all of them, in their original order. */
  lemma {:induction false} ApplyAllFiltersKeepsConjunction(f: Frame, filters: Dict<string>)
    requires AllAccepted(f.columns, filters)
    ensures ApplyAllFilters(f, filters) == Success(Frame(f.columns, Where(f.records, Criteria(f.columns, filters))))
    decreases |filters|
  {
    if filters == [] {
      WhereAll(f.records, Criteria(f.columns, filters));
    } else {
      var rest := filters[1..];
      var p := Criterion(f.columns, filters[0].0, filters[0].1).value;
      ApplyFilterMatchesCriterion(f, filters[0].0, filters[0].1);
      var g := ApplyFilter(f, filters[0].0, filters[0].1).value;
      AllCons(filters, e => Accepted(f.columns, e));
      ApplyAllFiltersKeepsConjunction(g, rest);
      forall i | 0 <= i < |f.records|
        ensures Criteria(f.columns, filters)(f.records[i]) == (p(f.records[i]) && Criteria(f.columns, rest)(f.records[i]))
      {
        AllCons(filters, e => EntryPasses(f.columns, e, f.records[i]));
      }
      WhereFusion(f.records, p, Criteria(f.columns, rest), Criteria(f.columns, filters));
    }
  }

  /** The fold only ever drops rows: its result is a subsequence of the rows it was given. */
  lemma ApplyAllFiltersNarrows(f: Frame, filters: Dict<string>) returns (idx: seq<nat>)
    requires ApplyAllFilters(f, filters).Success?
    ensures Embeds(idx, ApplyAllFilters(f, filters).value.records, f.records)
  {
    ApplyAllFiltersKeepsConjunction(f, filters);
    idx := WhereEmbeds(f.records, Criteria(f.columns, filters));
  }

  /**
   * The order of the filter entries does not matter: two lists of the same entries are accepted
   * together and then keep the same rows. (Which error is raised first can differ.)
   */
  lemma ApplyAllFiltersOrderIndependent(f: Frame, d1: Dict<string>, d2: Dict<string>)
    requires forall e :: e in d1 <==> e in d2
    ensures ApplyAllFilters(f, d1).Success? == ApplyAllFilters(f, d2).Success?
    ensures ApplyAllFilters(f, d1).Success? ==> ApplyAllFilters(f, d1) == ApplyAllFilters(f, d2)
  {
    SameMembersAll(d1, d2, e => Accepted(f.columns, e));
    if AllAccepted(f.columns, d1) {
      ApplyAllFiltersKeepsConjunction(f, d1);
      ApplyAllFiltersKeepsConjunction(f, d2);
      forall i | 0 <= i < |f.records|
        ensures Criteria(f.columns, d1)(f.records[i]) == Criteria(f.columns, d2)(f.records[i])
      {
        SameMembersAll(d1, d2, e => EntryPasses(f.columns, e, f.records[i]));
      }
      WhereCongruent(f.records, Criteria(f.columns, d1), Criteria(f.columns, d2));
    }
  }
}
