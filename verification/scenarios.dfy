/**
 * A four-row catalog run through single filters, with the rows each one keeps, and the
 * command-line parsers on concrete arguments. Each concrete argument is a parameter pinned by
 * a `requires`: the verifier then unfolds the definitions on it only as far as the proof asks,
 * where a literal would be unfolded without limit.
 */
module Scenarios {
  import opened Wrappers
  import opened Seqs
  import opened Dicts
  import opened Text
  import opened Frames
  import opened Sections
  import opened Parsers
  import opened Query

  /** Rows labelled 0 to 3 with second moments of area `Ix` and elastic moduli `Sy`. */
  function Sample(): Catalog
  {
    Catalog({"Ix", "Sy"}, [
      map["Ix" := 200.0, "Sy" := 300.0],
      map["Ix" := 250.0, "Sy" := 250.0],
      map["Ix" := 400.0, "Sy" := 600.0],
      map["Ix" := 500.0, "Sy" := 700.0]])
  }

  lemma Show400()
    ensures ShowInt(400) == "400"
  {
    assert ShowNat(4) == "4";
    assert ShowNat(40) == "40";
  }

  lemma Show300()
    ensures ShowInt(300) == "300"
  {
    assert ShowNat(3) == "3";
    assert ShowNat(30) == "30";
  }

  /** The sample rows as a frame, written out. */
  lemma SampleRows()
    ensures Full(Sample()).records == [
              Record(0, map["Ix" := 200.0, "Sy" := 300.0]),
              Record(1, map["Ix" := 250.0, "Sy" := 250.0]),
              Record(2, map["Ix" := 400.0, "Sy" := 600.0]),
              Record(3, map["Ix" := 500.0, "Sy" := 700.0])]
  {
  }

  /** The round trip of an operator and a whole number, for an expression already split into its two parts. */
  lemma ParseShownInt(expr: string, op: string, num: string, n: int)
    requires forall i :: 0 <= i < |op| ==> IsOperatorChar(op[i])
    requires num == ShowInt(n) && expr == op + num
    ensures ParseComparisonValue(expr) == Success((op, n as real))
  {
    ParseComparisonValueRoundTrip(op, n);
  }

  lemma ParseGreaterEqual400(expr: string)
    requires expr == ">=400"
    ensures ParseComparisonValue(expr) == Success((">=", 400.0))
  {
    Show400();
    ParseShownInt(expr, ">=", "400", 400);
  }

  lemma ParseLessEqual300(expr: string)
    requires expr == "<=300"
    ensures ParseComparisonValue(expr) == Success(("<=", 300.0))
  {
    Show300();
    ParseShownInt(expr, "<=", "300", 300);
  }

  /** `Ix >=400` keeps only the row above 400: the row equal to 400 is dropped, because `>=` is strict. */
  lemma GreaterEqualDropsBoundaryRow(expr: string)
    requires expr == ">=400"
    ensures ApplyFilter(Full(Sample()), "Ix", expr) == Narrow(Full(Sample()), Compare(GreaterThan), "Ix", 400.0)
    ensures ApplyFilter(Full(Sample()), "Ix", expr).Success?
    ensures Labels(ApplyFilter(Full(Sample()), "Ix", expr).value.records) == [3]
  {
    ParseGreaterEqual400(expr);
    ApplyFilterMatchesCriterion(Full(Sample()), "Ix", expr);
    GreaterThanHelper();
  }

  /** `Sy <=300` keeps the first two rows, the one equal to 300 included. */
  lemma LessEqualKeepsBoundaryRow(expr: string)
    requires expr == "<=300"
    ensures ApplyFilter(Full(Sample()), "Sy", expr) == Narrow(Full(Sample()), Compare(LessThanOrEqual), "Sy", 300.0)
    ensures ApplyFilter(Full(Sample()), "Sy", expr).Success?
    ensures Labels(ApplyFilter(Full(Sample()), "Sy", expr).value.records) == [0, 1]
  {
    ParseLessEqual300(expr);
    ApplyFilterMatchesCriterion(Full(Sample()), "Sy", expr);
    LessThanOrEqualHelper();
  }

  /** Filtering three elements, written out. */
  lemma WhereOfThree<T>(a: T, b: T, c: T, p: T -> bool)
    ensures Where([a, b, c], p) == (if p(a) then [a] else []) + (if p(b) then [b] else []) + (if p(c) then [c] else [])
  {
    var hc := if p(c) then [c] else [];
    var hb := if p(b) then [b] else [];
    var ha := if p(a) then [a] else [];
    assert [c][1..] == [];
    assert Where([c], p) == hc + [] == hc;
    assert [b, c][1..] == [c];
    assert Where([b, c], p) == hb + hc;
    assert [a, b, c][1..] == [b, c];
    assert Where([a, b, c], p) == ha + (hb + hc);
    assert ha + (hb + hc) == ha + hb + hc;
  }

  /** Filtering four rows, written out. */
  lemma WhereOfFour(a: Record, b: Record, c: Record, d: Record, p: Record -> bool)
    ensures Where([a, b, c, d], p) == (if p(a) then [a] else []) + (if p(b) then [b] else [])
                                    + (if p(c) then [c] else []) + (if p(d) then [d] else [])
  {
    var hd := if p(d) then [d] else [];
    var hc := if p(c) then [c] else [];
    var hb := if p(b) then [b] else [];
    var ha := if p(a) then [a] else [];
    assert [d][1..] == [];
    assert Where([d], p) == hd + [] == hd;
    assert [c, d][1..] == [d];
    assert Where([c, d], p) == hc + hd;
    assert [b, c, d][1..] == [c, d];
    assert Where([b, c, d], p) == hb + (hc + hd);
    assert [a, b, c, d][1..] == [b, c, d];
    assert Where([a, b, c, d], p) == ha + (hb + (hc + hd));
    assert ha + (hb + (hc + hd)) == ha + hb + hc + hd;
  }

  /** `sections_greater_than_or_equal(Ix=400)` keeps the rows labelled 2 and 3. */
  lemma GreaterThanOrEqualHelper()
    ensures Labels(Narrow(Full(Sample()), Compare(GreaterThanOrEqual), "Ix", 400.0).value.records) == [2, 3]
  {
    SampleRows();
    var rs := Full(Sample()).records;
    WhereOfFour(rs[0], rs[1], rs[2], rs[3], Single(Compare(GreaterThanOrEqual), "Ix", 400.0));
  }

  /** `sections_greater_than(Ix=400)` keeps only the row labelled 3. */
  lemma GreaterThanHelper()
    ensures Labels(Narrow(Full(Sample()), Compare(GreaterThan), "Ix", 400.0).value.records) == [3]
  {
    SampleRows();
    var rs := Full(Sample()).records;
    WhereOfFour(rs[0], rs[1], rs[2], rs[3], Single(Compare(GreaterThan), "Ix", 400.0));
  }

  /** `sections_less_than_or_equal(Sy=300)` keeps the rows labelled 0 and 1. */
  lemma LessThanOrEqualHelper()
    ensures Labels(Narrow(Full(Sample()), Compare(LessThanOrEqual), "Sy", 300.0).value.records) == [0, 1]
  {
    SampleRows();
    var rs := Full(Sample()).records;
    WhereOfFour(rs[0], rs[1], rs[2], rs[3], Single(Compare(LessThanOrEqual), "Sy", 300.0));
  }

  /** `sections_less_than(Sy=300)` keeps only the row labelled 1. */
  lemma LessThanHelper()
    ensures Labels(Narrow(Full(Sample()), Compare(LessThan), "Sy", 300.0).value.records) == [1]
  {
    SampleRows();
    var rs := Full(Sample()).records;
    WhereOfFour(rs[0], rs[1], rs[2], rs[3], Single(Compare(LessThan), "Sy", 300.0));
  }

  /** The sample rows with a weight column `W` in place of `Sy`. */
  function Weighted(): Catalog
  {
    Catalog({"Ix", "W"}, [
      map["Ix" := 200.0, "W" := 300.0],
      map["Ix" := 250.0, "W" := 250.0],
      map["Ix" := 400.0, "W" := 600.0],
      map["Ix" := 500.0, "W" := 700.0]])
  }

  function RowA(): Record { Record(0, map["Ix" := 200.0, "W" := 300.0]) }
  function RowB(): Record { Record(1, map["Ix" := 250.0, "W" := 250.0]) }
  function RowC(): Record { Record(2, map["Ix" := 400.0, "W" := 600.0]) }
  function RowD(): Record { Record(3, map["Ix" := 500.0, "W" := 700.0]) }

  lemma WeightedRows()
    ensures Full(Weighted()).records == [RowA(), RowB(), RowC(), RowD()]
  {
  }

  lemma SortLastTwo()
    ensures SortRecords([RowC(), RowD()]) == [RowC(), RowD()]
  {
    assert [RowC(), RowD()][1..] == [RowD()];
    assert SortRecords([RowD()]) == [RowD()];
  }

  lemma SortLastThree()
    ensures SortRecords([RowB(), RowC(), RowD()]) == [RowB(), RowC(), RowD()]
  {
    assert [RowB(), RowC(), RowD()][1..] == [RowC(), RowD()];
    SortLastTwo();
  }

  lemma InsertFirst()
    ensures InsertByWeight(RowA(), [RowB(), RowC(), RowD()]) == [RowB(), RowA(), RowC(), RowD()]
  {
    assert [RowB(), RowC(), RowD()][1..] == [RowC(), RowD()];
    assert InsertByWeight(RowA(), [RowC(), RowD()]) == [RowA(), RowC(), RowD()];
  }

  lemma SortWeightedRecords()
    ensures SortRecords(Full(Weighted()).records) == [RowB(), RowA(), RowC(), RowD()]
  {
    var rs := Full(Weighted()).records;
    WeightedRows();
    assert rs[0] == RowA() && rs[1..] == [RowB(), RowC(), RowD()];
    SortLastThree();
    InsertFirst();
  }

  /** Sorting by weight moves the lightest row, labelled 1, to the front. */
  lemma SortScenario()
    ensures SortByWeight(Full(Weighted())).Success?
    ensures Labels(SortByWeight(Full(Weighted())).value.records) == [1, 0, 2, 3]
  {
    SortWeightedFrame();
    SortWeightedRecords();
    SortedLabels();
  }

  lemma SortWeightedFrame()
    ensures SortByWeight(Full(Weighted())) == Success(Frame(Full(Weighted()).columns, SortRecords(Full(Weighted()).records)))
  {
    assert "W" in Full(Weighted()).columns;
  }

  lemma SortedLabels()
    ensures Labels([RowB(), RowA(), RowC(), RowD()]) == [1, 0, 2, 3]
  {
  }

  lemma DashesOfD()
    ensures RemoveDashes("--d") == "d"
  {
    assert "--d"[1..] == "-d" && "-d"[1..] == "d" && "d"[1..] == "";
  }

  lemma DashesOfIx()
    ensures RemoveDashes("--Ix") == "Ix"
  {
    assert "--Ix"[1..] == "-Ix" && "-Ix"[1..] == "Ix" && "Ix"[1..] == "x";
    assert Where("Ix", NotDash) == "I" + Where("x", NotDash);
    assert "x"[1..] == "";
  }

  lemma DigitKeys()
    ensures RemoveDashes("1") == "1" && RemoveDashes("3") == "3"
  {
    assert "1"[1..] == "" && "3"[1..] == "";
  }

  /** Two assignments to distinct keys of an empty dictionary. */
  lemma TwoPuts(a: string, v1: string, b: string, v2: string)
    requires a != b
    ensures Put(Put([], a, v1), b, v2) == [(a, v1), (b, v2)]
  {
    var d1: Dict<string> := [(a, v1)];
    PutFresh([], a, v1);
    assert Keys(d1) == [a];
    PutFresh(d1, b, v2);
  }

  /** Four arguments are two assignments. */
  lemma KwargsFromFour(d: Dict<string>, args: seq<string>)
    requires |args| == 4
    ensures KwargsFrom(d, args) == Put(Put(d, RemoveDashes(args[0]), args[1]), RemoveDashes(args[2]), args[3])
  {
    var rest := args[2..];
    assert rest[0] == args[2] && rest[1] == args[3] && |rest[2..]| == 0;
    var d1 := Put(d, RemoveDashes(args[0]), args[1]);
    var d2 := Put(d1, RemoveDashes(args[2]), args[3]);
    assert KwargsFrom(d, args) == KwargsFrom(d1, rest);
    assert KwargsFrom(d1, rest) == KwargsFrom(d2, rest[2..]);
  }

  /** Two pairs with distinct keys become two entries, in order. */
  lemma TwoPairs(k1: string, v1: string, k2: string, v2: string)
    requires RemoveDashes(k1) != RemoveDashes(k2)
    ensures ParseKwargs([k1, v1, k2, v2]) == [(RemoveDashes(k1), v1), (RemoveDashes(k2), v2)]
  {
    var args := [k1, v1, k2, v2];
    assert args[0] == k1 && args[1] == v1 && args[2] == k2 && args[3] == v2;
    KwargsFromFour([], args);
    assert ParseKwargs(args) == KwargsFrom([], args);
    TwoPuts(RemoveDashes(k1), v1, RemoveDashes(k2), v2);
  }

  /** Dashes are stripped from keys and the pairs are kept in order. */
  lemma KwargsFromCommandLine()
    ensures ParseKwargs(["--d", "<=304", "--Ix", ">503"]) == [("d", "<=304"), ("Ix", ">503")]
    ensures ParseKwargs(["1", "2", "3", "4"]) == [("1", "2"), ("3", "4")]
  {
    DashesOfD();
    DashesOfIx();
    DigitKeys();
    TwoPairs("--d", "<=304", "--Ix", ">503");
    TwoPairs("1", "2", "3", "4");
  }

  /** A lone number is both bounds of the slice. */
  lemma SingleSliceFromCommandLine(text: string)
    requires text == "0"
    ensures ParseSlice(text) == Success(SliceSpec(Some(0), Some(0), None))
  {
    assert ShowInt(0) == "0";
    ParseSliceSingle(0);
  }

  /** Three parts give all three fields, negatives included. */
  lemma FullSliceFromCommandLine(text: string)
    requires text == "-1:4:-1"
    ensures ParseSlice(text) == Success(SliceSpec(Some(-1), Some(4), Some(-1)))
  {
    var spec := SliceSpec(Some(-1), Some(4), Some(-1));
    ShowSliceParts(spec);
    assert ShowPart(Some(-1)) + ":" + ShowPart(Some(4)) + ":" + ShowPart(Some(-1)) == text by {
      assert ShowNat(1) == "1";
      assert ShowInt(-1) == "-1" && ShowInt(4) == "4";
    }
    ParseSliceRoundTrip(spec);
  }

  /** Two parts give start and stop, with no step: `"0:1"` is `slice(0, 1, None)`. */
  lemma PairSliceFromCommandLine(text: string)
    requires text == "0:1"
    ensures ParseSlice(text) == Success(SliceSpec(Some(0), Some(1), None))
  {
    assert ShowPart(Some(0)) + ":" + ShowPart(Some(1)) == text by {
      assert ShowInt(0) == "0" && ShowInt(1) == "1";
    }
    ParseSlicePair(Some(0), Some(1));
  }

  /** An empty part is `None`: `"2:"` is `slice(2, None, None)`. */
  lemma OpenSliceFromCommandLine(text: string)
    requires text == "2:"
    ensures ParseSlice(text) == Success(SliceSpec(Some(2), None, None))
  {
    assert ShowPart(Some(2)) + ":" + ShowPart(None) == text by {
      assert ShowInt(2) == "2";
    }
    ParseSlicePair(Some(2), None);
  }

  /** Three parts give a step: `"0:5:2"` is `slice(0, 5, 2)`. */
  lemma SteppedSliceFromCommandLine(text: string)
    requires text == "0:5:2"
    ensures ParseSlice(text) == Success(SliceSpec(Some(0), Some(5), Some(2)))
  {
    var spec := SliceSpec(Some(0), Some(5), Some(2));
    ShowSliceParts(spec);
    assert ShowPart(Some(0)) + ":" + ShowPart(Some(5)) + ":" + ShowPart(Some(2)) == text by {
      assert ShowInt(0) == "0" && ShowInt(5) == "5" && ShowInt(2) == "2";
    }
    ParseSliceRoundTrip(spec);
  }

  /** The characters of `"1<2"`: one operator between two digits. */
  lemma InterleavedParts(expr: string)
    requires expr == "1<2"
    ensures forall i :: 0 <= i < |expr| ==> IsExpressionChar(expr[i])
    ensures Where(expr, IsOperatorChar) == "<" && Where(expr, IsValueChar) == "12"
  {
    assert expr == ['1', '<', '2'];
    WhereOfThree('1', '<', '2', IsOperatorChar);
    WhereOfThree('1', '<', '2', IsValueChar);
  }

  /** Operator and value characters may interleave: `"1<2"` reads as `("<", 12.0)`. */
  lemma InterleavedOperator(expr: string)
    requires expr == "1<2"
    ensures ParseComparisonValue(expr) == Success(("<", 12.0))
  {
    InterleavedParts(expr);
    FloatTwelve(Where(expr, IsValueChar));
  }

  /** `float("12")` is twelve. */
  lemma FloatTwelve(num: string)
    requires num == "12"
    ensures ParseFloat(num) == Some(12.0)
  {
    assert ShowInt(12) == num by {
      assert ShowNat(1) == "1";
    }
    ParseFloatShowInt(12);
  }

  /** The operator is split off the front and the rest read as a number. */
  lemma LessThanFromCommandLine(expr: string)
    requires expr == "<234"
    ensures ParseComparisonValue(expr) == Success(("<", 234.0))
  {
    assert ShowInt(234) == "234" by {
      assert ShowNat(2) == "2";
      assert ShowNat(23) == "23";
    }
    ParseShownInt(expr, "<", "234", 234);
  }

  lemma ExponentValueChars(num: string)
    requires num == "43.5e6"
    ensures forall i :: 0 <= i < |num| ==> IsValueChar(num[i])
  {
    forall i | 0 <= i < |num|
      ensures IsValueChar(num[i])
    {
      assert num[i] == '4' || num[i] == '3' || num[i] == '.' || num[i] == '5' || num[i] == 'e' || num[i] == '6';
    }
  }

  /** The value may carry a decimal point and an exponent: `@43.5e6` is `("@", 43500000.0)`. */
  lemma ApproxFromCommandLine(expr: string, num: string)
    requires num == "43.5e6" && expr == "@" + num
    ensures ParseComparisonValue(expr) == Success(("@", 43500000.0))
  {
    ExponentValueChars(num);
    FloatWithExponent(num);
    ParseConcat("@", num);
  }

  /** `float("43.5e6")`: mantissa 435 with one digit after the point, exponent 6. */
  lemma FloatWithExponent(body: string)
    requires body == "43.5e6"
    ensures ParseFloat(body) == Some(43500000.0)
  {
    var mantissa := body[..4];
    assert Unsign(body) == (false, body);
    FirstIndexAt(body, IsExponentMark, 4);
    FirstIndexAt(mantissa, IsPoint, 2);
    assert mantissa[..2] + mantissa[3..] == "435";
    assert DigitsValue("435") == 435 by {
      assert "435"[..2] == "43";
      assert "43"[..1] == "4";
      assert "4"[..0] == "";
    }
    assert Mantissa(mantissa) == Some((435, 1));
    assert ParseInt(body[5..]) == Some(6) by {
      assert body[5..] == "6";
      assert "6"[..0] == "";
    }
    assert Pow10(5) == 100000;
    assert Scaled(435, 5) == 43500000.0;
  }
}
