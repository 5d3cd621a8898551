/** The three hand-written parsers of the command-line front end. */
module Parsers {
  import opened Wrappers
  import opened Errors
  import opened Seqs
  import opened Dicts
  import opened Text

  /** Characters routed to the operator buffer. */
  predicate IsOperatorChar(c: char)
  {
    c == '<' || c == '>' || c == '=' || c == '!' || c == '@'
  }

  /** Characters routed to the value buffer: digits and the symbols of a signed, scientific literal. */
  predicate IsValueChar(c: char)
  {
    IsDigit(c) || c == '.' || c == '-' || c == 'e' || c == 'E'
  }

  predicate IsExpressionChar(c: char)
  {
    IsOperatorChar(c) || IsValueChar(c)
  }

  /**
   * The scanning loop of `_parse_comparison_value`: every character, in order, is appended to
   * the operator buffer or to the value buffer; any other character stops the scan.
   * The buffers are the operator characters and the value characters of `s`, each in input order.
   */
  function Scan(s: string): (r: Option<(string, string)>)
    ensures r.Some? <==> forall i :: 0 <= i < |s| ==> IsExpressionChar(s[i])
    ensures r.Some? ==> r.value.0 == Where(s, IsOperatorChar) && r.value.1 == Where(s, IsValueChar)
    ensures r.Some? ==> |r.value.0| + |r.value.1| == |s|
  {
    if s == [] then
      Some(("", ""))
    else
      var init := s[..|s| - 1];
      var c := s[|s| - 1];
      assert s == init + [c];
      WhereAppend(init, [c], IsOperatorChar);
      WhereAppend(init, [c], IsValueChar);
      match Scan(init)
      case None => None
      case Some((op, value)) =>
        if IsOperatorChar(c) then Some((op + [c], value))
        else if IsValueChar(c) then Some((op, value + [c]))
        else None
  }

  /**
   * `_parse_comparison_value(s)`: the operator characters and the value of the numeric characters.
   * A character of neither kind raises `ValueError` echoing the whole input; an unreadable numeric
   * part (for instance an empty one) raises `ValueError` from `float`.
   */
  function ParseComparisonValue(s: string): (r: Result<(string, real), Error>)
    ensures (exists i :: 0 <= i < |s| && !IsExpressionChar(s[i])) <==> r == Failure(InvalidComparison(s))
    ensures r.Success? <==> (forall i :: 0 <= i < |s| ==> IsExpressionChar(s[i])) && ParseFloat(Where(s, IsValueChar)).Some?
    ensures r.Success? ==> r.value.0 == Where(s, IsOperatorChar) && ParseFloat(Where(s, IsValueChar)) == Some(r.value.1)
    ensures r.Failure? && !r.error.InvalidComparison? ==> r.error == NotAFloat(Where(s, IsValueChar))
    ensures (forall i :: 0 <= i < |s| ==> IsOperatorChar(s[i])) ==> r == Failure(NotAFloat(""))
  {
    match Scan(s)
    case None => Failure(InvalidComparison(s))
    case Some((op, value)) =>
      if forall i :: 0 <= i < |s| ==> IsOperatorChar(s[i]) then
        WhereNone(s, IsValueChar);
        Failure(NotAFloat(value))
      else
        match ParseFloat(value)
        case None => Failure(NotAFloat(value))
        case Some(x) => Success((op, x))
  }

  /** The operator characters of `op + num` are `op`, and its value characters are `num`. */
  lemma WhereConcat(op: string, num: string)
    requires forall i :: 0 <= i < |op| ==> IsOperatorChar(op[i])
    requires forall i :: 0 <= i < |num| ==> IsValueChar(num[i])
    ensures Where(op + num, IsOperatorChar) == op
    ensures Where(op + num, IsValueChar) == num
  {
    WhereLeft(op, num, IsOperatorChar);
    WhereRight(op, num, IsValueChar);
  }

  /** An operator prefix followed by a numeric part holds expression characters only. */
  lemma ConcatExpressionChars(op: string, num: string)
    requires forall i :: 0 <= i < |op| ==> IsOperatorChar(op[i])
    requires forall i :: 0 <= i < |num| ==> IsValueChar(num[i])
    ensures forall i :: 0 <= i < |op + num| ==> IsExpressionChar((op + num)[i])
  {
    var s := op + num;
    forall i | 0 <= i < |s|
      ensures IsExpressionChar(s[i])
    {
      if i >= |op| {
        assert s[i] == num[i - |op|];
      }
    }
  }

  /** An operator prefix followed by a numeric part scans back into exactly those two parts. */
  lemma ScanConcat(op: string, num: string)
    requires forall i :: 0 <= i < |op| ==> IsOperatorChar(op[i])
    requires forall i :: 0 <= i < |num| ==> IsValueChar(num[i])
    ensures Scan(op + num) == Some((op, num))
  {
    ConcatExpressionChars(op, num);
    WhereConcat(op, num);
  }

  /** An operator run followed by a value run parses as that operator and the float conversion of that value. */
  lemma ParseConcat(op: string, num: string)
    requires forall i :: 0 <= i < |op| ==> IsOperatorChar(op[i])
    requires forall i :: 0 <= i < |num| ==> IsValueChar(num[i])
    ensures ParseComparisonValue(op + num) ==
              match ParseFloat(num)
              case None => Failure(NotAFloat(num))
              case Some(x) => Success((op, x))
  {
    ScanConcat(op, num);
    var s := op + num;
    if num == [] {
      assert s == op;
      assert ParseFloat(num) == None;
    } else {
      assert !IsOperatorChar(s[|op|]) by {
        assert s[|op|] == num[0];
      }
    }
  }

  /** The decimal form of an integer is made of value characters only. */
  lemma ShowIntValueChars(n: int)
    ensures forall i :: 0 <= i < |ShowInt(n)| ==> IsValueChar(ShowInt(n)[i])
  {
    var num := ShowInt(n);
    if n >= 0 {
      assert num == ShowNat(n);
    } else {
      assert num == "-" + ShowNat(-n);
      forall i | 0 <= i < |num|
        ensures IsValueChar(num[i])
      {
        if i > 0 {
          assert num[i] == ShowNat(-n)[i - 1];
        }
      }
    }
  }

  /** Writing `op` before the decimal form of `n` gives an expression that parses to `(op, n)`. */
  lemma ParseComparisonValueRoundTrip(op: string, n: int)
    requires forall i :: 0 <= i < |op| ==> IsOperatorChar(op[i])
    ensures ParseComparisonValue(op + ShowInt(n)) == Success((op, n as real))
  {
    ShowIntValueChars(n);
    ParseConcat(op, ShowInt(n));
    ParseFloatShowInt(n);
  }

  /** `_parse_slice`'s result: `slice(start, stop, step)`, each part possibly `None`. */
  datatype SliceSpec = SliceSpec(start: Option<int>, stop: Option<int>, step: Option<int>)

  predicate NotDash(c: char)
  {
    c != '-'
  }

  /** `s.replace("-", "")`. */
  function RemoveDashes(s: string): string
  {
    Where(s, NotDash)
  }

  /**
   * One component of a two- or three-part slice: `int(c)` when `c` without its dashes is numeric,
   * `None` otherwise (the empty component included). `int` still raises on a misplaced dash.
   */
  function Component(c: string): (r: Result<Option<int>, Error>)
    ensures !IsNumeric(RemoveDashes(c)) ==> r == Success(None)
    ensures IsNumeric(RemoveDashes(c)) ==> (r.Success? <==> ParseInt(c).Some?) && (r.Success? ==> r.value == ParseInt(c))
    ensures r.Success? && r.value.Some? ==> ParseInt(c) == r.value
    ensures r.Failure? ==> r.error == NotAnInt(c)
  {
    if IsNumeric(RemoveDashes(c)) then
      match ParseInt(c)
      case Some(n) => Success(Some(n))
      case None => Failure(NotAnInt(c))
    else
      Success(None)
  }

  /** `_parse_slice` on two parts `start:stop`: each part read as a component, no step. */
  function SliceOfTwo(a: string, b: string): (r: Result<SliceSpec, Error>)
    ensures r.Success? <==> Component(a).Success? && Component(b).Success?
    ensures r.Success? ==> r.value == SliceSpec(Component(a).value, Component(b).value, None)
    ensures r.Failure? ==> r.error == NotAnInt(a) || r.error == NotAnInt(b)
  {
    var start :- Component(a);
    var stop :- Component(b);
    Success(SliceSpec(start, stop, None))
  }

  /** `_parse_slice` on three parts `start:stop:step`: each part read as a component. */
  function SliceOfThree(a: string, b: string, c: string): (r: Result<SliceSpec, Error>)
    ensures r.Success? <==> Component(a).Success? && Component(b).Success? && Component(c).Success?
    ensures r.Success? ==> r.value == SliceSpec(Component(a).value, Component(b).value, Component(c).value)
    ensures r.Failure? ==> r.error == NotAnInt(a) || r.error == NotAnInt(b) || r.error == NotAnInt(c)
  {
    var start :- Component(a);
    var stop :- Component(b);
    var step :- Component(c);
    Success(SliceSpec(start, stop, step))
  }

  /** `_parse_slice` once the argument is split into its `:`-separated parts. */
  function SliceOfParts(parts: seq<string>, arg: string): (r: Result<SliceSpec, Error>)
    requires |parts| >= 1
    ensures r == Failure(BadSlice(arg)) <==> |parts| > 3
    ensures |parts| == 1 ==>
              (r.Success? <==> ParseInt(parts[0]).Some?) &&
              (r.Success? ==> r.value == SliceSpec(ParseInt(parts[0]), ParseInt(parts[0]), None))
    ensures 2 <= |parts| <= 3 ==>
              (r.Success? <==> forall i :: 0 <= i < |parts| ==> Component(parts[i]).Success?) &&
              (r.Success? ==> r.value == SliceSpec(Component(parts[0]).value, Component(parts[1]).value,
                                                   if |parts| == 3 then Component(parts[2]).value else None))
    ensures r.Failure? && !r.error.BadSlice? ==> exists i :: 0 <= i < |parts| && r.error == NotAnInt(parts[i])
  {
    if |parts| == 1 then
      match ParseInt(parts[0])
      case None => Failure(NotAnInt(parts[0]))
      case Some(n) => Success(SliceSpec(Some(n), Some(n), None))
    else if |parts| == 2 then
      SliceOfTwo(parts[0], parts[1])
    else if |parts| == 3 then
      SliceOfThree(parts[0], parts[1], parts[2])
    else
      Failure(BadSlice(arg))
  }

  /**
   * `_parse_slice("start[:stop[:step]]")`: one component `n` gives `(n, n, None)`, two give
   * `(start, stop, None)`, three give `(start, stop, step)`, more raise `ValueError`.
   */
  function ParseSlice(arg: string): (r: Result<SliceSpec, Error>)
    ensures r == Failure(BadSlice(arg)) <==> |Split(arg, ':')| > 3
    ensures var parts := Split(arg, ':');
            |parts| == 1 ==>
              (r.Success? <==> ParseInt(parts[0]).Some?) &&
              (r.Success? ==> r.value == SliceSpec(ParseInt(parts[0]), ParseInt(parts[0]), None))
    ensures var parts := Split(arg, ':');
            2 <= |parts| <= 3 ==>
              (r.Success? <==> forall i :: 0 <= i < |parts| ==> Component(parts[i]).Success?) &&
              (r.Success? ==> r.value == SliceSpec(Component(parts[0]).value, Component(parts[1]).value,
                                                   if |parts| == 3 then Component(parts[2]).value else None))
    ensures var parts := Split(arg, ':');
            r.Failure? && !r.error.BadSlice? ==> exists i :: 0 <= i < |parts| && r.error == NotAnInt(parts[i])
  {
    SliceOfParts(Split(arg, ':'), arg)
  }

  /** A slice part as it is written in the argument: its decimal form, or nothing. */
  function ShowPart(p: Option<int>): string
  {
    match p
    case None => ""
    case Some(n) => ShowInt(n)
  }

  /** The argument `start:stop:step` that denotes a slice. */
  function ShowSlice(s: SliceSpec): string
  {
    Join([ShowPart(s.start), ShowPart(s.stop), ShowPart(s.step)], ':')
  }

  /** The digits of a magnitude are neither dashes nor colons. */
  lemma ShowNatPlain(m: nat)
    ensures forall i :: 0 <= i < |ShowNat(m)| ==> NotDash(ShowNat(m)[i]) && ShowNat(m)[i] != ':'
  {
    assert AllDigits(ShowNat(m));
  }

  /** Removing the dashes from the decimal form of `n` leaves the digits of its magnitude. */
  lemma RemoveDashesShowInt(n: int)
    ensures RemoveDashes(ShowInt(n)) == ShowNat(if n < 0 then -n else n)
  {
    var digits := ShowNat(if n < 0 then -n else n);
    ShowNatPlain(if n < 0 then -n else n);
    WhereAll(digits, NotDash);
    if n < 0 {
      assert ShowInt(n) == "-" + digits;
      WhereAppend("-", digits, NotDash);
      assert Where("-", NotDash) == [];
    }
  }

  /** The decimal form of an integer holds no colon, so it stays one slice part. */
  lemma ShowIntNoColon(n: int)
    ensures ':' !in ShowInt(n)
  {
    var digits := ShowNat(if n < 0 then -n else n);
    ShowNatPlain(if n < 0 then -n else n);
    if n < 0 {
      assert ShowInt(n) == "-" + digits;
    }
  }

  /** Every written slice part reads back as itself. */
  lemma ComponentShowPart(p: Option<int>)
    ensures ':' !in ShowPart(p)
    ensures Component(ShowPart(p)) == Success(p)
  {
    match p
    case None =>
    case Some(n) =>
      RemoveDashesShowInt(n);
      ShowIntNoColon(n);
  }

  /** Parsing the written form of any slice gives that slice back. */
  lemma ParseSliceRoundTrip(s: SliceSpec)
    ensures ParseSlice(ShowSlice(s)) == Success(s)
  {
    var parts := [ShowPart(s.start), ShowPart(s.stop), ShowPart(s.step)];
    assert Split(ShowSlice(s), ':') == parts by {
      ComponentShowPart(s.start);
      ComponentShowPart(s.stop);
      ComponentShowPart(s.step);
      assert forall i :: 0 <= i < |parts| ==> ':' !in parts[i];
      SplitJoin(parts, ':');
    }
    ComponentShowPart(s.start);
    ComponentShowPart(s.stop);
    ComponentShowPart(s.step);
  }

  /** The written form of a slice, as its three parts joined by colons. */
  lemma ShowSliceParts(s: SliceSpec)
    ensures ShowSlice(s) == ShowPart(s.start) + ":" + ShowPart(s.stop) + ":" + ShowPart(s.step)
  {
    var parts := [ShowPart(s.start), ShowPart(s.stop), ShowPart(s.step)];
    var front := [ShowPart(s.start), ShowPart(s.stop)];
    assert front[..1] == [ShowPart(s.start)];
    assert Join(front, ':') == ShowPart(s.start) + ":" + ShowPart(s.stop);
    assert parts[..2] == front;
    assert Join(parts, ':') == Join(front, ':') + ":" + ShowPart(s.step);
  }

  /** `_parse_slice(str(n))` is `(n, n, None)`. */
  lemma ParseSliceSingle(n: int)
    ensures ParseSlice(ShowInt(n)) == Success(SliceSpec(Some(n), Some(n), None))
  {
    ComponentShowPart(Some(n));
    SplitJoin([ShowInt(n)], ':');
  }

  /** `_parse_slice("start:stop")` reads both written parts back, with no step. */
  lemma ParseSlicePair(p: Option<int>, q: Option<int>)
    ensures ParseSlice(ShowPart(p) + ":" + ShowPart(q)) == Success(SliceSpec(p, q, None))
  {
    var parts := [ShowPart(p), ShowPart(q)];
    ComponentShowPart(p);
    ComponentShowPart(q);
    assert Join(parts, ':') == ShowPart(p) + ":" + ShowPart(q) by {
      assert parts[..1] == [ShowPart(p)];
    }
    SplitJoin(parts, ':');
  }

  /** A dash after the digits survives the `isnumeric` test but not `int()`: `_parse_slice("5-:")` raises. */
  lemma ComponentTrailingDash(d: string)
    requires IsNumeric(d)
    ensures Component(d + "-") == Failure(NotAnInt(d + "-"))
  {
    assert forall i :: 0 <= i < |d| ==> NotDash(d[i]);
    WhereAll(d, NotDash);
    WhereAppend(d, "-", NotDash);
    assert Where("-", NotDash) == [];
    assert RemoveDashes(d + "-") == d;
    assert Unsign(d + "-") == (false, d + "-") by {
      assert (d + "-")[0] == d[0];
    }
    assert (d + "-")[|d|] == '-';
  }

  /** The key of the `j`-th pair of command-line arguments: the even-position word without dashes. */
  function PairKey(args: seq<string>, j: nat): string
    requires 2 * j + 1 < |args|
  {
    RemoveDashes(args[2 * j])
  }

  /** The value of pair `j`. */
  function PairValue(args: seq<string>, j: nat): string
    requires 2 * j + 1 < |args|
  {
    args[2 * j + 1]
  }

  /** The loop of `_parse_kwargs`, continued from the dictionary `d` built so far. */
  function KwargsFrom(d: Dict<string>, args: seq<string>): Dict<string>
    decreases |args|
  {
    if |args| < 2 then
      d
    else
      KwargsFrom(Put(d, RemoveDashes(args[0]), args[1]), args[2..])
  }

  /** The loop never repeats a key: assigning to a present key replaces its value in place. */
  lemma {:induction false} KwargsFromDistinct(d: Dict<string>, args: seq<string>)
    requires DistinctKeys(d)
    ensures DistinctKeys(KwargsFrom(d, args))
    decreases |args|
  {
    if |args| >= 2 {
      PutDistinct(d, RemoveDashes(args[0]), args[1]);
      KwargsFromDistinct(Put(d, RemoveDashes(args[0]), args[1]), args[2..]);
    }
  }

  /** `_parse_kwargs(args)`: `[k1, v1, k2, v2, ...]` paired into a dictionary. */
  function ParseKwargs(args: seq<string>): (r: Dict<string>)
    ensures DistinctKeys(r)
  {
    KwargsFromDistinct([], args);
    KwargsFrom([], args)
  }

  /** Pair `j` is the last pair whose key is `k`. */
  ghost predicate LastPairFor(args: seq<string>, k: string, j: nat)
  {
    && 2 * j + 1 < |args|
    && PairKey(args, j) == k
    && forall j' :: j < j' && 2 * j' + 1 < |args| ==> PairKey(args, j') != k
  }

  /** Dropping the first pair renumbers the others down by one. */
  lemma RestPairKey(args: seq<string>, j: nat)
    requires 2 * j + 3 < |args|
    ensures PairKey(args[2..], j) == PairKey(args, j + 1)
    ensures PairValue(args[2..], j) == PairValue(args, j + 1)
  {
    assert args[2..][2 * j] == args[2 * (j + 1)];
  }

  /** The complete pairs `(key without dashes, value)` of the arguments, in order. */
  function Pairs(args: seq<string>): Dict<string>
    decreases |args|
  {
    if |args| < 2 then [] else [(RemoveDashes(args[0]), args[1])] + Pairs(args[2..])
  }

  /** There is one entry per complete pair, and entry `j` is pair `j`. */
  lemma {:induction false} PairsIndex(args: seq<string>)
    ensures |Pairs(args)| == |args| / 2
    ensures forall j :: 0 <= j < |Pairs(args)| ==> 2 * j + 1 < |args| && Pairs(args)[j] == (PairKey(args, j), PairValue(args, j))
    decreases |args|
  {
    if |args| >= 2 {
      var rest := args[2..];
      PairsIndex(rest);
      forall j | 0 < j < |Pairs(args)|
        ensures 2 * j + 1 < |args| && Pairs(args)[j] == (PairKey(args, j), PairValue(args, j))
      {
        assert Pairs(args)[j] == Pairs(rest)[j - 1];
        RestPairKey(args, j - 1);
      }
    }
  }

  /** The pairing loop is a dictionary update by the pairs, in order. */
  lemma {:induction false} KwargsFromUpdate(d: Dict<string>, args: seq<string>)
    ensures KwargsFrom(d, args) == Update(d, Pairs(args))
    decreases |args|
  {
    if |args| >= 2 {
      KwargsFromUpdate(Put(d, RemoveDashes(args[0]), args[1]), args[2..]);
      assert Pairs(args)[1..] == Pairs(args[2..]);
    }
  }

  /**
   * `_parse_kwargs`: a key is present exactly when some pair names it (dashes removed), and its
   * value is the one of the last such pair; a trailing unpaired word is dropped.
   */
  lemma ParseKwargsLookup(args: seq<string>, k: string)
    ensures (forall j: nat :: 2 * j + 1 < |args| ==> PairKey(args, j) != k) ==> Lookup(ParseKwargs(args), k) == None
    ensures forall j: nat :: LastPairFor(args, k, j) ==> Lookup(ParseKwargs(args), k) == Some(args[2 * j + 1])
  {
    var ps := Pairs(args);
    KwargsFromUpdate([], args);
    PairsIndex(args);
    if forall j: nat :: 2 * j + 1 < |args| ==> PairKey(args, j) != k {
      assert forall j :: 0 <= j < |ps| ==> ps[j].0 != k;
      UpdateUnnamed([], ps, k);
    }
    forall j: nat | LastPairFor(args, k, j)
      ensures Lookup(ParseKwargs(args), k) == Some(args[2 * j + 1])
    {
      assert LastEntryFor(ps, k, j);
      UpdateLastEntry([], ps, k, j);
    }
  }
}
