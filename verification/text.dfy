/** The string primitives the command-line parsers rely on: digits, `int()`, `float()` and `str.split`. */
module Text {
  import opened Wrappers

  predicate IsDigit(c: char)
  {
    '0' <= c <= '9'
  }

  predicate AllDigits(s: string)
  {
    forall i :: 0 <= i < |s| ==> IsDigit(s[i])
  }

  /** `str.isnumeric()` over ASCII: at least one character, and only digits. */
  predicate IsNumeric(s: string)
  {
    |s| > 0 && AllDigits(s)
  }

  /** The number a string of decimal digits denotes. */
  function DigitsValue(s: string): nat
    requires AllDigits(s)
  {
    if s == [] then 0 else 10 * DigitsValue(s[..|s| - 1]) + (s[|s| - 1] as int - '0' as int)
  }

  function DigitChar(d: nat): char
    requires d < 10
  {
    ('0' as int + d) as char
  }

  /** `str(n)` for a natural number; reading the digits back gives `n`. */
  function ShowNat(n: nat): (s: string)
    ensures IsNumeric(s)
    ensures DigitsValue(s) == n
  {
    if n < 10 then
      [DigitChar(n)]
    else
      var s := ShowNat(n / 10) + [DigitChar(n % 10)];
      assert s[..|s| - 1] == ShowNat(n / 10);
      s
  }

  /** Position of the first character satisfying `p`, or `|s|` when there is none. */
  function FirstIndex(s: string, p: char -> bool): (i: nat)
    ensures i <= |s|
    ensures i < |s| ==> p(s[i])
    ensures forall j :: 0 <= j < i ==> !p(s[j])
  {
    if s == [] then 0
    else if p(s[0]) then 0
    else 1 + FirstIndex(s[1..], p)
  }

  /** The first position satisfying `p` is determined by the characters up to it. */
  lemma FirstIndexAt(s: string, p: char -> bool, i: nat)
    requires i <= |s|
    requires i < |s| ==> p(s[i])
    requires forall j :: 0 <= j < i ==> !p(s[j])
    ensures FirstIndex(s, p) == i
  {
  }

  predicate IsSign(c: char)
  {
    c == '+' || c == '-'
  }

  /** Splits off an optional leading sign: whether it was `-`, and what follows. */
  function Unsign(s: string): (bool, string)
  {
    if |s| > 0 && IsSign(s[0]) then (s[0] == '-', s[1..]) else (false, s)
  }

  /** `int(s)` on an optionally signed run of ASCII digits; `None` where Python raises `ValueError`. */
  function ParseInt(s: string): (r: Option<int>)
    ensures r.Some? <==> IsNumeric(s) || (|s| >= 2 && IsSign(s[0]) && IsNumeric(s[1..]))
    ensures r.Some? && IsNumeric(s) ==> r.value == DigitsValue(s)
    ensures r.Some? && !IsNumeric(s) ==> r.value == if s[0] == '-' then -(DigitsValue(s[1..]) as int) else DigitsValue(s[1..])
  {
    var (negative, digits) := Unsign(s);
    if IsNumeric(digits) then
      var magnitude: int := DigitsValue(digits);
      Some(if negative then -magnitude else magnitude)
    else
      None
  }

  /** `str(n)` for an integer; `int()` reads it back unchanged. */
  function ShowInt(n: int): (s: string)
    ensures ParseInt(s) == Some(n)
  {
    if n < 0 then
      var s := "-" + ShowNat(-n);
      assert Unsign(s) == (true, ShowNat(-n));
      s
    else
      ShowNat(n)
  }

  function Pow10(n: nat): (p: nat)
    ensures p >= 1
  {
    if n == 0 then 1 else 10 * Pow10(n - 1)
  }

  /** The exact value `m * 10^e`. */
  function Scaled(m: nat, e: int): real
  {
    if e >= 0 then (m * Pow10(e)) as real else (m as real) / (Pow10(-e) as real)
  }

  predicate IsExponentMark(c: char)
  {
    c == 'e' || c == 'E'
  }

  predicate IsPoint(c: char)
  {
    c == '.'
  }

  /** A mantissa `ddd`, `ddd.`, `.ddd` or `ddd.ddd`: the digits read as one natural, and how many follow the point. */
  function Mantissa(s: string): (r: Option<(nat, nat)>)
    ensures r.Some? ==> exists i :: 0 <= i < |s| && IsDigit(s[i])
  {
    var point := FirstIndex(s, IsPoint);
    var whole := s[..point];
    var fraction := if point < |s| then s[point + 1..] else "";
    if AllDigits(whole) && AllDigits(fraction) && |whole| + |fraction| > 0 then
      assert AllDigits(whole + fraction);
      if |whole| > 0 then
        assert IsDigit(s[0]);
        Some((DigitsValue(whole + fraction), |fraction|))
      else
        assert IsDigit(s[point + 1]);
        Some((DigitsValue(whole + fraction), |fraction|))
    else
      None
  }

  /** `float` of an unsigned body: a mantissa and an optional exponent `e`/`E` followed by an optionally signed integer. */
  function UnsignedFloat(body: string): (r: Option<real>)
    ensures r.Some? ==> exists i :: 0 <= i < |body| && IsDigit(body[i])
    ensures IsNumeric(body) ==> r == Some(DigitsValue(body) as real)
  {
    var mark := FirstIndex(body, IsExponentMark);
    assert IsNumeric(body) ==> body[..mark] == body && Mantissa(body) == Some((DigitsValue(body), 0)) by {
      if IsNumeric(body) {
        assert forall i :: 0 <= i < |body| ==> !IsExponentMark(body[i]);
        MantissaOfDigits(body);
      }
    }
    var mantissa := Mantissa(body[..mark]);
    var exponent := if mark < |body| then ParseInt(body[mark + 1..]) else Some(0);
    if mantissa.Some? && exponent.Some? then
      assert exists i :: 0 <= i < |body| && IsDigit(body[i]) by {
        var i :| 0 <= i < mark && IsDigit(body[..mark][i]);
        assert body[i] == body[..mark][i];
      }
      Some(Scaled(mantissa.value.0, exponent.value - mantissa.value.1))
    else
      None
  }

  /**
   * `float(s)` as an exact rational: an optional sign followed by an unsigned body. Anything
   * else, the empty string included, is `None`, where Python raises `ValueError`.
   */
  function ParseFloat(s: string): (r: Option<real>)
    ensures r.Some? ==> exists i :: 0 <= i < |s| && IsDigit(s[i])
  {
    var (negative, body) := Unsign(s);
    match UnsignedFloat(body)
    case None => None
    case Some(x) =>
      assert body == s || body == s[1..];
      Some(if negative then -x else x)
  }

  /** A plain run of digits is a mantissa with nothing after the point. */
  lemma MantissaOfDigits(d: string)
    requires IsNumeric(d)
    ensures Mantissa(d) == Some((DigitsValue(d), 0))
  {
    var point := FirstIndex(d, IsPoint);
    assert forall i :: 0 <= i < |d| ==> !IsPoint(d[i]);
    assert point == |d|;
    assert d[..point] + "" == d;
  }

  /** `float("w.f")` is the digits `w` and `f` read as one number, scaled down by the digits after the point. */
  lemma UnsignedFloatPoint(w: string, f: string)
    requires AllDigits(w) && AllDigits(f) && |w| + |f| > 0
    ensures UnsignedFloat(w + "." + f) == Some(Scaled(DigitsValue(w + f), -|f|))
  {
    var body := w + "." + f;
    assert forall i :: 0 <= i < |body| ==> !IsExponentMark(body[i]);
    assert FirstIndex(body, IsExponentMark) == |body|;
    assert body[..|body|] == body;
    FirstIndexAt(body, IsPoint, |w|);
    assert body[..|w|] == w && body[|w| + 1..] == f;
    assert AllDigits(w + f);
  }

  /** `float("de<n>")` is the digits `d` read as a number, scaled by ten to the power `n`. */
  lemma UnsignedFloatExponent(d: string, n: int)
    requires IsNumeric(d)
    ensures UnsignedFloat(d + "e" + ShowInt(n)) == Some(Scaled(DigitsValue(d), n))
  {
    var body := d + "e" + ShowInt(n);
    FirstIndexAt(body, IsExponentMark, |d|);
    assert body[..|d|] == d && body[|d| + 1..] == ShowInt(n);
    MantissaOfDigits(d);
  }

  /** An optionally signed run of digits reads as a float with the same value. */
  lemma ParseFloatOfDigits(s: string, negative: bool, digits: string)
    requires IsNumeric(digits) && Unsign(s) == (negative, digits)
    ensures ParseFloat(s) == Some(if negative then -(DigitsValue(digits) as real) else DigitsValue(digits) as real)
  {
    var mark := FirstIndex(digits, IsExponentMark);
    assert forall i :: 0 <= i < |digits| ==> !IsExponentMark(digits[i]);
    assert mark == |digits|;
    assert digits[..mark] == digits;
    MantissaOfDigits(digits);
    assert Scaled(DigitsValue(digits), 0) == DigitsValue(digits) as real;
  }

  /** A leading `-` negates what `float()` reads, and a leading `+` changes nothing. */
  lemma ParseFloatSign(s: string)
    requires |s| > 0 && !IsSign(s[0])
    ensures ParseFloat("-" + s) == if ParseFloat(s).Some? then Some(-ParseFloat(s).value) else None
    ensures ParseFloat("+" + s) == ParseFloat(s)
  {
    assert Unsign(s) == (false, s);
    assert ("-" + s)[1..] == s;
    assert ("+" + s)[1..] == s;
  }

  /** Whatever `int()` reads, `float()` reads as the same number. */
  lemma ParseFloatOfInt(s: string)
    requires ParseInt(s).Some?
    ensures ParseFloat(s) == Some(ParseInt(s).value as real)
  {
    var (negative, digits) := Unsign(s);
    ParseFloatOfDigits(s, negative, digits);
  }

  /** `str(n)` is a sign for negative numbers followed by the digits of the magnitude. */
  lemma UnsignShowInt(n: int)
    ensures Unsign(ShowInt(n)) == (n < 0, ShowNat(if n < 0 then -n else n))
  {
    var s := ShowInt(n);
    if n < 0 {
      assert s[1..] == ShowNat(-n);
    } else {
      assert IsDigit(s[0]);
    }
  }

  /** `float(str(n))` is `n` for every integer. */
  lemma ParseFloatShowInt(n: int)
    ensures ParseFloat(ShowInt(n)) == Some(n as real)
  {
    UnsignShowInt(n);
    ParseFloatOfDigits(ShowInt(n), n < 0, ShowNat(if n < 0 then -n else n));
  }

  /** `sep.join(parts)`. */
  function Join(parts: seq<string>, sep: char): string
    requires |parts| >= 1
  {
    if |parts| == 1 then parts[0] else Join(parts[..|parts| - 1], sep) + [sep] + parts[|parts| - 1]
  }

  /** The pieces `p` with `y` appended to the last one. */
  function ExtendLast(p: seq<string>, y: string): seq<string>
    requires |p| >= 1
  {
    p[..|p| - 1] + [p[|p| - 1] + y]
  }

  /** `s.split(sep)`: the maximal separator-free pieces, one more than there are separators. */
  function Split(s: string, sep: char): (parts: seq<string>)
    ensures |parts| >= 1
    ensures forall i :: 0 <= i < |parts| ==> sep !in parts[i]
  {
    if s == [] then [""]
    else
      var init := Split(s[..|s| - 1], sep);
      var c := s[|s| - 1];
      if c == sep then init + [""] else ExtendLast(init, [c])
  }

  /** One more character: a separator opens an empty piece, any other character extends the last piece. */
  lemma SplitSnoc(s: string, c: char, sep: char)
    ensures Split(s + [c], sep) == if c == sep then Split(s, sep) + [""] else ExtendLast(Split(s, sep), [c])
  {
    assert (s + [c])[..|s|] == s;
  }

  /** Joining with one more, empty, piece adds a separator. */
  lemma JoinAppendEmpty(parts: seq<string>, sep: char)
    requires |parts| >= 1
    ensures Join(parts + [""], sep) == Join(parts, sep) + [sep]
  {
    var q := parts + [""];
    assert q[..|q| - 1] == parts;
    assert Join(parts, sep) + [sep] + "" == Join(parts, sep) + [sep];
  }

  /** Extending the last piece extends the joined string. */
  lemma JoinExtendLast(parts: seq<string>, sep: char, c: char)
    requires |parts| >= 1
    ensures Join(ExtendLast(parts, [c]), sep) == Join(parts, sep) + [c]
  {
    var k := |parts| - 1;
    var q := ExtendLast(parts, [c]);
    if k == 0 {
      assert q == [parts[0] + [c]];
    } else {
      assert q[..k] == parts[..k];
      assert Join(q, sep) == Join(parts[..k], sep) + [sep] + (parts[k] + [c]);
    }
  }

  /** A non-empty sequence is its front followed by its last element. */
  lemma InitLast<T>(xs: seq<T>)
    requires |xs| >= 1
    ensures xs[..|xs| - 1] + [xs[|xs| - 1]] == xs
  {
  }

  /** Joining the pieces of a split gives the string back. */
  lemma {:induction false} JoinSplit(s: string, sep: char)
    ensures Join(Split(s, sep), sep) == s
    decreases |s|
  {
    if s != [] {
      var s' := s[..|s| - 1];
      var c := s[|s| - 1];
      var p := Split(s', sep);
      JoinSplit(s', sep);
      if c == sep {
        assert Split(s, sep) == p + [""];
        JoinAppendEmpty(p, sep);
      } else {
        assert Split(s, sep) == ExtendLast(p, [c]);
        JoinExtendLast(p, sep, c);
      }
      InitLast(s);
    }
  }

  /** Extending the last piece twice is extending it once with both texts. */
  lemma ExtendLastTwice(p: seq<string>, y: string, z: string)
    requires |p| >= 1
    ensures ExtendLast(ExtendLast(p, y), z) == ExtendLast(p, y + z)
  {
    var k := |p| - 1;
    assert p[k] + y + z == p[k] + (y + z);
  }

  /** One more non-separator character after text that only lengthened the last piece. */
  lemma SplitAppendChar(x: string, y: string, c: char, sep: char)
    requires c != sep
    requires Split(x + y, sep) == ExtendLast(Split(x, sep), y)
    ensures Split(x + (y + [c]), sep) == ExtendLast(Split(x, sep), y + [c])
  {
    var t := x + y;
    SplitSnoc(t, c, sep);
    ExtendLastTwice(Split(x, sep), y, [c]);
    assert t + [c] == x + (y + [c]);
  }

  /** Appending separator-free text only lengthens the last piece. */
  lemma {:induction false} SplitAppendPlain(x: string, y: string, sep: char)
    requires sep !in y
    ensures Split(x + y, sep) == ExtendLast(Split(x, sep), y)
    decreases |y|
  {
    if y == [] {
      var p := Split(x, sep);
      assert x + y == x;
      assert p[|p| - 1] + y == p[|p| - 1];
      assert p[..|p| - 1] + [p[|p| - 1]] == p;
    } else {
      var y' := y[..|y| - 1];
      var c := y[|y| - 1];
      assert y == y' + [c];
      SplitAppendPlain(x, y', sep);
      SplitAppendChar(x, y', c, sep);
    }
  }

  /** A single separator-free piece splits back to itself. */
  lemma SplitSingle(w: string, sep: char)
    requires sep !in w
    ensures Split(Join([w], sep), sep) == [w]
  {
    SplitAppendPlain([], w, sep);
    assert [] + w == w;
    assert ExtendLast([""], w) == [w];
  }

  /** Extending a trailing empty piece replaces it. */
  lemma ExtendLastEmpty(q: seq<string>, w: string)
    ensures ExtendLast(q + [""], w) == q + [w]
  {
    assert (q + [""])[..|q|] == q;
    assert "" + w == w;
  }

  /** A list whose last piece is separator-free splits back to itself when the list without it does. */
  lemma SplitJoinSnoc(parts: seq<string>, sep: char)
    requires |parts| >= 2 && sep !in parts[|parts| - 1]
    requires Split(Join(parts[..|parts| - 1], sep), sep) == parts[..|parts| - 1]
    ensures Split(Join(parts, sep), sep) == parts
  {
    var init := parts[..|parts| - 1];
    var last := parts[|parts| - 1];
    var j := Join(init, sep);
    assert Join(parts, sep) == j + [sep] + last;
    SplitSnoc(j, sep, sep);
    SplitAppendPlain(j + [sep], last, sep);
    ExtendLastEmpty(init, last);
    InitLast(parts);
  }

  /** Splitting a joined list gives the list back when no piece contains the separator. */
  lemma {:induction false} SplitJoin(parts: seq<string>, sep: char)
    requires |parts| >= 1
    requires forall i :: 0 <= i < |parts| ==> sep !in parts[i]
    ensures Split(Join(parts, sep), sep) == parts
  {
    if |parts| == 1 {
      SplitSingle(parts[0], sep);
      assert parts == [parts[0]];
    } else {
      SplitJoin(parts[..|parts| - 1], sep);
      SplitJoinSnoc(parts, sep);
    }
  }
}
