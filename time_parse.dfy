/** Timestamp parsing: `parse_time_str` (app.py:40-51). Times are exact
    reals; the rounding of IEEE-754 doubles is not modelled. */
module TimeParse {
  import opened Wrappers
  import opened Decimal
  import opened Text

  /** Why a timestamp token was refused. Python raises `ValueError` for
      both; the batch handler catches either and aborts. */
  datatype TimeError =
    | BadNumber(piece: string)      // `float(piece)` raised
    | TooManyParts(token: string)   // more than three `:`-separated pieces in `token`

  /** Index of the first occurrence of `c` in `q`, or `|q|` if none. */
  function IndexOf(q: string, c: char): (k: nat)
    ensures k <= |q|
    ensures forall j :: 0 <= j < k ==> q[j] != c
    ensures k < |q| ==> q[k] == c
  {
    if q == [] then 0
    else if q[0] == c then 0
    else 1 + IndexOf(q[1..], c)
  }

  /** The value of the digits after a decimal point: `d1 d2 ...` is
      `d1/10 + d2/100 + ...`, always in [0, 1). */
  function FractionValue(s: string): (x: real)
    requires AllDigits(s)
    ensures 0.0 <= x < 1.0
  {
    if s == [] then 0.0 else (DigitValue(s[0]) as real + FractionValue(s[1..])) / 10.0
  }

  /** An unsigned decimal literal as `float()` reads it: digits with an
      optional fraction (`12`, `12.`, `12.5`, `.5`); at least one digit. */
  function ParseUnsigned(q: string): Option<real> {
    var k := IndexOf(q, '.');
    var whole := q[..k];
    var frac := if k < |q| then q[k + 1..] else [];
    if |whole| + |frac| > 0 && AllDigits(whole) && AllDigits(frac) then
      Some(DigitsValue(whole) as real + FractionValue(frac))
    else
      None
  }

  /** An accepted unsigned literal is non-negative, non-empty and free
      of `:`. */
  lemma ParseUnsignedShape(q: string)
    ensures ParseUnsigned(q).Some? ==> 0.0 <= ParseUnsigned(q).value && q != [] && ':' !in q
  {
    var k := IndexOf(q, '.');
    var whole := q[..k];
    var frac := if k < |q| then q[k + 1..] else [];
    if ParseUnsigned(q).Some? {
      forall i | 0 <= i < |q| ensures q[i] != ':' {
        if i < k { assert q[i] == whole[i]; }
        else if i > k { assert q[i] == frac[i - k - 1]; }
      }
    }
  }

  /** A string of digits reads as its decimal value. */
  lemma ParseUnsignedDigits(q: string)
    requires q != [] && AllDigits(q)
    ensures ParseUnsigned(q).Some? && ParseUnsigned(q).value == DigitsValue(q) as real
  {
    var k := IndexOf(q, '.');
    assert k == |q|;
    assert q[..k] == q;
  }

  /** One optional sign, then an unsigned literal; `q` is already stripped. */
  function ParseSigned(q: string): Option<real> {
    if q != [] && (q[0] == '-' || q[0] == '+') then
      match ParseUnsigned(q[1..])
      case Some(x) => Some(if q[0] == '-' then -x else x)
      case None => None
    else ParseUnsigned(q)
  }

  /** An accepted signed literal is non-empty and free of `:`. */
  lemma ParseSignedShape(q: string)
    ensures ParseSigned(q).Some? ==> q != [] && ':' !in q
  {
    if q != [] && (q[0] == '-' || q[0] == '+') {
      ParseUnsignedShape(q[1..]);
      if ParseSigned(q).Some? {
        forall i | 0 <= i < |q| ensures q[i] != ':' {
          if i > 0 { assert q[i] == q[1..][i - 1]; }
        }
      }
    } else {
      ParseUnsignedShape(q);
    }
  }

  /** The four information separators U+001C to U+001F: `str.isspace()`
      holds of them, but `float()` does not skip them. CPython's `float()`
      turns white space from U+007F up into a space and then skips only
      ASCII white space. */
  predicate IsInfoSeparator(c: char) {
    '\U{1C}' <= c <= '\U{1F}'
  }

  predicate NoInfoSeparator(s: string) {
    forall i :: 0 <= i < |s| ==> !IsInfoSeparator(s[i])
  }

  /** The white space `float()` skips around a literal. */
  predicate IsFloatSpace(c: char) {
    IsSpace(c) && !IsInfoSeparator(c)
  }

  predicate AllFloatSpace(s: string) {
    forall i :: 0 <= i < |s| ==> IsFloatSpace(s[i])
  }

  /** Python's `float(p)`, restricted to decimal literals: white space is
      tolerated around the literal, which may carry one sign. `None` is the
      `ValueError` that `float()` raises. An information separator is
      neither skipped nor part of a literal, so a piece that holds one is
      refused; any other piece is the literal `strip()` leaves. */
  function ParseNumber(p: string): Option<real> {
    if NoInfoSeparator(p) then ParseSigned(Strip(p)) else None
  }

  /** An accepted piece is never blank and never holds the `:` that
      separates pieces. */
  lemma ParseNumberShape(p: string)
    ensures ParseNumber(p).Some? ==> !AllSpace(p) && ':' !in p
  {
    StripSpec(p);
    StrippedColon(p);
    ParseSignedShape(Strip(p));
  }

  /** `strip()` never removes a `:`. */
  lemma StrippedColon(p: string)
    ensures ':' !in Strip(p) ==> ':' !in p
  {
    if ':' in p {
      StripKeepsChar(p, ':');
    }
  }

  /** `float()` of a non-empty digit string is its decimal value. */
  lemma ParseNumberOfDigits(s: string)
    requires s != [] && AllDigits(s)
    ensures ParseNumber(s).Some? && ParseNumber(s).value == DigitsValue(s) as real
  {
    DigitsNoInfoSeparator(s);
    LiteralCharNotSpace(s[0]);
    LiteralCharNotSpace(s[|s| - 1]);
    ParseNumberUnpadded(s);
    ParseUnsignedDigits(s);
    assert ParseSigned(s) == ParseUnsigned(s);
  }

  lemma DigitsNoInfoSeparator(s: string)
    requires AllDigits(s)
    ensures NoInfoSeparator(s)
  {
    forall i | 0 <= i < |s| ensures !IsInfoSeparator(s[i]) {
      assert IsDigit(s[i]);
    }
  }

  /** Reading back what `str()` prints for a natural number gives it back. */
  lemma ParseNumberOfNat(n: nat)
    ensures ParseNumber(NatToString(n)).Some?
    ensures ParseNumber(NatToString(n)).value == n as real
  {
    ParseNumberOfDigits(NatToString(n));
  }

  /** `float()` ignores the white space it skips around the literal. */
  lemma ParseNumberPadded(w1: string, s: string, w2: string)
    requires AllFloatSpace(w1) && AllFloatSpace(w2)
    ensures ParseNumber(w1 + s + w2) == ParseNumber(s)
  {
    var p := w1 + s + w2;
    assert AllSpace(w1) && AllSpace(w2);
    StripPadded(w1, s, w2);
    if NoInfoSeparator(s) {
      forall i | 0 <= i < |p| ensures !IsInfoSeparator(p[i]) {
        if i < |w1| {
          assert p[i] == w1[i];
        } else if i < |w1| + |s| {
          assert p[i] == s[i - |w1|];
        } else {
          assert p[i] == w2[i - |w1| - |s|];
        }
      }
    } else if NoInfoSeparator(p) {
      InfoSeparatorConcat(w1, s, w2);
    }
  }

  /** A string with no information separator has none in any part. */
  lemma InfoSeparatorConcat(a: string, b: string, c: string)
    requires NoInfoSeparator(a + b + c)
    ensures NoInfoSeparator(a) && NoInfoSeparator(b) && NoInfoSeparator(c)
  {
    var p := a + b + c;
    forall i | 0 <= i < |a| ensures !IsInfoSeparator(a[i]) { assert a[i] == p[i]; }
    forall i | 0 <= i < |b| ensures !IsInfoSeparator(b[i]) { assert b[i] == p[|a| + i]; }
    forall i | 0 <= i < |c| ensures !IsInfoSeparator(c[i]) { assert c[i] == p[|a| + |b| + i]; }
  }

  /** `float()` refuses a number with an information separator in front,
      though `strip()` removes it. */
  lemma InfoSeparatorRefused(c: char, s: string)
    requires IsInfoSeparator(c)
    ensures ParseNumber([c] + s).None?
  {
    assert ([c] + s)[0] == c;
  }

  /** The signs `float()` accepts in front of a literal: none, `+` or `-`. */
  predicate IsSign(sg: string) {
    sg == [] || sg == ['+'] || sg == ['-']
  }

  /** The text of the literal `sg whole[.frac]`. */
  function LiteralText(sg: string, whole: string, point: bool, frac: string): string {
    sg + (whole + (if point then ['.'] else []) + frac)
  }

  /** `p` is a decimal literal padded with white space: `w1`, a sign,
      digits, a point when `point` holds, digits, `w2`; at least one digit,
      and fraction digits only after a point. */
  predicate IsLiteral(p: string, w1: string, sg: string, whole: string, point: bool, frac: string, w2: string) {
    AllFloatSpace(w1) && AllFloatSpace(w2) && IsSign(sg) && AllDigits(whole) && AllDigits(frac) &&
    |whole| + |frac| > 0 && (point || frac == []) &&
    p == w1 + LiteralText(sg, whole, point, frac) + w2
  }

  /** `x` under the sign `sg`. */
  function Signed(sg: string, x: real): real {
    if sg == ['-'] then -x else x
  }

  /** The value a literal denotes: its sign applied to the whole part plus
      the fraction. */
  function LiteralValue(sg: string, whole: string, frac: string): real
    requires AllDigits(whole) && AllDigits(frac)
  {
    Signed(sg, DigitsValue(whole) as real + FractionValue(frac))
  }

  /** Searching past a prefix that does not hold `c`. */
  lemma {:induction false} IndexOfAfter(a: string, b: string, c: char)
    requires c !in a
    ensures IndexOf(a + b, c) == |a| + IndexOf(b, c)
  {
    if a == [] {
      assert a + b == b;
    } else {
      assert (a + b)[0] == a[0];
      assert (a + b)[1..] == a[1..] + b;
      IndexOfAfter(a[1..], b, c);
    }
  }

  /** An unsigned literal reads as its whole part plus its fraction. */
  lemma ParseUnsignedOfLiteral(whole: string, point: bool, frac: string)
    requires AllDigits(whole) && AllDigits(frac) && |whole| + |frac| > 0 && (point || frac == [])
    ensures var q := whole + (if point then ['.'] else []) + frac;
            ParseUnsigned(q).Some? && ParseUnsigned(q).value == DigitsValue(whole) as real + FractionValue(frac)
  {
    var rest := (if point then ['.'] else []) + frac;
    var q := whole + rest;
    assert q == whole + (if point then ['.'] else []) + frac;
    assert '.' !in whole by {
      forall i | 0 <= i < |whole| ensures whole[i] != '.' {
        assert IsDigit(whole[i]);
      }
    }
    IndexOfAfter(whole, rest, '.');
    if point {
      assert rest[0] == '.';
    } else {
      assert rest == [];
    }
    var k := IndexOf(q, '.');
    assert k == |whole|;
    assert q[..k] == whole;
    if point {
      assert q[k + 1..] == frac;
    }
  }

  /** The unsigned part of a literal starts and ends with a digit or the
      point, so neither end is white space or a sign. */
  lemma LiteralEnds(whole: string, point: bool, frac: string)
    requires AllDigits(whole) && AllDigits(frac) && |whole| + |frac| > 0 && (point || frac == [])
    ensures var u := whole + (if point then ['.'] else []) + frac;
            u != [] && (IsDigit(u[0]) || u[0] == '.') && (IsDigit(u[|u| - 1]) || u[|u| - 1] == '.')
  {
    var u := whole + (if point then ['.'] else []) + frac;
    if whole != [] {
      assert u[0] == whole[0];
    }
    if frac != [] {
      assert u[|u| - 1] == frac[|frac| - 1];
    } else if !point {
      assert u[|u| - 1] == whole[|whole| - 1];
    }
  }

  /** A sign in front of an unsigned literal negates it or not. */
  lemma ParseSignedOf(sg: string, u: string)
    requires IsSign(sg) && u != [] && u[0] != '-' && u[0] != '+' && ParseUnsigned(u).Some?
    ensures ParseSigned(sg + u).Some?
    ensures ParseSigned(sg + u).value == Signed(sg, ParseUnsigned(u).value)
  {
    if sg == [] {
      assert sg + u == u;
    } else {
      assert (sg + u)[0] == sg[0] && (sg + u)[1..] == u;
    }
  }

  /** `float()` of an unpadded literal is the value it denotes. */
  lemma ParseLiteralText(sg: string, whole: string, point: bool, frac: string)
    requires IsSign(sg) && AllDigits(whole) && AllDigits(frac) && |whole| + |frac| > 0 && (point || frac == [])
    ensures ParseNumber(LiteralText(sg, whole, point, frac)).Some?
    ensures ParseNumber(LiteralText(sg, whole, point, frac)).value == LiteralValue(sg, whole, frac)
  {
    var u := whole + (if point then ['.'] else []) + frac;
    var s := LiteralText(sg, whole, point, frac);
    LiteralEnds(whole, point, frac);
    ParseUnsignedOfLiteral(whole, point, frac);
    ParseSignedOf(sg, u);
    assert s == sg + u;
    assert s[|s| - 1] == u[|u| - 1];
    assert s[0] == if sg == [] then u[0] else sg[0];
    assert IsDigit(s[0]) || s[0] == '.' || s[0] == '-' || s[0] == '+';
    LiteralCharNotSpace(s[0]);
    LiteralCharNotSpace(s[|s| - 1]);
    LiteralNoInfoSeparator(sg, whole, point, frac);
    ParseNumberUnpadded(s);
    assert ParseNumber(s) == ParseSigned(sg + u);
    assert ParseUnsigned(u).value == DigitsValue(whole) as real + FractionValue(frac);
  }

  /** A literal holds no information separator. */
  lemma LiteralNoInfoSeparator(sg: string, whole: string, point: bool, frac: string)
    requires IsSign(sg) && AllDigits(whole) && AllDigits(frac)
    ensures NoInfoSeparator(LiteralText(sg, whole, point, frac))
  {
    var s := LiteralText(sg, whole, point, frac);
    var u := whole + (if point then ['.'] else []) + frac;
    assert s == sg + u;
    forall i | 0 <= i < |s| ensures !IsInfoSeparator(s[i]) {
      if i < |sg| {
        assert s[i] == sg[i];
      } else if i < |sg| + |whole| {
        assert s[i] == whole[i - |sg|];
      } else if i >= |s| - |frac| {
        assert s[i] == frac[i - (|s| - |frac|)];
      } else {
        assert s[i] == '.';
      }
    }
  }

  /** Digits, the point and the signs are not white space. */
  lemma LiteralCharNotSpace(c: char)
    requires IsDigit(c) || c == '.' || c == '-' || c == '+'
    ensures !IsSpace(c)
  {
  }

  /** `float()` of a piece without surrounding white space. */
  lemma ParseNumberUnpadded(s: string)
    requires s != [] && !IsSpace(s[0]) && !IsSpace(s[|s| - 1]) && NoInfoSeparator(s)
    ensures ParseNumber(s) == ParseSigned(s)
  {
    StripUnpadded(s);
  }

  /** `float()` of a padded literal is the value the literal denotes. */
  lemma ParseNumberOfLiteral(p: string, w1: string, sg: string, whole: string, point: bool, frac: string, w2: string)
    requires IsLiteral(p, w1, sg, whole, point, frac, w2)
    ensures ParseNumber(p).Some? && ParseNumber(p).value == LiteralValue(sg, whole, frac)
  {
    ParseNumberPadded(w1, LiteralText(sg, whole, point, frac), w2);
    ParseLiteralText(sg, whole, point, frac);
  }

  /** The sign a stripped piece starts with, if any. */
  function SignOf(r: string): string {
    if r != [] && (r[0] == '-' || r[0] == '+') then r[..1] else []
  }

  /** The parts of an unsigned literal around its first point. */
  function WholeOf(q: string): string {
    q[..IndexOf(q, '.')]
  }

  predicate HasPoint(q: string) {
    IndexOf(q, '.') < |q|
  }

  function FracOf(q: string): string {
    if HasPoint(q) then q[IndexOf(q, '.') + 1..] else []
  }

  /** Splits an accepted unsigned literal at its first point. */
  lemma UnsignedIsLiteral(q: string)
    requires ParseUnsigned(q).Some?
    ensures AllDigits(WholeOf(q)) && AllDigits(FracOf(q)) && |WholeOf(q)| + |FracOf(q)| > 0
    ensures q == WholeOf(q) + (if HasPoint(q) then ['.'] else []) + FracOf(q)
  {
    var k := IndexOf(q, '.');
    if k < |q| {
      assert q == q[..k] + [q[k]] + q[k + 1..];
    } else {
      assert q[..k] == q;
    }
  }

  /** Splits an accepted unpadded piece into sign, whole part, point and
      fraction. */
  lemma SignedIsLiteral(r: string)
    requires ParseSigned(r).Some?
    ensures var q := r[|SignOf(r)|..];
            IsSign(SignOf(r)) && AllDigits(WholeOf(q)) && AllDigits(FracOf(q)) &&
            |WholeOf(q)| + |FracOf(q)| > 0 &&
            r == LiteralText(SignOf(r), WholeOf(q), HasPoint(q), FracOf(q))
  {
    var sg := SignOf(r);
    var q := r[|sg|..];
    assert r == sg + q;
    if sg != [] {
      assert sg == [r[0]];
      assert ParseUnsigned(q).Some?;
    } else {
      assert q == r;
    }
    UnsignedIsLiteral(q);
  }

  /** Every piece `float()` accepts is a padded literal. With
      `ParseNumberOfLiteral`, this pins down `float()` on this grammar:
      it accepts exactly the padded literals, with the value they denote. */
  lemma ParseNumberIsLiteral(p: string)
    ensures ParseNumber(p).Some? <==>
            exists w1, sg, whole, point, frac, w2 :: IsLiteral(p, w1, sg, whole, point, frac, w2)
  {
    if ParseNumber(p).Some? {
      var t := StripStart(p);
      var r := Strip(p);
      StripStartPrefix(p);
      StripEndSuffix(t);
      var w1 := p[..|p| - |t|];
      var w2 := t[|r|..];
      assert p == w1 + r + w2;
      InfoSeparatorConcat(w1, r, w2);
      SignedIsLiteral(r);
      var q := r[|SignOf(r)|..];
      assert IsLiteral(p, w1, SignOf(r), WholeOf(q), HasPoint(q), FracOf(q), w2);
    }
    if exists w1, sg, whole, point, frac, w2 :: IsLiteral(p, w1, sg, whole, point, frac, w2) {
      var w1, sg, whole, point, frac, w2 :| IsLiteral(p, w1, sg, whole, point, frac, w2);
      ParseNumberOfLiteral(p, w1, sg, whole, point, frac, w2);
    }
  }

  /** `float()` of `a.b` over symbolic digits. */
  lemma FractionForm(a: char, b: char)
    requires IsDigit(a) && IsDigit(b)
    ensures ParseNumber([a, '.', b]).Some?
    ensures ParseNumber([a, '.', b]).value == DigitValue(a) as real + DigitValue(b) as real / 10.0
  {
    assert [a, '.', b] == [] + LiteralText([], [a], true, [b]) + [];
    ParseNumberOfLiteral([a, '.', b], [], [], [a], true, [b], []);
    assert DigitsValue([a]) == DigitValue(a) by { assert [a][..0] == []; }
    assert FractionValue([b]) == DigitValue(b) as real / 10.0 by { assert [b][1..] == []; }
    assert LiteralValue([], [a], [b]) == DigitValue(a) as real + DigitValue(b) as real / 10.0;
  }

  /** `float()` of ` -.b` over a symbolic digit: white space, a sign, no
      whole part. */
  lemma NegativeFractionForm(b: char)
    requires IsDigit(b)
    ensures ParseNumber([' ', '-', '.', b]).Some?
    ensures ParseNumber([' ', '-', '.', b]).value == -(DigitValue(b) as real / 10.0)
  {
    assert [' ', '-', '.', b] == [' '] + LiteralText(['-'], [], true, [b]) + [];
    ParseNumberOfLiteral([' ', '-', '.', b], [' '], ['-'], [], true, [b], []);
    assert FractionValue([b]) == DigitValue(b) as real / 10.0 by { assert [b][1..] == []; }
    assert LiteralValue(['-'], [], [b]) == -(DigitValue(b) as real / 10.0);
  }

  /** `float("1.5")` is 1.5 and `float(" -.5")` is -0.5. */
  lemma ExampleFractions()
    ensures ParseNumber("1.5").Some? && ParseNumber("1.5").value == 1.5
    ensures ParseNumber(" -.5").Some? && ParseNumber(" -.5").value == -0.5
  {
    FractionForm('1', '5');
    NegativeFractionForm('5');
  }

  /** Applies `f` to each element in order, stopping at the first error,
      as a Python list comprehension stops at the first exception. */
  function TryMap<A, B, E>(f: A -> Result<B, E>, xs: seq<A>): (r: Result<seq<B>, E>)
    ensures r.Ok? <==> forall i :: 0 <= i < |xs| ==> f(xs[i]).Ok?
    ensures r.Ok? ==> |r.value| == |xs| &&
                      forall i :: 0 <= i < |xs| ==> f(xs[i]).Ok? && f(xs[i]).value == r.value[i]
    ensures r.Err? ==> exists i :: 0 <= i < |xs| && f(xs[i]).Err? && f(xs[i]).error == r.error &&
                                   forall j :: 0 <= j < i ==> f(xs[j]).Ok?
  {
    if xs == [] then Ok([])
    else
      match f(xs[0])
      case Err(e) => Err(e)
      case Ok(b) =>
        match TryMap(f, xs[1..])
        case Err(e) =>
          assert exists i :: 0 <= i < |xs| && f(xs[i]) == Err(e) &&
                             forall j :: 0 <= j < i ==> f(xs[j]).Ok? by {
            var i :| 0 <= i < |xs| - 1 && f(xs[1..][i]) == Err(e) &&
                     forall j :: 0 <= j < i ==> f(xs[1..][j]).Ok?;
            assert f(xs[i + 1]) == Err(e);
            forall j | 0 <= j < i + 1 ensures f(xs[j]).Ok? {
              if j > 0 { assert xs[j] == xs[1..][j - 1]; }
            }
          }
          Err(e)
        case Ok(bs) => Ok([b] + bs)
  }

  /** `float(p)` as one step of the comprehension on app.py:41. */
  function ParsePiece(p: string): (r: Result<real, TimeError>)
    ensures r.Ok? <==> ParseNumber(p).Some?
    ensures r.Ok? ==> r.value == ParseNumber(p).value
    ensures r.Err? ==> r.error == BadNumber(p)
  {
    match ParseNumber(p)
    case Some(x) => Ok(x)
    case None => Err(BadNumber(p))
  }

  /** Seconds from one, two or three components read as
      `[[hours:]minutes:]seconds`. */
  function Combine(vs: seq<real>): real
    requires 1 <= |vs| <= 3
  {
    if |vs| == 1 then vs[0]
    else if |vs| == 2 then vs[0] * 60.0 + vs[1]
    else vs[0] * 3600.0 + vs[1] * 60.0 + vs[2]
  }

  /** `parse_time_str`: split on `:`, parse every piece, and only then
      check that there are at most three (app.py:40-51). */
  function ParseTime(tstr: string): Result<real, TimeError> {
    var parts := SplitOn(tstr, ':');
    match TryMap(ParsePiece, parts)
    case Err(e) => Err(e)
    case Ok(vs) => if |vs| <= 3 then Ok(Combine(vs)) else Err(TooManyParts(tstr))
  }

  /** `parse_time_str` succeeds exactly when every piece is a number and
      there are at most three pieces. */
  lemma ParseTimeAccepts(tstr: string)
    ensures var parts := SplitOn(tstr, ':');
            ParseTime(tstr).Ok? <==>
              (forall i :: 0 <= i < |parts| ==> ParseNumber(parts[i]).Some?) && |parts| <= 3
  {
    var parts := SplitOn(tstr, ':');
    var m := TryMap(ParsePiece, parts);
    assert m.Ok? <==> forall i :: 0 <= i < |parts| ==> ParseNumber(parts[i]).Some?;
  }

  /** The count error is raised only when every piece is a number and
      there are more than three pieces; it names the whole token. */
  lemma ParseTimeCountError(tstr: string)
    requires ParseTime(tstr).Err? && ParseTime(tstr).error.TooManyParts?
    ensures var parts := SplitOn(tstr, ':');
            ParseTime(tstr).error.token == tstr && |parts| > 3 &&
            forall i :: 0 <= i < |parts| ==> ParseNumber(parts[i]).Some?
  {
    var parts := SplitOn(tstr, ':');
    var m := TryMap(ParsePiece, parts);
    assert m.Ok?;
  }

  /** `bad` is the first of `parts` that `float()` rejects. */
  predicate FirstBad(parts: seq<string>, bad: string) {
    exists i :: 0 <= i < |parts| && parts[i] == bad && ParseNumber(parts[i]).None? &&
                forall j :: 0 <= j < i ==> ParseNumber(parts[j]).Some?
  }

  /** Any other error names the first piece that `float()` rejects. */
  lemma ParseTimeNumberError(tstr: string)
    requires ParseTime(tstr).Err? && ParseTime(tstr).error.BadNumber?
    ensures FirstBad(SplitOn(tstr, ':'), ParseTime(tstr).error.piece)
  {
    var parts := SplitOn(tstr, ':');
    assert TryMap(ParsePiece, parts).Err?;
    assert ParseTime(tstr).error == TryMap(ParsePiece, parts).error;
    TryMapFirstBad(parts);
  }

  /** The error of a failed batch of pieces names the first piece that is
      not a number. */
  lemma TryMapFirstBad(parts: seq<string>)
    requires TryMap(ParsePiece, parts).Err?
    ensures TryMap(ParsePiece, parts).error.BadNumber?
    ensures FirstBad(parts, TryMap(ParsePiece, parts).error.piece)
  {
    var e := TryMap(ParsePiece, parts).error;
    var i :| 0 <= i < |parts| && ParsePiece(parts[i]) == Err(e) &&
             forall j :: 0 <= j < i ==> ParsePiece(parts[j]).Ok?;
    assert parts[i] == e.piece;
  }

  lemma {:induction false} TryMapPieces(parts: seq<string>)
    requires forall i :: 0 <= i < |parts| ==> ParseNumber(parts[i]).Some?
    ensures TryMap(ParsePiece, parts).Ok?
    ensures forall i :: 0 <= i < |parts| ==> TryMap(ParsePiece, parts).value[i] == ParseNumber(parts[i]).value
  {
    var r := TryMap(ParsePiece, parts);
    forall i | 0 <= i < |parts| ensures r.value[i] == ParseNumber(parts[i]).value {
      assert ParsePiece(parts[i]) == Ok(r.value[i]);
    }
  }

  lemma {:induction false} TryMapValues(parts: seq<string>, vs: seq<real>)
    requires |parts| == |vs|
    requires forall i :: 0 <= i < |parts| ==>
               ParseNumber(parts[i]).Some? && ParseNumber(parts[i]).value == vs[i]
    ensures TryMap(ParsePiece, parts).Ok? && TryMap(ParsePiece, parts).value == vs
  {
    TryMapPieces(parts);
    var r := TryMap(ParsePiece, parts);
    assert r.value == vs;
  }

  /** One, two or three pieces that all parse give `s`, `m*60+s` or
      `h*3600+m*60+s` (app.py:41-49). */
  lemma ParseTimeOfParts(parts: seq<string>, vs: seq<real>)
    requires 1 <= |parts| == |vs| <= 3
    requires forall i :: 0 <= i < |parts| ==>
               ParseNumber(parts[i]).Some? && ParseNumber(parts[i]).value == vs[i]
    ensures ParseTime(Join(parts, ':')).Ok? && ParseTime(Join(parts, ':')).value == Combine(vs)
  {
    forall i | 0 <= i < |parts| ensures ':' !in parts[i] {
      ParseNumberShape(parts[i]);
    }
    SplitOnJoin(parts, ':');
    TryMapValues(parts, vs);
  }

  /** More than three components that all parse are refused (app.py:50-51). */
  lemma ParseTimeTooMany(parts: seq<string>)
    requires |parts| > 3
    requires forall i :: 0 <= i < |parts| ==> ParseNumber(parts[i]).Some?
    ensures ParseTime(Join(parts, ':')).Err? && ParseTime(Join(parts, ':')).error == TooManyParts(Join(parts, ':'))
  {
    forall i | 0 <= i < |parts| ensures ':' !in parts[i] {
      ParseNumberShape(parts[i]);
    }
    SplitOnJoin(parts, ':');
    TryMapPieces(parts);
  }

  /** A piece that `float()` rejects aborts the parse with that piece,
      whatever the number of pieces: the comprehension on app.py:41 runs
      before the count is checked. */
  lemma ParseTimeFirstBadPiece(parts: seq<string>, k: nat)
    requires k < |parts|
    requires forall i :: 0 <= i < |parts| ==> ':' !in parts[i]
    requires forall j :: 0 <= j < k ==> ParseNumber(parts[j]).Some?
    requires ParseNumber(parts[k]).None?
    ensures ParseTime(Join(parts, ':')).Err? && ParseTime(Join(parts, ':')).error == BadNumber(parts[k])
  {
    SplitOnJoin(parts, ':');
    var r := TryMap(ParsePiece, parts);
    assert ParsePiece(parts[k]).Err?;
    var i :| 0 <= i < |parts| && ParsePiece(parts[i]).Err? && ParsePiece(parts[i]).error == r.error &&
             forall j :: 0 <= j < i ==> ParsePiece(parts[j]).Ok?;
    assert i == k;
  }

  /** `float()` of one digit. */
  lemma ParseOneDigit(a: char)
    requires IsDigit(a)
    ensures ParseNumber([a]).Some? && ParseNumber([a]).value == DigitValue(a) as real
  {
    assert [a][..0] == [];
    ParseNumberOfDigits([a]);
  }

  /** `float()` of two digits. */
  lemma ParseTwoDigits(a: char, b: char)
    requires IsDigit(a) && IsDigit(b)
    ensures ParseNumber([a, b]).Some?
    ensures ParseNumber([a, b]).value == (DigitValue(a) * 10 + DigitValue(b)) as real
  {
    assert [a, b][..1] == [a];
    assert [a][..0] == [];
    ParseNumberOfDigits([a, b]);
  }

  /** `float()` of a minus sign and one digit. */
  lemma ParseNegativeDigit(a: char)
    requires IsDigit(a)
    ensures ParseNumber(['-', a]).Some? && ParseNumber(['-', a]).value == -(DigitValue(a) as real)
  {
    var q := ['-', a];
    assert !IsSpace(q[0]) && !IsSpace(q[1]);
    StripUnpadded(q);
    assert q[1..] == [a];
    assert [a][..0] == [];
    ParseUnsignedDigits([a]);
  }

  /** `float()` refuses a single character that is neither a digit, a
      sign, a decimal point nor white space. */
  lemma ParseOneOther(x: char)
    requires !IsDigit(x) && !IsSpace(x) && x != '.' && x != '-' && x != '+'
    ensures ParseNumber([x]).None?
  {
    StripUnpadded([x]);
    assert IndexOf([x], '.') == 1;
    assert [x][..1] == [x];
    assert ParseUnsigned([x]).None?;
    assert ParseSigned([x]).None?;
    assert ParseNumber([x]) == ParseSigned(Strip([x]));
  }

  /** `ParseTimeOfParts` for two pieces. */
  lemma ParseTimeTwo(t: string, p0: string, p1: string, x0: real, x1: real)
    requires t == Join([p0, p1], ':')
    requires ParseNumber(p0).Some? && ParseNumber(p0).value == x0
    requires ParseNumber(p1).Some? && ParseNumber(p1).value == x1
    ensures ParseTime(t).Ok? && ParseTime(t).value == x0 * 60.0 + x1
  {
    var parts := [p0, p1];
    var vs := [x0, x1];
    forall i | 0 <= i < |parts|
      ensures ParseNumber(parts[i]).Some? && ParseNumber(parts[i]).value == vs[i]
    {
      if i == 0 { assert parts[i] == p0 && vs[i] == x0; }
      else { assert parts[i] == p1 && vs[i] == x1; }
    }
    ParseTimeOfParts(parts, vs);
  }

  /** `ParseTimeOfParts` for three pieces. */
  lemma ParseTimeThree(t: string, p0: string, p1: string, p2: string, x0: real, x1: real, x2: real)
    requires t == Join([p0, p1, p2], ':')
    requires ParseNumber(p0).Some? && ParseNumber(p0).value == x0
    requires ParseNumber(p1).Some? && ParseNumber(p1).value == x1
    requires ParseNumber(p2).Some? && ParseNumber(p2).value == x2
    ensures ParseTime(t).Ok? && ParseTime(t).value == x0 * 3600.0 + x1 * 60.0 + x2
  {
    var parts := [p0, p1, p2];
    var vs := [x0, x1, x2];
    forall i | 0 <= i < |parts|
      ensures ParseNumber(parts[i]).Some? && ParseNumber(parts[i]).value == vs[i]
    {
      if i == 0 { assert parts[i] == p0 && vs[i] == x0; }
      else if i == 1 { assert parts[i] == p1 && vs[i] == x1; }
      else { assert parts[i] == p2 && vs[i] == x2; }
    }
    ParseTimeOfParts(parts, vs);
  }

  /** `ParseTimeTooMany` for four pieces. */
  lemma ParseTimeFour(t: string, p0: string, p1: string, p2: string, p3: string)
    requires t == Join([p0, p1, p2, p3], ':')
    requires ParseNumber(p0).Some? && ParseNumber(p1).Some?
    requires ParseNumber(p2).Some? && ParseNumber(p3).Some?
    ensures ParseTime(t).Err? && ParseTime(t).error == TooManyParts(t)
  {
    var parts := [p0, p1, p2, p3];
    forall i | 0 <= i < |parts| ensures ParseNumber(parts[i]).Some? {
      if i == 0 { assert parts[i] == p0; }
      else if i == 1 { assert parts[i] == p1; }
      else if i == 2 { assert parts[i] == p2; }
      else { assert parts[i] == p3; }
    }
    ParseTimeTooMany(parts);
  }

  /** `ParseTimeFirstBadPiece` for a bad second piece. */
  lemma ParseTimeBadSecond(t: string, ps: seq<string>)
    requires 2 <= |ps| && forall i :: 0 <= i < |ps| ==> ':' !in ps[i]
    requires t == Join(ps, ':')
    requires ParseNumber(ps[0]).Some? && ParseNumber(ps[1]).None?
    ensures ParseTime(t).Err? && ParseTime(t).error == BadNumber(ps[1])
  {
    ParseTimeFirstBadPiece(ps, 1);
  }

  /** `m:ab` is `m` minutes and `ab` seconds. */
  lemma MinutesForm(t: string, m: char, a: char, b: char)
    requires IsDigit(m) && IsDigit(a) && IsDigit(b)
    requires t == [m, ':', a, b]
    ensures ParseTime(t).Ok?
    ensures ParseTime(t).value ==
            DigitValue(m) as real * 60.0 + (DigitValue(a) * 10 + DigitValue(b)) as real
  {
    assert Join([[m], [a, b]], ':') == t by {
      assert Join([[m], [a, b]][1..], ':') == [a, b];
    }
    ParseOneDigit(m);
    ParseTwoDigits(a, b);
    ParseTimeTwo(t, [m], [a, b], DigitValue(m) as real, (DigitValue(a) * 10 + DigitValue(b)) as real);
  }

  /** `h:ab:cd` is `h` hours, `ab` minutes and `cd` seconds. */
  lemma HoursForm(t: string, h: char, a: char, b: char, c: char, d: char)
    requires IsDigit(h) && IsDigit(a) && IsDigit(b) && IsDigit(c) && IsDigit(d)
    requires t == [h, ':', a, b, ':', c, d]
    ensures ParseTime(t).Ok?
    ensures ParseTime(t).value ==
            DigitValue(h) as real * 3600.0 + (DigitValue(a) * 10 + DigitValue(b)) as real * 60.0 +
            (DigitValue(c) * 10 + DigitValue(d)) as real
  {
    var parts := [[h], [a, b], [c, d]];
    assert Join(parts, ':') == t by {
      assert Join(parts[2..], ':') == [c, d];
      assert parts[1..][1..] == parts[2..];
      assert Join(parts[1..], ':') == [a, b, ':', c, d];
    }
    ParseOneDigit(h);
    ParseTwoDigits(a, b);
    ParseTwoDigits(c, d);
    ParseTimeThree(t, [h], [a, b], [c, d], DigitValue(h) as real,
                   (DigitValue(a) * 10 + DigitValue(b)) as real,
                   (DigitValue(c) * 10 + DigitValue(d)) as real);
  }

  /** `-m:ab`: the sign belongs to the first component only. */
  lemma NegativeMinutesForm(t: string, m: char, a: char, b: char)
    requires IsDigit(m) && IsDigit(a) && IsDigit(b)
    requires t == ['-', m, ':', a, b]
    ensures ParseTime(t).Ok?
    ensures ParseTime(t).value ==
            -(DigitValue(m) as real) * 60.0 + (DigitValue(a) * 10 + DigitValue(b)) as real
  {
    assert Join([['-', m], [a, b]], ':') == t by {
      assert Join([['-', m], [a, b]][1..], ':') == [a, b];
    }
    ParseNegativeDigit(m);
    ParseTwoDigits(a, b);
    ParseTimeTwo(t, ['-', m], [a, b], -(DigitValue(m) as real), (DigitValue(a) * 10 + DigitValue(b)) as real);
  }

  /** Four one-digit components are refused. */
  lemma FourPartsForm(t: string, a: char, b: char, c: char, d: char)
    requires IsDigit(a) && IsDigit(b) && IsDigit(c) && IsDigit(d)
    requires t == [a, ':', b, ':', c, ':', d]
    ensures ParseTime(t).Err?
    ensures ParseTime(t).error == TooManyParts(t)
  {
    var parts := [[a], [b], [c], [d]];
    assert Join(parts, ':') == t by {
      assert Join(parts[3..], ':') == [d];
      assert parts[2..][1..] == parts[3..];
      assert Join(parts[2..], ':') == [c, ':', d];
      assert parts[1..][1..] == parts[2..];
      assert Join(parts[1..], ':') == [b, ':', c, ':', d];
    }
    ParseOneDigit(a);
    ParseOneDigit(b);
    ParseOneDigit(c);
    ParseOneDigit(d);
    ParseTimeFour(t, [a], [b], [c], [d]);
  }

  /** A bad second component is reported even when there are too many. */
  lemma BadSecondForm(t: string, a: char, x: char, c: char, d: char)
    requires IsDigit(a)
    requires !IsDigit(x) && !IsSpace(x) && x != '.' && x != '-' && x != '+' && x != ':'
    requires c != ':' && d != ':'
    requires t == [a, ':', x, ':', c, ':', d]
    ensures ParseTime(t).Err?
    ensures ParseTime(t).error == BadNumber([x])
  {
    var parts := [[a], [x], [c], [d]];
    assert Join(parts, ':') == t by {
      assert Join(parts[3..], ':') == [d];
      assert parts[2..][1..] == parts[3..];
      assert Join(parts[2..], ':') == [c, ':', d];
      assert parts[1..][1..] == parts[2..];
      assert Join(parts[1..], ':') == [x, ':', c, ':', d];
    }
    assert forall i :: 0 <= i < 4 ==> ':' !in parts[i];
    ParseOneDigit(a);
    ParseOneOther(x);
    ParseTimeBadSecond(t, parts);
  }

  /** An empty component is not a number. */
  lemma EmptyMiddleForm(t: string, a: char, b: char)
    requires IsDigit(a) && b != ':'
    requires t == [a, ':', ':', b]
    ensures ParseTime(t).Err?
    ensures ParseTime(t).error == BadNumber([])
  {
    var parts := [[a], [], [b]];
    assert Join(parts, ':') == t by {
      assert Join(parts[2..], ':') == [b];
      assert parts[1..][1..] == parts[2..];
      assert Join(parts[1..], ':') == [':', b];
    }
    assert forall i :: 0 <= i < 3 ==> ':' !in parts[i];
    ParseOneDigit(a);
    ParseTimeBadSecond(t, parts);
  }

  /** An information separator before the seconds refuses the token:
      `float()` does not skip it, though `strip()` would. */
  lemma InfoSeparatorForm(t: string, m: char, c: char, a: char, b: char)
    requires IsDigit(m) && IsInfoSeparator(c) && IsDigit(a) && IsDigit(b)
    requires t == [m, ':', c, a, b]
    ensures ParseTime(t).Err?
    ensures ParseTime(t).error == BadNumber([c, a, b])
  {
    var parts := [[m], [c, a, b]];
    assert Join(parts, ':') == t by {
      assert Join(parts[1..], ':') == [c, a, b];
    }
    assert forall i :: 0 <= i < 2 ==> ':' !in parts[i];
    ParseOneDigit(m);
    InfoSeparatorRefused(c, [a, b]);
    assert [c] + [a, b] == [c, a, b];
    ParseTimeBadSecond(t, parts);
  }

  /** `parse_time_str("1:\x1c30")` raises, naming the piece `"\x1c30"`. */
  lemma ExampleInfoSeparator()
    ensures ParseTime("1:\U{1C}30").Err? && ParseTime("1:\U{1C}30").error == BadNumber("\U{1C}30")
  {
    InfoSeparatorForm("1:\U{1C}30", '1', '\U{1C}', '3', '0');
  }

  /** `parse_time_str("1:30")` is 90 seconds. */
  lemma ExampleMinutes()
    ensures ParseTime("1:30").Ok? && ParseTime("1:30").value == 90.0
  {
    MinutesForm("1:30", '1', '3', '0');
  }

  /** `parse_time_str("1:01:30")` is 3690 seconds. */
  lemma ExampleHours()
    ensures ParseTime("1:01:30").Ok? && ParseTime("1:01:30").value == 3690.0
  {
    HoursForm("1:01:30", '1', '0', '1', '3', '0');
  }

  /** `parse_time_str("-1:30")` is -30 seconds, not -90. */
  lemma ExampleNegative()
    ensures ParseTime("-1:30").Ok? && ParseTime("-1:30").value == -30.0
  {
    NegativeMinutesForm("-1:30", '1', '3', '0');
  }

  /** Worked examples of `parse_time_str` that raise. */
  lemma ParseTimeErrorExamples()
    ensures ParseTime("1:2:3:4").Err? && ParseTime("1:2:3:4").error == TooManyParts("1:2:3:4")
    ensures ParseTime("1:x:3:4").Err? && ParseTime("1:x:3:4").error == BadNumber("x")
    ensures ParseTime("1::2").Err? && ParseTime("1::2").error == BadNumber("")
  {
    FourPartsForm("1:2:3:4", '1', '2', '3', '4');
    BadSecondForm("1:x:3:4", '1', 'x', '3', '4');
    EmptyMiddleForm("1::2", '1', '2');
  }
}
