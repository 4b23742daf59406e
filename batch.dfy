/** The batch of timestamps typed into the form: the split and filter on
    app.py:136-137, followed by `parse_time_str` on every token. */
module Batch {
  import opened Wrappers
  import opened Decimal
  import opened Text
  import opened TimeParse

  /** The character class of the pattern `r"[,\\s]+"` on app.py:136. In a
      raw string `\\` reaches the regular-expression engine as an escaped
      backslash, so the class is a comma, a backslash and the letter `s`;
      white space is not in it. */
  predicate IsSep(c: char) {
    c == ',' || c == '\\' || c == 's'
  }

  predicate SepFree(s: string) {
    forall c :: c in s ==> !IsSep(c)
  }

  predicate AllSep(s: string) {
    forall c :: c in s ==> IsSep(c)
  }

  /** Length of the run of separators that `s` starts with. */
  function SepRun(s: string): (j: nat)
    ensures j <= |s|
    ensures forall i :: 0 <= i < j ==> IsSep(s[i])
    ensures j < |s| ==> !IsSep(s[j])
  {
    if s != [] && IsSep(s[0]) then 1 + SepRun(s[1..]) else 0
  }

  /** `re.split(r"[,\\s]+", s)`: the pieces between maximal runs of
      separators. A leading or trailing run leaves an empty first or last
      piece; no other piece is empty, and no piece holds a separator. */
  function SplitBatch(s: string): (r: seq<string>)
    ensures |r| >= 1
    ensures forall i :: 0 <= i < |r| ==> SepFree(r[i])
    ensures forall i :: 0 < i < |r| - 1 ==> r[i] != []
    ensures s != [] && !IsSep(s[0]) ==> r[0] != []
    decreases |s|
  {
    if s == [] then [[]]
    else if IsSep(s[0]) then
      var j := SepRun(s);
      [[]] + SplitBatch(s[j..])
    else
      var rest := SplitBatch(s[1..]);
      [[s[0]] + rest[0]] + rest[1..]
  }

  /** The separator runs that `SplitBatch` removes, in order. */
  function Runs(s: string): (gs: seq<string>)
    ensures forall i :: 0 <= i < |gs| ==> gs[i] != [] && AllSep(gs[i])
    decreases |s|
  {
    if s == [] then []
    else if IsSep(s[0]) then
      var j := SepRun(s);
      [s[..j]] + Runs(s[j..])
    else Runs(s[1..])
  }

  /** The inverse of a split: the pieces with the runs between them. */
  function Glue(ps: seq<string>, gs: seq<string>): string
    requires |ps| == |gs| + 1
  {
    if gs == [] then ps[0] else ps[0] + gs[0] + Glue(ps[1..], gs[1..])
  }

  /** Glueing a prefix onto the first piece prefixes the whole. */
  lemma GluePrepend(a: string, ps: seq<string>, gs: seq<string>)
    requires |ps| == |gs| + 1
    ensures Glue([a + ps[0]] + ps[1..], gs) == a + Glue(ps, gs)
  {
    var qs := [a + ps[0]] + ps[1..];
    assert qs[1..] == ps[1..];
  }

  /** An empty piece and a run glued in front of `rest`'s pieces give the
      run followed by `rest`. */
  lemma GlueRun(g: string, ps: seq<string>, gs: seq<string>, rest: string)
    requires |ps| == |gs| + 1 && Glue(ps, gs) == rest
    ensures Glue([[]] + ps, [g] + gs) == g + rest
  {
    GlueCons([], g, ps, gs);
    assert [] + g == g;
  }

  /** Glueing one more piece and run in front. */
  lemma GlueCons(p: string, g: string, ps: seq<string>, gs: seq<string>)
    requires |ps| == |gs| + 1
    ensures Glue([p] + ps, [g] + gs) == p + g + Glue(ps, gs)
  {
    assert ([p] + ps)[1..] == ps;
    assert ([g] + gs)[1..] == gs;
  }

  /** Every string is its pieces glued back with its separator runs. */
  lemma {:induction false} GlueSplitBatch(s: string)
    ensures |SplitBatch(s)| == |Runs(s)| + 1
    ensures Glue(SplitBatch(s), Runs(s)) == s
    decreases |s|
  {
    if s == [] {
    } else if IsSep(s[0]) {
      var j := SepRun(s);
      GlueSplitBatch(s[j..]);
      assert SplitBatch(s) == [[]] + SplitBatch(s[j..]);
      assert Runs(s) == [s[..j]] + Runs(s[j..]);
      GlueRun(s[..j], SplitBatch(s[j..]), Runs(s[j..]), s[j..]);
      assert s[..j] + s[j..] == s;
    } else {
      var rest := SplitBatch(s[1..]);
      GlueSplitBatch(s[1..]);
      GluePrepend([s[0]], rest, Runs(s[1..]));
      assert [s[0]] + s[1..] == s;
    }
  }

  /** A separator-free prefix joins the first piece. */
  lemma {:induction false} SplitBatchPrefix(a: string, t: string)
    requires SepFree(a)
    ensures SplitBatch(a + t) == [a + SplitBatch(t)[0]] + SplitBatch(t)[1..]
  {
    var T := SplitBatch(t);
    if a == [] {
      assert a + t == t;
      assert a + T[0] == T[0];
      assert T == [T[0]] + T[1..];
    } else {
      var s := a + t;
      assert s[0] == a[0] && a[0] in a;
      assert s[1..] == a[1..] + t;
      assert SepFree(a[1..]) by {
        forall c | c in a[1..] ensures !IsSep(c) {
          var i :| 0 <= i < |a| - 1 && a[1..][i] == c;
          assert a[i + 1] == c;
        }
      }
      SplitBatchPrefix(a[1..], t);
      assert s == [a[0]] + (a[1..] + t);
      SplitBatchCons(a[0], a[1..] + t, a[1..] + T[0], T[1..]);
      assert [a[0]] + (a[1..] + T[0]) == a + T[0];
    }
  }

  /** A non-separator joins the first piece. */
  lemma SplitBatchCons(c: char, x: string, piece: string, rest: seq<string>)
    requires !IsSep(c) && SplitBatch(x) == [piece] + rest
    ensures SplitBatch([c] + x) == [[c] + piece] + rest
  {
    var s := [c] + x;
    assert s[0] == c && s[1..] == x;
    assert ([piece] + rest)[0] == piece && ([piece] + rest)[1..] == rest;
  }

  /** A whole run of separators in front of a non-separator (or of the
      end) makes an empty first piece. */
  lemma SplitBatchRun(g: string, t: string)
    requires g != [] && AllSep(g)
    requires t == [] || !IsSep(t[0])
    ensures SplitBatch(g + t) == [[]] + SplitBatch(t)
  {
    var s := g + t;
    assert s[0] == g[0] && g[0] in g;
    var j := SepRun(s);
    forall i | 0 <= i < |g| ensures IsSep(s[i]) {
      assert s[i] == g[i] && g[i] in g;
    }
    assert t != [] ==> s[|g|] == t[0];
    assert j == |g|;
    assert s[j..] == t;
  }

  /** Glued pieces start with a non-separator, or are empty, when the first
      piece holds no separator and is non-empty whenever a run follows. */
  lemma GlueStart(ps: seq<string>, gs: seq<string>)
    requires |ps| == |gs| + 1 && SepFree(ps[0])
    requires gs != [] ==> ps[0] != []
    ensures Glue(ps, gs) == [] || !IsSep(Glue(ps, gs)[0])
  {
    var s := Glue(ps, gs);
    if ps[0] != [] {
      assert s[0] == ps[0][0] && ps[0][0] in ps[0];
    }
  }

  /** A separator-free piece, then a run of separators, then a string
      that does not start with a separator: the piece comes off whole. */
  lemma SplitBatchStep(p: string, g: string, t: string)
    requires SepFree(p)
    requires g != [] && AllSep(g)
    requires t == [] || !IsSep(t[0])
    ensures SplitBatch(p + g + t) == [p] + SplitBatch(t)
  {
    var u := g + t;
    SplitBatchRun(g, t);
    var U := SplitBatch(u);
    assert U[0] == [] && U[1..] == SplitBatch(t);
    SplitBatchPrefix(p, u);
    assert p + U[0] == p;
    assert p + g + t == p + u;
  }

  /** Splitting undoes `Glue`: the pieces come back exactly, whenever they
      hold no separator, every run is a non-empty run of separators, and
      no piece between two runs is empty (two runs would merge). */
  lemma {:induction false} SplitBatchGlue(ps: seq<string>, gs: seq<string>)
    requires |ps| == |gs| + 1
    requires forall i :: 0 <= i < |ps| ==> SepFree(ps[i])
    requires forall i :: 0 < i < |ps| - 1 ==> ps[i] != []
    requires forall i :: 0 <= i < |gs| ==> gs[i] != [] && AllSep(gs[i])
    ensures SplitBatch(Glue(ps, gs)) == ps
  {
    if gs == [] {
      SplitBatchPrefix(ps[0], []);
      assert ps[0] + [] == ps[0];
    } else {
      var t := Glue(ps[1..], gs[1..]);
      assert forall i :: 0 < i < |ps[1..]| - 1 ==> ps[1..][i] == ps[i + 1];
      SplitBatchGlue(ps[1..], gs[1..]);
      assert ps[1..][0] == ps[1];
      GlueStart(ps[1..], gs[1..]);
      SplitBatchStep(ps[0], gs[0], t);
      assert ps == [ps[0]] + ps[1..];
    }
  }

  /** The filter `[x.strip() for x in parts if x.strip()]`: the stripped
      pieces that are not blank, in order. */
  function KeepTokens(ps: seq<string>): (ts: seq<string>)
    ensures |ts| <= |ps|
  {
    if ps == [] then []
    else
      var rest := KeepTokens(ps[1..]);
      if Strip(ps[0]) == [] then rest else [Strip(ps[0])] + rest
  }

  /** The filter distributes over concatenation. */
  lemma {:induction false} KeepTokensConcat(a: seq<string>, b: seq<string>)
    ensures KeepTokens(a + b) == KeepTokens(a) + KeepTokens(b)
  {
    if a == [] {
      assert a + b == b;
    } else {
      assert (a + b)[0] == a[0];
      assert (a + b)[1..] == a[1..] + b;
      KeepTokensConcat(a[1..], b);
    }
  }

  /** Pieces that are all white space leave no token. */
  lemma {:induction false} KeepTokensBlank(ps: seq<string>)
    requires forall i :: 0 <= i < |ps| ==> AllSpace(ps[i])
    ensures KeepTokens(ps) == []
  {
    if ps != [] {
      StripSpec(ps[0]);
      KeepTokensBlank(ps[1..]);
    }
  }

  /** Pieces that are not blank each give one token, their `strip()`,
      in the same order. */
  lemma {:induction false} KeepTokensNonBlank(ps: seq<string>)
    requires forall i :: 0 <= i < |ps| ==> !AllSpace(ps[i])
    ensures |KeepTokens(ps)| == |ps|
    ensures forall i :: 0 <= i < |ps| ==> KeepTokens(ps)[i] == Strip(ps[i])
  {
    if ps != [] {
      StripSpec(ps[0]);
      KeepTokensNonBlank(ps[1..]);
      var ts := KeepTokens(ps);
      forall i | 0 <= i < |ps| ensures ts[i] == Strip(ps[i]) {
        if i > 0 { assert ps[1..][i - 1] == ps[i]; }
      }
    }
  }

  /** The tokens of a batch string, in input order. */
  function Tokens(raw: string): seq<string> {
    KeepTokens(SplitBatch(raw))
  }

  /** Every token is non-empty, starts and ends with a non-space, and holds
      no separator. */
  lemma TokensShape(raw: string)
    ensures forall i :: 0 <= i < |Tokens(raw)| ==>
              var t := Tokens(raw)[i];
              t != [] && !IsSpace(t[0]) && !IsSpace(t[|t| - 1]) && SepFree(t)
  {
    TokensShapeOf(SplitBatch(raw));
  }

  lemma {:induction false} TokensShapeOf(ps: seq<string>)
    requires forall i :: 0 <= i < |ps| ==> SepFree(ps[i])
    ensures forall i :: 0 <= i < |KeepTokens(ps)| ==>
              var t := KeepTokens(ps)[i];
              t != [] && !IsSpace(t[0]) && !IsSpace(t[|t| - 1]) && SepFree(t)
  {
    if ps != [] {
      TokensShapeOf(ps[1..]);
      StripSpec(ps[0]);
      assert SepFree(Strip(ps[0])) by {
        forall c | c in Strip(ps[0]) ensures !IsSep(c) {
          StripAddsNothing(ps[0], c);
        }
      }
    }
  }

  /** Pieces glued with separator runs come back as their stripped selves,
      one token per piece, when no piece is blank. */
  lemma TokensOfGlue(ps: seq<string>, gs: seq<string>)
    requires |ps| == |gs| + 1
    requires forall i :: 0 <= i < |ps| ==> SepFree(ps[i]) && !AllSpace(ps[i])
    requires forall i :: 0 <= i < |gs| ==> gs[i] != [] && AllSep(gs[i])
    ensures |Tokens(Glue(ps, gs))| == |ps|
    ensures forall i :: 0 <= i < |ps| ==> Tokens(Glue(ps, gs))[i] == Strip(ps[i])
  {
    SplitBatchGlue(ps, gs);
    KeepTokensNonBlank(ps);
  }

  /** Two non-blank separator-free pieces around one run of separators
      are two tokens. */
  lemma TokensTwo(raw: string, p0: string, g: string, p1: string)
    requires raw == p0 + g + p1
    requires SepFree(p0) && !AllSpace(p0) && SepFree(p1) && !AllSpace(p1)
    requires g != [] && AllSep(g)
    ensures |Tokens(raw)| == 2 && Tokens(raw)[0] == Strip(p0) && Tokens(raw)[1] == Strip(p1)
  {
    var ps := [p0, p1];
    var gs := [g];
    assert Glue(ps, gs) == raw by {
      assert Glue(ps[1..], gs[1..]) == p1;
    }
    forall i | 0 <= i < |ps| ensures SepFree(ps[i]) && !AllSpace(ps[i]) {
      if i == 0 { assert ps[i] == p0; } else { assert ps[i] == p1; }
    }
    TokensOfGlue(ps, gs);
  }

  /** A non-blank string without separators is one token. */
  lemma TokensOne(raw: string)
    requires SepFree(raw) && !AllSpace(raw)
    ensures |Tokens(raw)| == 1 && Tokens(raw)[0] == Strip(raw)
  {
    TokensOfGlue([raw], []);
  }

  /** Every token parsed in order; the first token that fails aborts the
      whole batch with its error (app.py:136-140). */
  function ParseBatch(raw: string): (r: Result<seq<real>, TimeError>)
    ensures var ts := Tokens(raw);
            r.Ok? <==> forall i :: 0 <= i < |ts| ==> ParseTime(ts[i]).Ok?
    ensures var ts := Tokens(raw);
            r.Ok? ==> |r.value| == |ts| &&
                      forall i :: 0 <= i < |ts| ==> ParseTime(ts[i]).Ok? && ParseTime(ts[i]).value == r.value[i]
    ensures var ts := Tokens(raw);
            r.Err? ==> exists i :: 0 <= i < |ts| && ParseTime(ts[i]).Err? && ParseTime(ts[i]).error == r.error &&
                                   forall j :: 0 <= j < i ==> ParseTime(ts[j]).Ok?
  {
    TryMap(ParseTime, Tokens(raw))
  }

  /** `ParseBatch` of two tokens that both parse. */
  lemma ParseBatchTwo(raw: string, t0: string, t1: string, x0: real, x1: real)
    requires |Tokens(raw)| == 2 && Tokens(raw)[0] == t0 && Tokens(raw)[1] == t1
    requires ParseTime(t0).Ok? && ParseTime(t0).value == x0
    requires ParseTime(t1).Ok? && ParseTime(t1).value == x1
    ensures ParseBatch(raw).Ok? && |ParseBatch(raw).value| == 2
    ensures ParseBatch(raw).value[0] == x0 && ParseBatch(raw).value[1] == x1
  {
    TryMapTwo(ParseTime, Tokens(raw));
  }

  /** `TryMap` over two elements that both succeed. */
  lemma TryMapTwo<A, B, E>(f: A -> Result<B, E>, xs: seq<A>)
    requires |xs| == 2 && f(xs[0]).Ok? && f(xs[1]).Ok?
    ensures TryMap(f, xs).Ok? && |TryMap(f, xs).value| == 2
    ensures TryMap(f, xs).value[0] == f(xs[0]).value && TryMap(f, xs).value[1] == f(xs[1]).value
  {
    assert xs[1..][0] == xs[1];
    assert xs[1..][1..] == [];
  }

  /** `ParseBatch` of one token that fails. */
  lemma ParseBatchOneBad(raw: string, t: string)
    requires |Tokens(raw)| == 1 && Tokens(raw)[0] == t
    requires ParseTime(t).Err?
    ensures ParseBatch(raw).Err?
    ensures ParseBatch(raw).error == ParseTime(t).error
  {
  }

  /** `float()` refuses two digits, a space and a digit. */
  lemma ParseInnerSpace(b: char, c: char, d: char)
    requires IsDigit(b) && IsDigit(c) && IsDigit(d)
    ensures ParseNumber([b, c, ' ', d]).None?
  {
    var q := [b, c, ' ', d];
    StripUnpadded(q);
    assert IndexOf(q, '.') == 4;
    assert q[..4] == q;
    assert !AllDigits(q) by { assert !IsDigit(q[2]); }
    assert ParseUnsigned(q).None?;
    assert ParseSigned(q).None?;
    assert ParseNumber(q) == ParseSigned(Strip(q));
  }

  /** A token, a comma, a space and a token: two tokens. */
  lemma CommaSpaceTokens(raw: string, t0: string, t1: string)
    requires raw == t0 + [',', ' '] + t1
    requires SepFree(t0) && t0 != [] && !IsSpace(t0[0]) && !IsSpace(t0[|t0| - 1])
    requires SepFree(t1) && t1 != [] && !IsSpace(t1[0]) && !IsSpace(t1[|t1| - 1])
    ensures |Tokens(raw)| == 2 && Tokens(raw)[0] == t0 && Tokens(raw)[1] == t1
  {
    var p1 := [' '] + t1;
    assert raw == t0 + [','] + p1;
    assert SepFree(p1) by {
      forall x | x in p1 ensures !IsSep(x) {
        if x != ' ' { assert x in t1; }
      }
    }
    assert !AllSpace(p1) by { assert p1[1] == t1[0]; }
    assert !AllSpace(t0) by { assert !IsSpace(t0[0]); }
    assert AllSep([',']);
    TokensTwo(raw, t0, [','], p1);
    StripUnpadded(t0);
    StripPadded([' '], t1, []);
    assert [' '] + t1 + [] == p1;
    StripUnpadded(t1);
  }

  /** A token, the letter `s` and a token: two tokens. */
  lemma LetterSTokens(raw: string, t0: string, t1: string)
    requires raw == t0 + ['s'] + t1
    requires SepFree(t0) && t0 != [] && !IsSpace(t0[0]) && !IsSpace(t0[|t0| - 1])
    requires SepFree(t1) && t1 != [] && !IsSpace(t1[0]) && !IsSpace(t1[|t1| - 1])
    ensures |Tokens(raw)| == 2 && Tokens(raw)[0] == t0 && Tokens(raw)[1] == t1
  {
    assert !AllSpace(t0) by { assert !IsSpace(t0[0]); }
    assert !AllSpace(t1) by { assert !IsSpace(t1[0]); }
    assert AllSep(['s']);
    TokensTwo(raw, t0, ['s'], t1);
    StripUnpadded(t0);
    StripUnpadded(t1);
  }

  /** `m:ab,␠n:cd` is two times: the space after the comma is stripped. */
  lemma CommaSpaceForm(raw: string, m: char, a: char, b: char, n: char, c: char, d: char)
    requires IsDigit(m) && IsDigit(a) && IsDigit(b) && IsDigit(n) && IsDigit(c) && IsDigit(d)
    requires raw == [m, ':', a, b, ',', ' ', n, ':', c, d]
    ensures ParseBatch(raw).Ok? && |ParseBatch(raw).value| == 2
    ensures ParseBatch(raw).value[0] ==
            DigitValue(m) as real * 60.0 + (DigitValue(a) * 10 + DigitValue(b)) as real
    ensures ParseBatch(raw).value[1] ==
            DigitValue(n) as real * 60.0 + (DigitValue(c) * 10 + DigitValue(d)) as real
  {
    var t0 := [m, ':', a, b];
    var t1 := [n, ':', c, d];
    assert SepFree(t0) && SepFree(t1);
    CommaSpaceTokens(raw, t0, t1);
    MinutesForm(t0, m, a, b);
    MinutesForm(t1, n, c, d);
    ParseBatchTwo(raw, t0, t1,
                  DigitValue(m) as real * 60.0 + (DigitValue(a) * 10 + DigitValue(b)) as real,
                  DigitValue(n) as real * 60.0 + (DigitValue(c) * 10 + DigitValue(d)) as real);
  }

  /** `m:ab s n:cd` with the letter `s` in the middle is two times. */
  lemma LetterSForm(raw: string, m: char, a: char, b: char, n: char, c: char, d: char)
    requires IsDigit(m) && IsDigit(a) && IsDigit(b) && IsDigit(n) && IsDigit(c) && IsDigit(d)
    requires raw == [m, ':', a, b, 's', n, ':', c, d]
    ensures ParseBatch(raw).Ok? && |ParseBatch(raw).value| == 2
    ensures ParseBatch(raw).value[0] ==
            DigitValue(m) as real * 60.0 + (DigitValue(a) * 10 + DigitValue(b)) as real
    ensures ParseBatch(raw).value[1] ==
            DigitValue(n) as real * 60.0 + (DigitValue(c) * 10 + DigitValue(d)) as real
  {
    var t0 := [m, ':', a, b];
    var t1 := [n, ':', c, d];
    assert SepFree(t0) && SepFree(t1);
    LetterSTokens(raw, t0, t1);
    MinutesForm(t0, m, a, b);
    MinutesForm(t1, n, c, d);
    ParseBatchTwo(raw, t0, t1,
                  DigitValue(m) as real * 60.0 + (DigitValue(a) * 10 + DigitValue(b)) as real,
                  DigitValue(n) as real * 60.0 + (DigitValue(c) * 10 + DigitValue(d)) as real);
  }

  /** `m:ab n:cd` read as one timestamp: its middle piece `ab n` is not
      a number. */
  lemma SpacedTimeForm(t: string, m: char, a: char, b: char, n: char, c: char, d: char)
    requires IsDigit(m) && IsDigit(a) && IsDigit(b) && IsDigit(n) && IsDigit(c) && IsDigit(d)
    requires t == [m, ':', a, b, ' ', n, ':', c, d]
    ensures ParseTime(t).Err? && ParseTime(t).error == BadNumber([a, b, ' ', n])
  {
    var parts := [[m], [a, b, ' ', n], [c, d]];
    assert Join(parts, ':') == t by {
      assert Join(parts[2..], ':') == [c, d];
      assert parts[1..][1..] == parts[2..];
      assert Join(parts[1..], ':') == [a, b, ' ', n, ':', c, d];
    }
    assert forall i :: 0 <= i < 3 ==> ':' !in parts[i];
    ParseOneDigit(m);
    ParseInnerSpace(a, b, n);
    ParseTimeBadSecond(t, parts);
  }

  /** `m:ab n:cd` separated by a space alone is ONE token, whose middle
      piece `ab n` is not a number: the whole batch fails. */
  lemma SpaceOnlyForm(raw: string, m: char, a: char, b: char, n: char, c: char, d: char)
    requires IsDigit(m) && IsDigit(a) && IsDigit(b) && IsDigit(n) && IsDigit(c) && IsDigit(d)
    requires raw == [m, ':', a, b, ' ', n, ':', c, d]
    ensures ParseBatch(raw).Err?
    ensures ParseBatch(raw).error == BadNumber([a, b, ' ', n])
  {
    assert SepFree(raw);
    assert !AllSpace(raw) by { assert !IsSpace(raw[0]); }
    TokensOne(raw);
    assert !IsSpace(raw[|raw| - 1]);
    StripUnpadded(raw);
    SpacedTimeForm(raw, m, a, b, n, c, d);
    ParseBatchOneBad(raw, raw);
  }

  /** A comma followed by a space separates two times. */
  lemma ExampleCommaSpace()
    ensures ParseBatch("1:00, 2:00").Ok? && |ParseBatch("1:00, 2:00").value| == 2
    ensures ParseBatch("1:00, 2:00").value[0] == 60.0 && ParseBatch("1:00, 2:00").value[1] == 120.0
  {
    CommaSpaceForm("1:00, 2:00", '1', '0', '0', '2', '0', '0');
  }

  /** The letter `s` separates two times. */
  lemma ExampleLetterS()
    ensures ParseBatch("1:30s2:00").Ok? && |ParseBatch("1:30s2:00").value| == 2
    ensures ParseBatch("1:30s2:00").value[0] == 90.0 && ParseBatch("1:30s2:00").value[1] == 120.0
  {
    LetterSForm("1:30s2:00", '1', '3', '0', '2', '0', '0');
  }

  /** A space alone does not separate two times: the batch is refused. */
  lemma ExampleSpaceOnly()
    ensures ParseBatch("1:00 2:00").Err? && ParseBatch("1:00 2:00").error == BadNumber("00 2")
  {
    SpaceOnlyForm("1:00 2:00", '1', '0', '0', '2', '0', '0');
  }
}
