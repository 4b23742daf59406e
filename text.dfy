/** The two Python string operations the timestamp parser is built on:
    `str.strip()` with no argument and `str.split(sep)` with a
    one-character separator. */
module Text {

  /** Python's `str.isspace()` for one character: the characters that
      `strip()` removes. */
  predicate IsSpace(c: char) {
    ('\t' <= c <= '\r') || ('\U{1C}' <= c <= '\U{1F}') || c == ' ' ||
    c == '\U{85}' || c == '\U{A0}' || c == '\U{1680}' ||
    ('\U{2000}' <= c <= '\U{200A}') || c == '\U{2028}' || c == '\U{2029}' ||
    c == '\U{202F}' || c == '\U{205F}' || c == '\U{3000}'
  }

  predicate AllSpace(s: string) {
    forall i :: 0 <= i < |s| ==> IsSpace(s[i])
  }

  /** `s.lstrip()`: drops the white space `s` starts with. */
  function StripStart(s: string): string {
    if s != [] && IsSpace(s[0]) then StripStart(s[1..]) else s
  }

  /** `s.rstrip()`: drops the white space `s` ends with. */
  function StripEnd(s: string): string {
    if s != [] && IsSpace(s[|s| - 1]) then StripEnd(s[..|s| - 1]) else s
  }

  /** Python's `str.strip()` with no argument. */
  function Strip(s: string): string {
    StripEnd(StripStart(s))
  }

  /** A string of white space strips to nothing. */
  lemma {:induction false} StripStartAllSpace(s: string)
    requires AllSpace(s)
    ensures StripStart(s) == []
  {
    if s != [] {
      StripStartAllSpace(s[1..]);
    }
  }

  /** What `lstrip()` leaves is empty or starts with a non-space. */
  lemma {:induction false} StripStartShape(s: string)
    ensures StripStart(s) == [] ==> AllSpace(s)
    ensures StripStart(s) != [] ==> !IsSpace(StripStart(s)[0])
  {
    if s != [] && IsSpace(s[0]) {
      StripStartShape(s[1..]);
      if StripStart(s) == [] {
        forall i | 0 <= i < |s| ensures IsSpace(s[i]) {
          if i > 0 { assert s[i] == s[1..][i - 1]; }
        }
      }
    }
  }

  /** What `rstrip()` leaves is empty or ends with a non-space; it keeps
      the first character of anything non-empty that starts with one. */
  lemma {:induction false} StripEndShape(s: string)
    ensures StripEnd(s) != [] ==> !IsSpace(StripEnd(s)[|StripEnd(s)| - 1])
    ensures s != [] && !IsSpace(s[0]) ==> StripEnd(s) != [] && StripEnd(s)[0] == s[0]
  {
    if s != [] && IsSpace(s[|s| - 1]) {
      var t := s[..|s| - 1];
      StripEndShape(t);
      if !IsSpace(s[0]) {
        assert t != [] && t[0] == s[0];
      }
    }
  }

  /** `strip()` leaves nothing exactly when `s` is all white space, and
      otherwise something that starts and ends with a non-space. */
  lemma StripSpec(s: string)
    ensures Strip(s) == [] <==> AllSpace(s)
    ensures Strip(s) != [] ==> !IsSpace(Strip(s)[0]) && !IsSpace(Strip(s)[|Strip(s)| - 1])
  {
    StripStartShape(s);
    StripEndShape(StripStart(s));
    if AllSpace(s) {
      StripStartAllSpace(s);
    }
  }

  /** A string that neither starts nor ends with white space is its own
      `strip()`. */
  lemma StripUnpadded(s: string)
    requires s != [] && !IsSpace(s[0]) && !IsSpace(s[|s| - 1])
    ensures Strip(s) == s
  {
  }

  /** Leading white space is skipped by `lstrip()`. */
  lemma {:induction false} StripStartSkip(w: string, t: string)
    requires AllSpace(w)
    ensures StripStart(w + t) == StripStart(t)
  {
    if w != [] {
      assert (w + t)[0] == w[0];
      assert (w + t)[1..] == w[1..] + t;
      StripStartSkip(w[1..], t);
    } else {
      assert w + t == t;
    }
  }

  /** `lstrip()` of a string that is not all white space keeps whatever
      follows it. */
  lemma {:induction false} StripStartKeep(s: string, w: string)
    requires !AllSpace(s)
    ensures StripStart(s + w) == StripStart(s) + w
  {
    assert s != [];
    assert (s + w)[0] == s[0];
    if IsSpace(s[0]) {
      assert (s + w)[1..] == s[1..] + w;
      assert !AllSpace(s[1..]) by {
        var i :| 0 <= i < |s| && !IsSpace(s[i]);
        assert s[1..][i - 1] == s[i];
      }
      StripStartKeep(s[1..], w);
    }
  }

  /** Trailing white space is skipped by `rstrip()`. */
  lemma {:induction false} StripEndSkip(t: string, w: string)
    requires AllSpace(w)
    ensures StripEnd(t + w) == StripEnd(t)
  {
    if w != [] {
      var u := t + w;
      assert u[|u| - 1] == w[|w| - 1];
      assert u[..|u| - 1] == t + w[..|w| - 1];
      StripEndSkip(t, w[..|w| - 1]);
    } else {
      assert t + w == t;
    }
  }

  /** White space around a string does not change what `strip()` leaves. */
  lemma StripPadded(w1: string, s: string, w2: string)
    requires AllSpace(w1) && AllSpace(w2)
    ensures Strip(w1 + s + w2) == Strip(s)
  {
    assert w1 + s + w2 == w1 + (s + w2);
    StripStartSkip(w1, s + w2);
    if AllSpace(s) {
      AllSpaceConcat(s, w2);
      StripStartAllSpace(s + w2);
      StripStartAllSpace(s);
    } else {
      StripStartKeep(s, w2);
      StripEndSkip(StripStart(s), w2);
    }
  }

  lemma AllSpaceConcat(s: string, w: string)
    requires AllSpace(s) && AllSpace(w)
    ensures AllSpace(s + w)
  {
    forall i | 0 <= i < |s + w| ensures IsSpace((s + w)[i]) {
      if i < |s| { assert (s + w)[i] == s[i]; }
      else { assert (s + w)[i] == w[i - |s|]; }
    }
  }

  /** `lstrip()` removes a prefix of white space and nothing else. */
  lemma {:induction false} StripStartPrefix(s: string)
    ensures |StripStart(s)| <= |s|
    ensures AllSpace(s[..|s| - |StripStart(s)|])
    ensures s == s[..|s| - |StripStart(s)|] + StripStart(s)
  {
    if s != [] && IsSpace(s[0]) {
      StripStartPrefix(s[1..]);
      var t := StripStart(s);
      var n := |s| - |t|;
      assert s[1..] == s[1..][..n - 1] + t;
      assert s[..n] == [s[0]] + s[1..][..n - 1];
      forall i | 0 <= i < n ensures IsSpace(s[..n][i]) {
        if i > 0 { assert s[..n][i] == s[1..][..n - 1][i - 1]; }
      }
    } else {
      assert s[..0] == [];
    }
  }

  /** `rstrip()` removes a suffix of white space and nothing else. */
  lemma {:induction false} StripEndSuffix(s: string)
    ensures |StripEnd(s)| <= |s|
    ensures AllSpace(s[|StripEnd(s)|..])
    ensures s == StripEnd(s) + s[|StripEnd(s)|..]
  {
    if s != [] && IsSpace(s[|s| - 1]) {
      var u := s[..|s| - 1];
      StripEndSuffix(u);
      var t := StripEnd(s);
      assert s == u + [s[|s| - 1]];
      assert s[|t|..] == u[|t|..] + [s[|s| - 1]];
      forall i | 0 <= i < |s| - |t| ensures IsSpace(s[|t|..][i]) {
        if i < |u| - |t| { assert s[|t|..][i] == u[|t|..][i]; }
      }
    } else {
      assert s[|s|..] == [];
    }
  }

  /** `lstrip()` keeps every non-space character. */
  lemma {:induction false} StripStartKeepsChar(s: string, c: char)
    requires c in s && !IsSpace(c)
    ensures c in StripStart(s)
  {
    if IsSpace(s[0]) {
      var i :| 0 <= i < |s| && s[i] == c;
      assert s[1..][i - 1] == c;
      StripStartKeepsChar(s[1..], c);
    }
  }

  /** `rstrip()` keeps every non-space character. */
  lemma {:induction false} StripEndKeepsChar(s: string, c: char)
    requires c in s && !IsSpace(c)
    ensures c in StripEnd(s)
  {
    if IsSpace(s[|s| - 1]) {
      var i :| 0 <= i < |s| && s[i] == c;
      assert s[..|s| - 1][i] == c;
      StripEndKeepsChar(s[..|s| - 1], c);
    }
  }

  /** `strip()` removes white space and nothing else. */
  lemma StripKeepsChar(s: string, c: char)
    requires c in s && !IsSpace(c)
    ensures c in Strip(s)
  {
    StripStartKeepsChar(s, c);
    StripEndKeepsChar(StripStart(s), c);
  }

  /** `lstrip()` adds no character. */
  lemma {:induction false} StripStartAddsNothing(s: string, c: char)
    requires c in StripStart(s)
    ensures c in s
  {
    if s != [] && IsSpace(s[0]) {
      StripStartAddsNothing(s[1..], c);
      var i :| 0 <= i < |s| - 1 && s[1..][i] == c;
      assert s[i + 1] == c;
    }
  }

  /** `rstrip()` adds no character. */
  lemma {:induction false} StripEndAddsNothing(s: string, c: char)
    requires c in StripEnd(s)
    ensures c in s
  {
    if s != [] && IsSpace(s[|s| - 1]) {
      StripEndAddsNothing(s[..|s| - 1], c);
      var i :| 0 <= i < |s| - 1 && s[..|s| - 1][i] == c;
      assert s[i] == c;
    }
  }

  /** Every character `strip()` leaves was in `s`. */
  lemma StripAddsNothing(s: string, c: char)
    requires c in Strip(s)
    ensures c in s
  {
    StripEndAddsNothing(StripStart(s), c);
    StripStartAddsNothing(s, c);
  }

  /** Python's `s.join(pieces)` for a one-character separator. */
  function Join(pieces: seq<string>, sep: char): string
    requires |pieces| >= 1
  {
    if |pieces| == 1 then pieces[0] else pieces[0] + [sep] + Join(pieces[1..], sep)
  }

  /** Python's `s.split(sep)` for a one-character separator: at least one
      piece, no piece contains the separator, and joining the pieces with
      the separator gives `s` back. */
  function SplitOn(s: string, sep: char): (r: seq<string>)
    ensures |r| >= 1
    ensures forall i :: 0 <= i < |r| ==> sep !in r[i]
    ensures Join(r, sep) == s
  {
    if s == [] then [[]]
    else
      var rest := SplitOn(s[1..], sep);
      if s[0] == sep then
        [[]] + rest
      else
        var r := [[s[0]] + rest[0]] + rest[1..];
        assert r[1..] == rest[1..];
        assert Join(r, sep) == s by {
          if |rest| > 1 {
            assert rest == [rest[0]] + rest[1..];
            calc {
              Join(r, sep);
              ([s[0]] + rest[0]) + [sep] + Join(rest[1..], sep);
              [s[0]] + (rest[0] + [sep] + Join(rest[1..], sep));
              [s[0]] + Join(rest, sep);
              [s[0]] + s[1..];
            }
          }
        }
        r
  }

  lemma {:induction false} SplitOnSepFree(a: string, t: string, sep: char)
    requires sep !in a
    ensures SplitOn(a + t, sep) ==
            [a + SplitOn(t, sep)[0]] + SplitOn(t, sep)[1..]
  {
    var T := SplitOn(t, sep);
    if a == [] {
      assert a + t == t;
      assert a + T[0] == T[0];
      assert T == [T[0]] + T[1..];
    } else {
      var s := a + t;
      assert s != [] && s[0] == a[0] && s[0] != sep;
      assert s[1..] == a[1..] + t;
      SplitOnSepFree(a[1..], t, sep);
      var rest := SplitOn(s[1..], sep);
      assert rest == [a[1..] + T[0]] + T[1..];
      assert SplitOn(s, sep) == [[s[0]] + rest[0]] + rest[1..];
      assert [s[0]] + rest[0] == a + T[0];
      assert rest[1..] == T[1..];
    }
  }

  /** `split` undoes `join`: splitting the pieces joined back together
      gives exactly those pieces, whenever none of them holds the separator. */
  lemma {:induction false} SplitOnJoin(pieces: seq<string>, sep: char)
    requires |pieces| >= 1
    requires forall i :: 0 <= i < |pieces| ==> sep !in pieces[i]
    ensures SplitOn(Join(pieces, sep), sep) == pieces
  {
    if |pieces| == 1 {
      SplitOnSepFree(pieces[0], [], sep);
      assert pieces[0] + [] == pieces[0];
    } else {
      var tail := Join(pieces[1..], sep);
      SplitOnJoin(pieces[1..], sep);
      assert pieces[0] + [sep] + tail == pieces[0] + ([sep] + tail);
      var u := [sep] + tail;
      assert u[1..] == tail;
      assert SplitOn(u, sep) == [[]] + pieces[1..];
      SplitOnSepFree(pieces[0], u, sep);
      assert pieces[0] + [] == pieces[0];
      assert pieces == [pieces[0]] + pieces[1..];
    }
  }
}
