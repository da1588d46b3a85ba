/**
 * The Python 2 string built-ins the script relies on: `str.strip()`,
 * `str.split(sep)`, `str(n)` for a natural number and `int(s)` in base 10,
 * each over byte strings, so that only ASCII characters count as digits
 * or white space.
 */
module Builtins {
  import opened Base

  /** White space as `str.strip()` and `int()` see it in Python 2. */
  predicate IsSpace(c: char) {
    c == ' ' || c == '\t' || c == '\n' || c == '\r' || c == '\U{000B}' || c == '\U{000C}'
  }

  predicate IsDigit(c: char) {
    '0' <= c <= '9'
  }

  predicate AllSpace(s: string) {
    forall i :: 0 <= i < |s| ==> IsSpace(s[i])
  }

  predicate AllDigits(s: string) {
    forall i :: 0 <= i < |s| ==> IsDigit(s[i])
  }

  // ---------------------------------------------------------------- strip

  /** The number of white-space characters at the front of `s`. */
  function LeadingSpace(s: string): (k: nat)
    ensures k <= |s| && AllSpace(s[..k])
    ensures k < |s| ==> !IsSpace(s[k])
  {
    if s == [] || !IsSpace(s[0]) then 0 else 1 + LeadingSpace(s[1..])
  }

  /** The number of white-space characters at the back of `s`. */
  function TrailingSpace(s: string): (k: nat)
    ensures k <= |s| && AllSpace(s[|s| - k..])
    ensures k < |s| ==> !IsSpace(s[|s| - k - 1])
  {
    if s == [] || !IsSpace(s[|s| - 1]) then 0 else 1 + TrailingSpace(s[..|s| - 1])
  }

  /** Whether `s` neither starts nor ends with white space. */
  predicate Trimmed(s: string) {
    s == [] || (!IsSpace(s[0]) && !IsSpace(s[|s| - 1]))
  }

  /** `s.strip()`: `s` without its leading and trailing white space. */
  function Strip(s: string): (r: string)
    ensures Trimmed(r) && |r| <= |s|
  {
    var i := LeadingSpace(s);
    var t := s[i..];
    var j := TrailingSpace(t);
    assert t != [] ==> j < |t|;
    t[..|t| - j]
  }

  /** Stripping adds no character. */
  lemma StripKeepsOut(s: string, c: char)
    requires c !in s
    ensures c !in Strip(s)
  {
    var i := LeadingSpace(s);
    var t := s[i..];
    var r := t[..|t| - TrailingSpace(t)];
    assert Strip(s) == r;
    forall k | 0 <= k < |r| ensures r[k] != c {
      assert r[k] == s[i + k];
    }
  }

  lemma {:induction false} LeadingSpaceAfter(a: string, t: string)
    requires AllSpace(a)
    ensures LeadingSpace(a + t) == |a| + LeadingSpace(t)
    decreases |a|
  {
    if a != [] {
      assert (a + t)[1..] == a[1..] + t;
      LeadingSpaceAfter(a[1..], t);
    } else {
      assert a + t == t;
    }
  }

  lemma {:induction false} TrailingSpaceBefore(t: string, b: string)
    requires AllSpace(b)
    ensures TrailingSpace(t + b) == TrailingSpace(t) + |b|
    decreases |b|
  {
    if b != [] {
      assert (t + b)[..|t + b| - 1] == t + b[..|b| - 1];
      TrailingSpaceBefore(t, b[..|b| - 1]);
    } else {
      assert t + b == t;
    }
  }

  /**
   * `strip()` removes exactly the white-space padding around a trimmed
   * middle: any string is the strip of itself padded with white space.
   */
  lemma {:induction false} StripPadded(a: string, m: string, b: string)
    requires AllSpace(a) && AllSpace(b) && Trimmed(m)
    ensures Strip(a + m + b) == m
  {
    var s := a + m + b;
    if m == [] {
      assert s == (a + b) + [];
      LeadingSpaceAfter(a + b, []);
    } else {
      assert s == a + (m + b);
      LeadingSpaceAfter(a, m + b);
      assert LeadingSpace(m + b) == 0;
      assert s[|a|..] == m + b;
      TrailingSpaceBefore(m, b);
      assert TrailingSpace(m) == 0;
    }
  }

  /** Stripping twice is stripping once. */
  lemma StripIdempotent(s: string)
    ensures Strip(Strip(s)) == Strip(s)
  {
    StripPadded([], Strip(s), []);
    assert [] + Strip(s) + [] == Strip(s);
  }

  // ---------------------------------------------------------------- split

  /** The number of occurrences of `c` in `s`. */
  function Occurrences(s: string, c: char): nat
  {
    if s == [] then 0 else (if s[0] == c then 1 else 0) + Occurrences(s[1..], c)
  }

  /**
   * `s.split(sep)`: the pieces of `s` between occurrences of `sep`; the
   * empty string splits into one empty piece.
   */
  function Split(s: string, sep: char): (r: seq<string>)
    ensures r != []
  {
    if s == [] then [[]]
    else
      var rest := Split(s[1..], sep);
      if s[0] == sep then [[]] + rest
      else [[s[0]] + rest[0]] + rest[1..]
  }

  /** One piece more than there are separators, and no piece holds one. */
  lemma {:induction false} SplitSpec(s: string, sep: char)
    ensures |Split(s, sep)| == Occurrences(s, sep) + 1
    ensures forall i :: 0 <= i < |Split(s, sep)| ==> sep !in Split(s, sep)[i]
  {
    if s != [] {
      var rest := Split(s[1..], sep);
      SplitSpec(s[1..], sep);
      if s[0] != sep {
        assert sep !in [s[0]] + rest[0];
      }
    }
  }

  /** `sep.join(pieces)`, the inverse of `Split`. */
  function Join(pieces: seq<string>, sep: char): string
    requires pieces != []
  {
    if |pieces| == 1 then pieces[0] else pieces[0] + [sep] + Join(pieces[1..], sep)
  }

  /** Joining one more piece appends a separator and the piece. */
  lemma {:induction false} JoinSnoc(pieces: seq<string>, last: string, sep: char)
    requires pieces != []
    ensures Join(pieces + [last], sep) == Join(pieces, sep) + [sep] + last
    decreases |pieces|
  {
    if |pieces| > 1 {
      assert (pieces + [last])[1..] == pieces[1..] + [last];
      JoinSnoc(pieces[1..], last, sep);
    }
  }

  /** Joining the pieces of a split gives back the string. */
  lemma {:induction false} JoinSplit(s: string, sep: char)
    ensures Join(Split(s, sep), sep) == s
  {
    if s != [] {
      var rest := Split(s[1..], sep);
      JoinSplit(s[1..], sep);
      var r := Split(s, sep);
      assert s == [s[0]] + s[1..];
      if s[0] == sep {
        assert r == [[]] + rest;
        assert r[1..] == rest;
        assert Join(r, sep) == [] + [sep] + Join(rest, sep);
      } else if |rest| == 1 {
        assert r == [[s[0]] + rest[0]];
        assert Join(rest, sep) == rest[0];
      } else {
        assert r == [[s[0]] + rest[0]] + rest[1..];
        assert r[1..] == rest[1..];
        assert Join(rest, sep) == rest[0] + [sep] + Join(rest[1..], sep);
        assert Join(r, sep) == ([s[0]] + rest[0]) + [sep] + Join(rest[1..], sep);
      }
    }
  }

  /** Splitting a join of pieces free of `sep` gives back the pieces. */
  lemma {:induction false} SplitJoin(pieces: seq<string>, sep: char)
    requires pieces != []
    requires forall i :: 0 <= i < |pieces| ==> sep !in pieces[i]
    ensures Split(Join(pieces, sep), sep) == pieces
    decreases |pieces|, |pieces[0]|
  {
    var p := pieces[0];
    if |pieces| == 1 {
      SplitFree(p, sep);
    } else if p == [] {
      var s := Join(pieces, sep);
      assert s == [sep] + Join(pieces[1..], sep);
      assert s[1..] == Join(pieces[1..], sep);
      SplitJoin(pieces[1..], sep);
    } else {
      var s := Join(pieces, sep);
      var shorter := [p[1..]] + pieces[1..];
      assert shorter[1..] == pieces[1..];
      assert s[1..] == Join(shorter, sep) by {
        assert Join(shorter, sep) == p[1..] + [sep] + Join(pieces[1..], sep);
      }
      assert p[0] in p;
      SplitJoin(shorter, sep);
      assert [p[0]] + p[1..] == p;
    }
  }

  /** A string without `sep` splits into itself alone. */
  lemma {:induction false} SplitFree(s: string, sep: char)
    requires sep !in s
    ensures Split(s, sep) == [s]
  {
    if s != [] {
      assert s[0] in s;
      assert forall c :: c in s[1..] ==> c in s;
      SplitFree(s[1..], sep);
      assert [s[0]] + s[1..] == s;
    }
  }

  /** Text in front of the first separator only lengthens the first piece. */
  lemma {:induction false} SplitPrefix(a: string, s: string, sep: char)
    requires sep !in a
    ensures Split(a + s, sep) == [a + Split(s, sep)[0]] + Split(s, sep)[1..]
    decreases |a|
  {
    if a == [] {
      assert a + s == s;
      assert a + Split(s, sep)[0] == Split(s, sep)[0];
      assert [Split(s, sep)[0]] + Split(s, sep)[1..] == Split(s, sep);
    } else {
      assert a[0] in a;
      assert forall c :: c in a[1..] ==> c in a;
      assert (a + s)[1..] == a[1..] + s;
      SplitPrefix(a[1..], s, sep);
      assert [a[0]] + (a[1..] + Split(s, sep)[0]) == a + Split(s, sep)[0];
    }
  }

  /** Text after the last separator only lengthens the last piece. */
  lemma {:induction false} SplitSuffix(s: string, b: string, sep: char)
    requires sep !in b
    ensures var p := Split(s, sep);
            Split(s + b, sep) == p[..|p| - 1] + [p[|p| - 1] + b]
    decreases |s|
  {
    if s == [] {
      assert s + b == b;
      SplitFree(b, sep);
    } else {
      assert (s + b)[1..] == s[1..] + b;
      SplitSuffix(s[1..], b, sep);
      var q := Split(s[1..], sep);
      if s[0] == sep {
        SplitSuffixSep(s, b, sep, q);
      } else {
        SplitSuffixChar(s, b, sep, q);
      }
    }
  }

  lemma SplitSuffixSep(s: string, b: string, sep: char, q: seq<string>)
    requires s != [] && s[0] == sep && q != []
    requires q == Split(s[1..], sep)
    requires Split(s[1..] + b, sep) == q[..|q| - 1] + [q[|q| - 1] + b]
    ensures var p := Split(s, sep);
            Split(s + b, sep) == p[..|p| - 1] + [p[|p| - 1] + b]
  {
    var t := s + b;
    assert t[0] == sep && t[1..] == s[1..] + b;
    var p := [[]] + q;
    assert Split(s, sep) == p;
    assert p[..|p| - 1] == [[]] + q[..|q| - 1];
  }

  lemma SplitSuffixChar(s: string, b: string, sep: char, q: seq<string>)
    requires s != [] && s[0] != sep && q != []
    requires q == Split(s[1..], sep)
    requires Split(s[1..] + b, sep) == q[..|q| - 1] + [q[|q| - 1] + b]
    ensures var p := Split(s, sep);
            Split(s + b, sep) == p[..|p| - 1] + [p[|p| - 1] + b]
  {
    var qb := q[..|q| - 1] + [q[|q| - 1] + b];
    assert Split(s, sep) == [[s[0]] + q[0]] + q[1..];
    assert Split(s + b, sep) == [[s[0]] + qb[0]] + qb[1..] by {
      var t := s + b;
      assert t[0] == s[0] && t[1..] == s[1..] + b;
    }
    ExtendFirstThenLast(s[0], q, b);
  }

  /** Lengthening the first piece and then the last gives the same pieces in either order. */
  lemma ExtendFirstThenLast(c: char, q: seq<string>, b: string)
    requires q != []
    ensures var qb := q[..|q| - 1] + [q[|q| - 1] + b];
            var p := [[c] + q[0]] + q[1..];
            [[c] + qb[0]] + qb[1..] == p[..|p| - 1] + [p[|p| - 1] + b]
  {
    var qb := q[..|q| - 1] + [q[|q| - 1] + b];
    var p := [[c] + q[0]] + q[1..];
    if |q| == 1 {
      assert qb == [q[0] + b];
      assert [c] + (q[0] + b) == ([c] + q[0]) + b;
    } else {
      assert qb[0] == q[0];
      assert qb[1..] == q[1..|q| - 1] + [q[|q| - 1] + b];
      assert p[..|p| - 1] == [[c] + q[0]] + q[1..|q| - 1];
    }
  }

  // ---------------------------------------------------------------- numbers

  function DigitValue(c: char): nat
    requires IsDigit(c)
  {
    (c as int) - ('0' as int)
  }

  /** The value of a string of decimal digits, most significant first. */
  function DigitsValue(s: string): nat
    requires AllDigits(s)
  {
    if s == [] then 0 else DigitsValue(s[..|s| - 1]) * 10 + DigitValue(s[|s| - 1])
  }

  function Digit(d: nat): (c: char)
    requires d < 10
    ensures IsDigit(c) && DigitValue(c) == d
  {
    ('0' as int + d) as char
  }

  /** `str(n)` for a natural number: its decimal digits with no leading zero. */
  function NatToString(n: nat): (r: string)
    ensures r != [] && AllDigits(r) && DigitsValue(r) == n
    ensures r[0] == '0' ==> r == "0"
  {
    if n < 10 then [Digit(n)]
    else
      var r := NatToString(n / 10) + [Digit(n % 10)];
      assert r[..|r| - 1] == NatToString(n / 10);
      r
  }

  /**
   * `int(s)` in base 10: white space around an optional sign and at least
   * one ASCII digit; anything else raises ValueError (None here).
   */
  function ParseInt(s: string): (r: Option<int>)
    ensures r.Some? ==> s != []
  {
    ParseSigned(Strip(s))
  }

  /** An optional sign followed by at least one digit, and nothing else. */
  function ParseSigned(t: string): Option<int>
  {
    if t != [] && (t[0] == '-' || t[0] == '+') then
      var ds := t[1..];
      if ds != [] && AllDigits(ds) then
        Some(if t[0] == '-' then 0 - DigitsValue(ds) else DigitsValue(ds))
      else None
    else if t != [] && AllDigits(t) then Some(DigitsValue(t))
    else None
  }

  /** What `int()` accepts: the characterisation of a successful parse. */
  lemma ParseIntAccepts(s: string)
    ensures ParseInt(s).Some? <==>
      var t := Strip(s);
      (t != [] && AllDigits(t)) ||
      (|t| >= 2 && (t[0] == '-' || t[0] == '+') && AllDigits(t[1..]))
  {
  }

  /** `int()` reads back what `str()` writes, with or without white-space padding. */
  lemma ParseIntNatToString(n: nat, a: string, b: string)
    requires AllSpace(a) && AllSpace(b)
    ensures ParseInt(a + NatToString(n) + b) == Some(n)
  {
    var d := NatToString(n);
    StripPadded(a, d, b);
    assert IsDigit(d[0]);
  }

  /** ... and a minus sign in front of the digits negates the value. */
  lemma ParseIntNegated(n: nat, a: string, b: string)
    requires AllSpace(a) && AllSpace(b)
    ensures ParseInt(a + "-" + NatToString(n) + b) == Some(-(n as int))
  {
    var d := NatToString(n);
    var m := ['-'] + d;
    assert a + "-" + d + b == a + m + b;
    SignedDigits(d);
    StripPadded(a, m, b);
  }

  /** A minus sign followed by digits is trimmed and reads as the negated value. */
  lemma SignedDigits(d: string)
    requires d != [] && AllDigits(d)
    ensures Trimmed(['-'] + d)
    ensures ParseSigned(['-'] + d) == Some(0 - DigitsValue(d))
  {
    var m := ['-'] + d;
    assert m[|m| - 1] == d[|d| - 1];
    assert m[1..] == d;
  }

  /** An empty term, or one with no digit at all, is never an integer. */
  lemma ParseIntRejectsBlank(s: string)
    requires AllSpace(s)
    ensures ParseInt(s) == None
  {
    StripPadded(s, [], []);
    assert s + [] + [] == s;
  }
}
