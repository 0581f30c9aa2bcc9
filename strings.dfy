/**
 * The parts of Python's `str` behaviour that the scripts rely on, restricted
 * to ASCII: case mapping, prefix/suffix/substring tests, `split`, `join`,
 * `strip`, `replace`, `title`, `str(int)` and `int(str)`.
 */
module Strings {
  import opened Wrappers

  // ---------------------------------------------------------------- characters

  predicate IsAsciiLetter(c: char) { 'a' <= c <= 'z' || 'A' <= c <= 'Z' }

  predicate IsDigit(c: char) { '0' <= c <= '9' }

  /** `str.upper` on one ASCII character; every other character is kept. */
  function UpperChar(c: char): char
  {
    if 'a' <= c <= 'z' then (c as int - 32) as char else c
  }

  /** `str.lower` on one ASCII character; every other character is kept. */
  function LowerChar(c: char): char
  {
    if 'A' <= c <= 'Z' then (c as int + 32) as char else c
  }

  /** The characters for which Python's `str.isspace` holds, within ASCII. */
  const Whitespace: set<char> :=
    {' ', '\t', '\n', '\r', 11 as char, 12 as char, 28 as char, 29 as char, 30 as char, 31 as char}

  function Lower(s: string): string
  {
    seq(|s|, i requires 0 <= i < |s| => LowerChar(s[i]))
  }

  // ---------------------------------------------------------------- tests

  predicate StartsWith(s: string, prefix: string)
  {
    |prefix| <= |s| && s[..|prefix|] == prefix
  }

  predicate EndsWith(s: string, suffix: string)
  {
    |suffix| <= |s| && s[|s| - |suffix|..] == suffix
  }

  /** A concatenation starts with its left part and ends with its right part. */
  lemma ConcatAffixes(a: string, b: string)
    ensures StartsWith(a + b, a) && EndsWith(a + b, b)
  {
    assert (a + b)[..|a|] == a;
    assert (a + b)[|a + b| - |b|..] == b;
  }

  /** `sub` occurs in `s` starting at index `i`. */
  predicate OccursAt(s: string, sub: string, i: int)
  {
    0 <= i && i + |sub| <= |s| && s[i..i + |sub|] == sub
  }

  /** Python's `sub in s`. */
  predicate Contains(s: string, sub: string)
  {
    exists i :: 0 <= i <= |s| && OccursAt(s, sub, i)
  }

  // ---------------------------------------------------------------- strip

  /** `s.lstrip(chars)`: drops the longest prefix made of characters in `cs`. */
  function LStrip(s: string, cs: set<char>): (r: string)
    ensures |r| <= |s| && r == s[|s| - |r|..]
    ensures forall k :: 0 <= k < |s| - |r| ==> s[k] in cs
    ensures r == [] || r[0] !in cs
  {
    if s != [] && s[0] in cs then LStrip(s[1..], cs) else s
  }

  /** `s.rstrip(chars)`: drops the longest suffix made of characters in `cs`. */
  function RStrip(s: string, cs: set<char>): (r: string)
    ensures |r| <= |s| && r == s[..|r|]
    ensures forall k :: |r| <= k < |s| ==> s[k] in cs
    ensures r == [] || r[|r| - 1] !in cs
  {
    if s != [] && s[|s| - 1] in cs then RStrip(s[..|s| - 1], cs) else s
  }

  /** `s.strip(chars)`. */
  function StripChars(s: string, cs: set<char>): string
  {
    RStrip(LStrip(s, cs), cs)
  }

  /** `s.strip()` with no argument. */
  function Strip(s: string): string
  {
    StripChars(s, Whitespace)
  }

  /** The result of a strip neither starts nor ends with a stripped character. */
  lemma StripCharsEnds(s: string, cs: set<char>)
    ensures var r := StripChars(s, cs); r == [] || (r[0] !in cs && r[|r| - 1] !in cs)
  {
    var l := LStrip(s, cs);
    var r := RStrip(l, cs);
    if r != [] {
      assert r[0] == l[0];
    }
  }

  /** A string that neither starts nor ends with a stripped character is its own `strip`. */
  lemma StripCharsUnchanged(s: string, cs: set<char>)
    requires s == [] || (s[0] !in cs && s[|s| - 1] !in cs)
    ensures StripChars(s, cs) == s
  {
    assert LStrip(s, cs) == s;
  }

  /** A leading stripped character makes no difference to `strip`. */
  lemma StripCharsDropFirst(s: string, cs: set<char>)
    requires s != [] && s[0] in cs
    ensures StripChars(s, cs) == StripChars(s[1..], cs)
  {
  }

  /** Nor does a trailing one, once the front needs no stripping. */
  lemma StripCharsDropLast(s: string, cs: set<char>)
    requires s != [] && s[0] !in cs && s[|s| - 1] in cs
    ensures StripChars(s, cs) == StripChars(s[..|s| - 1], cs)
  {
    var t := s[..|s| - 1];
    assert LStrip(s, cs) == s;
    assert t == [] || t[0] == s[0];
    assert LStrip(t, cs) == t;
  }

  // ---------------------------------------------------------------- split / join

  /** Python's `s.split(sep)` for a non-empty separator: leftmost, non-overlapping. */
  function Split(s: string, sep: string): (pieces: seq<string>)
    requires |sep| > 0
    ensures |pieces| >= 1
    decreases |s|
  {
    if StartsWith(s, sep) then [""] + Split(s[|sep|..], sep)
    else if s == [] then [""]
    else
      var rest := Split(s[1..], sep);
      [[s[0]] + rest[0]] + rest[1..]
  }

  /** Splitting on a character: the first piece is everything before its first occurrence. */
  lemma {:induction false} SplitCharFirst(a: string, c: char, b: string)
    requires c !in a
    ensures Split(a + [c] + b, [c])[0] == a
    decreases |a|
  {
    var s := a + [c] + b;
    if a != [] {
      assert s[0] == a[0] && s[0] != c;
      assert s[1..] == a[1..] + [c] + b;
      SplitCharFirst(a[1..], c, b);
      assert a == [a[0]] + a[1..];
    }
  }

  /** When the separator first occurs right after `a`, `a` is the first piece and the rest splits on. */
  lemma {:induction false} SplitSeparated(a: string, sep: string, b: string)
    requires |sep| > 0
    requires forall i :: 0 <= i < |a| ==> !OccursAt(a + sep + b, sep, i)
    ensures Split(a + sep + b, sep) == [a] + Split(b, sep)
    decreases |a|
  {
    var s := a + sep + b;
    if a == [] {
      assert s == sep + b && s[..|sep|] == sep && s[|sep|..] == b;
    } else {
      assert !StartsWith(s, sep) by {
        if StartsWith(s, sep) {
          assert OccursAt(s, sep, 0);
        }
      }
      assert s[1..] == a[1..] + sep + b;
      forall i | 0 <= i < |a| - 1 ensures !OccursAt(a[1..] + sep + b, sep, i) {
        assert !OccursAt(s, sep, i + 1);
        if i + |sep| <= |s| - 1 {
          assert s[1..][i..i + |sep|] == s[i + 1..i + 1 + |sep|];
        }
      }
      SplitSeparated(a[1..], sep, b);
      assert a == [a[0]] + a[1..];
    }
  }

  /** A piece that, followed by the separator, does not let it start inside the piece. */
  predicate Separable(x: string, sep: string)
    requires |sep| > 0
  {
    !Contains(x + sep[..|sep| - 1], sep)
  }

  /** Splitting the join of separable pieces gives the pieces back. */
  lemma {:induction false} SplitJoin(xs: seq<string>, sep: string)
    requires |sep| > 0 && |xs| >= 1
    requires forall k :: 0 <= k < |xs| - 1 ==> Separable(xs[k], sep)
    requires !Contains(xs[|xs| - 1], sep)
    ensures Split(Join(xs, sep), sep) == xs
    decreases |xs|
  {
    if |xs| == 1 {
      SplitWithoutSeparator(xs[0], sep);
    } else {
      var a, t := xs[0], Join(xs[1..], sep);
      var s := a + sep + t;
      assert Join(xs, sep) == s;
      forall i | 0 <= i < |a| ensures !OccursAt(s, sep, i) {
        if OccursAt(s, sep, i) {
          var w := a + sep[..|sep| - 1];
          assert s[..|w|] == w;
          assert w[i..i + |sep|] == sep;
          assert OccursAt(w, sep, i);
        }
      }
      SplitSeparated(a, sep, t);
      SplitJoin(xs[1..], sep);
      assert xs == [a] + xs[1..];
    }
  }

  /** Python's `sep.join(xs)`. */
  function Join(xs: seq<string>, sep: string): string
  {
    if |xs| == 0 then "" else if |xs| == 1 then xs[0] else xs[0] + sep + Join(xs[1..], sep)
  }

  /** Joining a list that starts with an empty piece puts a separator in front. */
  lemma JoinEmptyFirst(rest: seq<string>, sep: string)
    requires |rest| >= 1
    ensures Join([""] + rest, sep) == sep + Join(rest, sep)
  {
    assert ([""] + rest)[1..] == rest;
  }

  /** Joining after prepending a character to the first piece prepends it to the join. */
  lemma JoinPrependChar(c: char, rest: seq<string>, sep: string)
    requires |rest| >= 1
    ensures Join([[c] + rest[0]] + rest[1..], sep) == [c] + Join(rest, sep)
  {
    var pieces := [[c] + rest[0]] + rest[1..];
    assert pieces[1..] == rest[1..];
  }

  /** Joining the pieces of a split with the same separator gives the string back. */
  lemma {:induction false} JoinSplit(s: string, sep: string)
    requires |sep| > 0
    ensures Join(Split(s, sep), sep) == s
    decreases |s|
  {
    if StartsWith(s, sep) {
      var rest := Split(s[|sep|..], sep);
      assert Split(s, sep) == [""] + rest;
      JoinSplit(s[|sep|..], sep);
      JoinEmptyFirst(rest, sep);
      assert s == sep + s[|sep|..];
    } else if s != [] {
      var rest := Split(s[1..], sep);
      assert Split(s, sep) == [[s[0]] + rest[0]] + rest[1..];
      JoinSplit(s[1..], sep);
      JoinPrependChar(s[0], rest, sep);
      assert s == [s[0]] + s[1..];
    }
  }

  /** A string without the separator splits into exactly itself. */
  lemma {:induction false} SplitWithoutSeparator(s: string, sep: string)
    requires |sep| > 0
    requires !Contains(s, sep)
    ensures Split(s, sep) == [s]
    decreases |s|
  {
    assert !StartsWith(s, sep) by {
      if StartsWith(s, sep) {
        assert OccursAt(s, sep, 0);
      }
    }
    if s != [] {
      assert !Contains(s[1..], sep) by {
        forall i | OccursAt(s[1..], sep, i) ensures false {
          assert s[1..][i..i + |sep|] == s[i + 1..i + 1 + |sep|];
          assert OccursAt(s, sep, i + 1);
        }
      }
      SplitWithoutSeparator(s[1..], sep);
      assert s == [s[0]] + s[1..];
    }
  }

  // ---------------------------------------------------------------- replace

  /** Python's `s.replace(old, new)` for a non-empty `old`: every leftmost, non-overlapping occurrence. */
  function ReplaceAll(s: string, pat: string, repl: string): string
    requires |pat| > 0
    decreases |s|
  {
    if StartsWith(s, pat) then repl + ReplaceAll(s[|pat|..], pat, repl)
    else if s == [] then []
    else [s[0]] + ReplaceAll(s[1..], pat, repl)
  }

  /** Replacing a single character distributes over concatenation. */
  lemma {:induction false} ReplaceCharConcat(a: string, b: string, c: char, repl: string)
    ensures ReplaceAll(a + b, [c], repl) == ReplaceAll(a, [c], repl) + ReplaceAll(b, [c], repl)
    decreases |a|
  {
    if a == [] {
      assert a + b == b;
    } else {
      assert (a + b)[1..] == a[1..] + b;
      assert (a + b)[0] == a[0];
      ReplaceCharConcat(a[1..], b, c, repl);
    }
  }

  /** A string in which `c` does not occur is unchanged by replacing `c`. */
  lemma {:induction false} ReplaceCharAbsent(s: string, c: char, repl: string)
    requires c !in s
    ensures ReplaceAll(s, [c], repl) == s
    decreases |s|
  {
    if s != [] {
      assert s[0] != c;
      ReplaceCharAbsent(s[1..], c, repl);
      assert s == [s[0]] + s[1..];
    }
  }

  // ---------------------------------------------------------------- title

  /** Python's `str.title` over ASCII: a letter is upper-cased after a non-letter and lower-cased after a letter. */
  function Title(s: string): string
  {
    TitleAfter(s, false)
  }

  function TitleAfter(s: string, prevCased: bool): string
    decreases |s|
  {
    if s == [] then []
    else
      var c := if !IsAsciiLetter(s[0]) then s[0] else if prevCased then LowerChar(s[0]) else UpperChar(s[0]);
      [c] + TitleAfter(s[1..], IsAsciiLetter(s[0]))
  }

  /** `title` keeps the length and changes letters only, and every word starts with a capital. */
  lemma {:induction false} TitleShape(s: string, prevCased: bool)
    ensures |TitleAfter(s, prevCased)| == |s|
    ensures forall k :: 0 <= k < |s| ==> LowerChar(TitleAfter(s, prevCased)[k]) == LowerChar(s[k])
    ensures forall k :: 0 <= k < |s| && 'a' <= s[k] <= 'z' && (if k == 0 then !prevCased else !IsAsciiLetter(s[k - 1]))
              ==> 'A' <= TitleAfter(s, prevCased)[k] <= 'Z'
    decreases |s|
  {
    if s != [] {
      TitleShape(s[1..], IsAsciiLetter(s[0]));
      var t := TitleAfter(s, prevCased);
      forall k | 1 <= k < |s| ensures t[k] == TitleAfter(s[1..], IsAsciiLetter(s[0]))[k - 1] && s[k] == s[1..][k - 1] { }
    }
  }

  // ---------------------------------------------------------------- integers

  function DigitChar(d: nat): char
    requires d < 10
  {
    ('0' as int + d) as char
  }

  /** Python's `str(n)` for a natural number. */
  function ShowNat(n: nat): (s: string)
    ensures |s| >= 1
    ensures forall k :: 0 <= k < |s| ==> IsDigit(s[k])
  {
    if n < 10 then [DigitChar(n)] else ShowNat(n / 10) + [DigitChar(n % 10)]
  }

  /** Python's `str(i)` for an integer. */
  function ShowInt(i: int): (s: string)
    ensures |s| >= 1 && (s[0] == '-' || IsDigit(s[0]))
  {
    if i < 0 then "-" + ShowNat(-i) else ShowNat(i)
  }

  /** The value of a string of decimal digits. */
  function DigitsValue(ds: string): nat
    requires forall k :: 0 <= k < |ds| ==> IsDigit(ds[k])
  {
    if ds == [] then 0
    else
      assert IsDigit(ds[|ds| - 1]);
      DigitsValue(ds[..|ds| - 1]) * 10 + (ds[|ds| - 1] as int - '0' as int)
  }

  /**
   * Python's `int(s)` for base-10 text: surrounding whitespace, an optional sign and at least one
   * ASCII digit; anything else is a ValueError (`None`). Underscore digit grouping is not accepted.
   */
  function ParseInt(s: string): Option<int>
  {
    ParseSigned(Strip(s))
  }

  /** The part of `int(s)` after the whitespace is stripped: an optional sign, then digits. */
  function ParseSigned(t: string): Option<int>
  {
    if t == [] then None
    else
      var neg := t[0] == '-';
      var body := if t[0] == '-' || t[0] == '+' then t[1..] else t;
      if body == [] || exists k :: 0 <= k < |body| && !IsDigit(body[k]) then None
      else
        var v: int := DigitsValue(body);
        Some(if neg then -v else v)
  }

  lemma {:induction false} DigitsValueShowNat(n: nat)
    ensures DigitsValue(ShowNat(n)) == n
  {
    if n >= 10 {
      var s := ShowNat(n);
      DigitsValueShowNat(n / 10);
      assert s[..|s| - 1] == ShowNat(n / 10);
    }
  }

  /** Digits and the minus sign are not whitespace. */
  lemma NotWhitespace(c: char)
    requires IsDigit(c) || c == '-'
    ensures c !in Whitespace
  {
  }

  /** `int(str(i)) == i`: rendering an integer and parsing it back is the identity. */
  lemma ParseShowInt(i: int)
    ensures ParseInt(ShowInt(i)) == Some(i)
  {
    var s := ShowInt(i);
    assert ParseInt(s) == ParseSigned(s) by {
      ShowIntStripped(i);
    }
    ParseSignedShowInt(i);
  }

  /** The rendering of an integer, read as a sign and digits, is that integer. */
  lemma ParseSignedShowInt(i: int)
    ensures ParseSigned(ShowInt(i)) == Some(i)
  {
    var n: nat := if i < 0 then -i else i;
    var s := ShowInt(i);
    DigitsValueShowNat(n);
    if i < 0 {
      assert s[1..] == ShowNat(n);
      ParseNegativeDigits(s, ShowNat(n));
    } else {
      ParseDigits(ShowNat(n));
    }
  }

  /** A string of digits parses to its value. */
  lemma ParseDigits(digits: string)
    requires digits != [] && forall k :: 0 <= k < |digits| ==> IsDigit(digits[k])
    ensures ParseSigned(digits) == Some(DigitsValue(digits))
  {
    assert digits[0] != '-' && digits[0] != '+';
  }

  /** A minus sign followed by digits parses to the negated value. */
  lemma ParseNegativeDigits(t: string, digits: string)
    requires digits != [] && forall k :: 0 <= k < |digits| ==> IsDigit(digits[k])
    requires |t| == |digits| + 1 && t[0] == '-' && t[1..] == digits
    ensures ParseSigned(t) == Some(-(DigitsValue(digits) as int))
  {
  }

  /** The decimal rendering has no surrounding whitespace. */
  lemma ShowIntStripped(i: int)
    ensures Strip(ShowInt(i)) == ShowInt(i)
  {
    var s := ShowInt(i);
    var digits := ShowNat(if i < 0 then -i else i);
    assert s[|s| - 1] == digits[|digits| - 1];
    NotWhitespace(s[0]);
    NotWhitespace(s[|s| - 1]);
    StripCharsUnchanged(s, Whitespace);
  }

  /** Distinct numbers have distinct decimal renderings. */
  lemma ShowNatInjective(a: nat, b: nat)
    requires ShowNat(a) == ShowNat(b)
    ensures a == b
  {
    DigitsValueShowNat(a);
    DigitsValueShowNat(b);
  }
}
