/**
  The few Python string built-ins the script relies on: `str.strip()`,
  `str.lower()`, `str.split(sep)`, `int(str)` and, as the partner of `int`,
  `str(int)`.
 */
module PyStr {
  import opened Wrappers

  /** The characters for which Python's `str.isspace()` holds; `strip()` removes them. */
  predicate IsSpace(c: char) {
    || c == ' '
    || ('\t' <= c <= '\r')
    || ('\U{1C}' <= c <= '\U{1F}')
    || c == '\U{85}' || c == '\U{A0}' || c == '\U{1680}'
    || ('\U{2000}' <= c <= '\U{200A}')
    || c == '\U{2028}' || c == '\U{2029}' || c == '\U{202F}' || c == '\U{205F}' || c == '\U{3000}'
  }

  predicate AllSpace(s: string) {
    forall m :: 0 <= m < |s| ==> IsSpace(s[m])
  }

  /** `s.lstrip()`. */
  function TrimLeft(s: string): string {
    if s != [] && IsSpace(s[0]) then TrimLeft(s[1..]) else s
  }

  /** `s.rstrip()`. */
  function TrimRight(s: string): string {
    if s != [] && IsSpace(s[|s| - 1]) then TrimRight(s[..|s| - 1]) else s
  }

  /** `s.strip()`. */
  function Strip(s: string): string {
    TrimRight(TrimLeft(s))
  }

  /** `lstrip()` keeps a suffix, removes only whitespace and leaves none in front. */
  lemma {:induction false} TrimLeftShape(s: string)
    ensures var r := TrimLeft(s);
      && |r| <= |s| && r == s[|s| - |r|..]
      && AllSpace(s[..|s| - |r|])
      && (r != [] ==> !IsSpace(r[0]))
  {
    if s != [] && IsSpace(s[0]) {
      TrimLeftShape(s[1..]);
    }
  }

  /** `rstrip()` keeps a prefix, removes only whitespace and leaves none at the end. */
  lemma {:induction false} TrimRightShape(s: string)
    ensures var r := TrimRight(s);
      && |r| <= |s| && r == s[..|r|]
      && AllSpace(s[|r|..])
      && (r != [] ==> !IsSpace(r[|r| - 1]))
  {
    if s != [] && IsSpace(s[|s| - 1]) {
      var f := s[..|s| - 1];
      TrimRightShape(f);
      var r := TrimRight(f);
      forall m | |r| <= m < |s| ensures IsSpace(s[m]) {
        if m < |f| { assert s[m] == f[|r|..][m - |r|]; }
      }
    }
  }

  /**
    `strip()` keeps a contiguous part of `s`, removes only whitespace, and
    leaves none at either end.
   */
  lemma StripShape(s: string)
    ensures var r := Strip(s);
      && (exists k :: 0 <= k <= |s| - |r| && r == s[k..k + |r|] && AllSpace(s[..k]) && AllSpace(s[k + |r|..]))
      && (r != [] ==> !IsSpace(r[0]) && !IsSpace(r[|r| - 1]))
  {
    var l := TrimLeft(s);
    TrimLeftShape(s);
    TrimRightShape(l);
    var r := TrimRight(l);
    var k := |s| - |l|;
    assert r == s[k..k + |r|];
    assert AllSpace(s[k + |r|..]) by {
      assert s[k + |r|..] == l[|r|..];
    }
  }

  lemma {:induction false} TrimLeftPadded(p: string, t: string)
    requires AllSpace(p)
    requires t == [] || !IsSpace(t[0])
    ensures TrimLeft(p + t) == t
  {
    if p != [] {
      assert (p + t)[1..] == p[1..] + t;
      TrimLeftPadded(p[1..], t);
    }
  }

  lemma {:induction false} TrimRightPadded(t: string, q: string)
    requires AllSpace(q)
    requires t == [] || !IsSpace(t[|t| - 1])
    ensures TrimRight(t + q) == t
  {
    if q != [] {
      assert (t + q)[..|t + q| - 1] == t + q[..|q| - 1];
      TrimRightPadded(t, q[..|q| - 1]);
    }
  }

  /**
    `strip()` removes exactly the whitespace around the text: whatever is
    padded with whitespace on both sides comes back unchanged.
   */
  lemma StripPadded(p: string, t: string, q: string)
    requires AllSpace(p) && AllSpace(q)
    requires t != [] ==> !IsSpace(t[0]) && !IsSpace(t[|t| - 1])
    ensures Strip(p + t + q) == t
  {
    if t == [] {
      assert AllSpace(p + q) by {
        forall m | 0 <= m < |p + q| ensures IsSpace((p + q)[m]) {
          if m < |p| { assert (p + q)[m] == p[m]; } else { assert (p + q)[m] == q[m - |p|]; }
        }
      }
      assert p + t + q == (p + q) + [];
      TrimLeftPadded(p + q, []);
    } else {
      assert p + t + q == p + (t + q);
      TrimLeftPadded(p, t + q);
      TrimRightPadded(t, q);
    }
  }

  /** `strip()` is idempotent. */
  lemma StripIdempotent(s: string)
    ensures Strip(Strip(s)) == Strip(s)
  {
    var t := Strip(s);
    StripShape(s);
    StripPadded([], t, []);
    assert [] + t + [] == t;
  }

  /** `str.lower()`, restricted to the ASCII capitals. */
  function Lower(s: string): (r: string)
    ensures |r| == |s|
    ensures forall m :: 0 <= m < |s| ==>
      r[m] == if 'A' <= s[m] <= 'Z' then (s[m] as int + 32) as char else s[m]
  {
    if s == [] then []
    else [if 'A' <= s[0] <= 'Z' then (s[0] as int + 32) as char else s[0]] + Lower(s[1..])
  }

  /** `s.split(sep)` with a one-character separator: never empty, and no piece holds `sep`. */
  function Split(s: string, sep: char): (r: seq<string>)
    ensures |r| >= 1
    ensures forall j :: 0 <= j < |r| ==> sep !in r[j]
  {
    if s == [] then [""]
    else
      var rest := Split(s[1..], sep);
      if s[0] == sep then [""] + rest
      else [[s[0]] + rest[0]] + rest[1..]
  }

  /** `sep.join(parts)`, the inverse of `Split`. */
  function Join(parts: seq<string>, sep: char): string
    requires |parts| >= 1
  {
    if |parts| == 1 then parts[0] else parts[0] + [sep] + Join(parts[1..], sep)
  }

  /** Joining the pieces of a split gives the original string back. */
  lemma {:induction false} JoinSplit(s: string, sep: char)
    ensures Join(Split(s, sep), sep) == s
  {
    if s != [] {
      var rest := Split(s[1..], sep);
      JoinSplit(s[1..], sep);
      if s[0] != sep {
        if |rest| == 1 {
          assert Split(s, sep) == [[s[0]] + rest[0]];
        } else {
          assert Split(s, sep)[1..] == rest[1..];
          assert ([s[0]] + rest[0]) + [sep] + Join(rest[1..], sep) == [s[0]] + (rest[0] + [sep] + Join(rest[1..], sep));
        }
      } else {
        assert Split(s, sep)[1..] == rest;
      }
    }
  }

  /** Splitting a join of separator-free pieces gives the pieces back. */
  lemma {:induction false} SplitJoin(parts: seq<string>, sep: char)
    requires |parts| >= 1
    requires forall j :: 0 <= j < |parts| ==> sep !in parts[j]
    ensures Split(Join(parts, sep), sep) == parts
  {
    if |parts| == 1 {
      SplitNoSeparator(parts[0], sep);
    } else {
      SplitJoin(parts[1..], sep);
      SplitPrefix(parts[0], Join(parts[1..], sep), sep);
      assert [parts[0]] + parts[1..] == parts;
    }
  }

  lemma {:induction false} SplitNoSeparator(s: string, sep: char)
    requires sep !in s
    ensures Split(s, sep) == [s]
  {
    if s != [] {
      SplitNoSeparator(s[1..], sep);
      assert [s[0]] + s[1..] == s;
    }
  }

  lemma {:induction false} SplitPrefix(w: string, s: string, sep: char)
    requires sep !in w
    ensures Split(w + [sep] + s, sep) == [w] + Split(s, sep)
  {
    if w == [] {
      assert ([] + [sep] + s)[1..] == s;
    } else {
      assert (w + [sep] + s)[1..] == w[1..] + [sep] + s;
      SplitPrefix(w[1..], s, sep);
      assert [w[0]] + w[1..] == w;
    }
  }

  function Count(s: string, c: char): nat {
    if s == [] then 0 else (if s[0] == c then 1 else 0) + Count(s[1..], c)
  }

  /** A split yields one more piece than there are separators. */
  lemma {:induction false} SplitLength(s: string, sep: char)
    ensures |Split(s, sep)| == Count(s, sep) + 1
  {
    if s != [] {
      SplitLength(s[1..], sep);
    }
  }

  predicate IsDigit(c: char) {
    '0' <= c <= '9'
  }

  /**
    A run of decimal digits as `int()` accepts it: ASCII digits, where a single
    underscore may stand between two digits.
   */
  predicate IsDigitRun(s: string) {
    && |s| > 0
    && IsDigit(s[|s| - 1])
    && (|| |s| == 1
        || IsDigitRun(s[..|s| - 1])
        || (|s| >= 3 && s[|s| - 2] == '_' && IsDigitRun(s[..|s| - 2])))
  }

  lemma {:induction false} DigitRunStartsWithDigit(s: string)
    requires IsDigitRun(s)
    ensures IsDigit(s[0])
  {
    if |s| > 1 {
      if IsDigitRun(s[..|s| - 1]) {
        DigitRunStartsWithDigit(s[..|s| - 1]);
      } else {
        DigitRunStartsWithDigit(s[..|s| - 2]);
      }
    }
  }

  /** The value of a digit run, underscores ignored. */
  function RunValue(s: string): nat {
    if s == [] then 0
    else if IsDigit(s[|s| - 1]) then 10 * RunValue(s[..|s| - 1]) + (s[|s| - 1] as int - '0' as int)
    else RunValue(s[..|s| - 1])
  }

  /**
    The whitespace `int()` skips around its literal: `IsSpace` except the four
    separators U+001C..U+001F. CPython maps only non-ASCII whitespace to a
    space and then skips ASCII space, tab, line feed, vertical tab, form feed
    and carriage return.
   */
  predicate IsIntSpace(c: char) {
    IsSpace(c) && !('\U{1C}' <= c <= '\U{1F}')
  }

  function IntTrimLeft(s: string): string {
    if s != [] && IsIntSpace(s[0]) then IntTrimLeft(s[1..]) else s
  }

  function IntTrimRight(s: string): string {
    if s != [] && IsIntSpace(s[|s| - 1]) then IntTrimRight(s[..|s| - 1]) else s
  }

  /** The whitespace `int()` removes before reading its literal. */
  function IntStrip(s: string): string {
    IntTrimRight(IntTrimLeft(s))
  }

  /** `int()`'s own stripping leaves alone anything `strip()` would leave alone. */
  lemma IntStripUnpadded(s: string)
    requires s != [] ==> !IsSpace(s[0]) && !IsSpace(s[|s| - 1])
    ensures IntStrip(s) == s
  {
  }

  /** `int(t)` in base 10 for a `t` without surrounding whitespace: `None` where Python raises `ValueError`. */
  function IntLiteral(t: string): Option<int> {
    if |t| > 0 && (t[0] == '-' || t[0] == '+') then
      var v: int := RunValue(t[1..]);
      if IsDigitRun(t[1..]) then Some(if t[0] == '-' then -v else v) else None
    else if IsDigitRun(t) then Some(RunValue(t))
    else None
  }

  /** `int(s)` in base 10, which first strips the whitespace around `s`. */
  function ParseInt(s: string): Option<int> {
    IntLiteral(IntStrip(s))
  }

  /** Unlike `strip()`, `int()` does not skip U+001C: `int('\x1c5')` raises `ValueError`. */
  lemma IntKeepsFileSeparator()
    ensures Strip("\U{1C}5") == "5"
    ensures ParseInt("\U{1C}5") == None
  {
    assert IsSpace('\U{1C}') && !IsIntSpace('\U{1C}');
    assert "\U{1C}5"[1..] == "5";
    assert TrimLeft("5") == "5" && TrimRight("5") == "5";
    assert IntStrip("\U{1C}5") == "\U{1C}5";
    assert !IsDigitRun("\U{1C}5") by {
      assert !IsDigit('\U{1C}');
      assert "\U{1C}5"[..1] == "\U{1C}";
    }
  }

  function DigitChar(d: nat): char
    requires d < 10
  {
    ('0' as int + d) as char
  }

  function FormatNat(n: nat): string {
    if n < 10 then [DigitChar(n)] else FormatNat(n / 10) + [DigitChar(n % 10)]
  }

  /** `str(n)`. */
  function FormatInt(n: int): string {
    if n < 0 then "-" + FormatNat(-n) else FormatNat(n)
  }

  lemma {:induction false} FormatNatDigits(n: nat)
    ensures |FormatNat(n)| > 0
    ensures forall m :: 0 <= m < |FormatNat(n)| ==> IsDigit(FormatNat(n)[m])
    ensures IsDigitRun(FormatNat(n))
    ensures RunValue(FormatNat(n)) == n
  {
    if n >= 10 {
      FormatNatDigits(n / 10);
      var f := FormatNat(n / 10) + [DigitChar(n % 10)];
      assert f[..|f| - 1] == FormatNat(n / 10);
    }
  }

  lemma StripUnpadded(s: string)
    requires s != [] ==> !IsSpace(s[0]) && !IsSpace(s[|s| - 1])
    ensures Strip(s) == s
  {
    StripPadded([], s, []);
    assert [] + s + [] == s;
  }

  lemma DigitIsNotSpace(c: char)
    requires IsDigit(c)
    ensures !IsSpace(c) && c != '-' && c != '+'
  {
  }

  lemma ParseDigitRun(f: string)
    requires IsDigitRun(f)
    ensures ParseInt(f) == Some(RunValue(f))
  {
    DigitRunStartsWithDigit(f);
    DigitIsNotSpace(f[0]);
    DigitIsNotSpace(f[|f| - 1]);
    IntStripUnpadded(f);
  }

  lemma ParseNegatedDigitRun(f: string)
    requires IsDigitRun(f)
    ensures ParseInt("-" + f) == Some(-(RunValue(f) as int))
  {
    var s := "-" + f;
    assert s[1..] == f && s[|s| - 1] == f[|f| - 1];
    DigitIsNotSpace(f[|f| - 1]);
    IntStripUnpadded(s);
  }

  /** `int(str(n)) == n`: the decimal text of every integer parses back to it. */
  lemma ParseFormat(n: int)
    ensures ParseInt(FormatInt(n)) == Some(n)
  {
    var a := if n < 0 then -n else n;
    FormatNatDigits(a);
    if n < 0 {
      ParseNegatedDigitRun(FormatNat(a));
    } else {
      ParseDigitRun(FormatNat(a));
    }
  }
}
