/**
 * The Python string built-ins the scanners rely on: `str.split(sep)`,
 * `str.split(sep, 1)`, `str.strip()`, `sep in s` and `int(s)` on text.
 */
module Text {
  import opened Wrappers

  /** `c.isspace()`: the characters Python treats as whitespace. */
  predicate IsSpace(c: char) {
    c == ' ' || '\t' <= c <= '\r' || '\U{1c}' <= c <= '\U{1f}' || c == '\U{85}' || c == '\U{a0}'
    || c == '\U{1680}' || '\U{2000}' <= c <= '\U{200a}' || c == '\U{2028}' || c == '\U{2029}'
    || c == '\U{202f}' || c == '\U{205f}' || c == '\U{3000}'
  }

  predicate AllSpace(s: string) {
    forall i :: 0 <= i < |s| ==> IsSpace(s[i])
  }

  /** `s.lstrip()` */
  function LStrip(s: string): string {
    if s != [] && IsSpace(s[0]) then LStrip(s[1..]) else s
  }

  /** `s.rstrip()` */
  function RStrip(s: string): string {
    if s != [] && IsSpace(s[|s| - 1]) then RStrip(s[..|s| - 1]) else s
  }

  /** `s.strip()` */
  function Strip(s: string): string {
    RStrip(LStrip(s))
  }

  /** `lstrip` leaves a suffix of `s` that starts with a non-space, after only spaces. */
  lemma {:induction false} LStripShape(s: string)
    ensures var r := LStrip(s);
      && |r| <= |s| && r == s[|s| - |r|..]
      && AllSpace(s[..|s| - |r|])
      && (r == [] || !IsSpace(r[0]))
  {
    if s != [] && IsSpace(s[0]) {
      LStripShape(s[1..]);
      var r := LStrip(s);
      assert s[..|s| - |r|] == [s[0]] + s[1..][..|s| - 1 - |r|];
    }
  }

  /** `rstrip` leaves a prefix of `s` that ends with a non-space, before only spaces. */
  lemma {:induction false} RStripShape(s: string)
    ensures var r := RStrip(s);
      && |r| <= |s| && r == s[..|r|]
      && AllSpace(s[|r|..])
      && (r == [] || !IsSpace(r[|r| - 1]))
  {
    if s != [] && IsSpace(s[|s| - 1]) {
      RStripShape(s[..|s| - 1]);
      var r := RStrip(s);
      assert s[|r|..] == s[..|s| - 1][|r|..] + [s[|s| - 1]];
    }
  }

  /** `lstrip` is determined by the shape its result must have. */
  lemma {:induction false} LStripUnique(p: string, r: string)
    requires AllSpace(p)
    requires r == [] || !IsSpace(r[0])
    ensures LStrip(p + r) == r
  {
    if p != [] {
      assert (p + r)[1..] == p[1..] + r;
      LStripUnique(p[1..], r);
    } else {
      assert p + r == r;
    }
  }

  /** `rstrip` is determined by the shape its result must have. */
  lemma {:induction false} RStripUnique(r: string, q: string)
    requires AllSpace(q)
    requires r == [] || !IsSpace(r[|r| - 1])
    ensures RStrip(r + q) == r
  {
    if q != [] {
      assert (r + q)[..|r + q| - 1] == r + q[..|q| - 1];
      RStripUnique(r, q[..|q| - 1]);
    } else {
      assert r + q == r;
    }
  }

  /** Stripping either end first gives the same result. */
  lemma StripCommutes(s: string)
    ensures LStrip(RStrip(s)) == RStrip(LStrip(s))
  {
    LStripShape(s);
    var l := LStrip(s);
    var p := s[..|s| - |l|];
    assert s == p + l;
    if l == [] {
      assert AllSpace(s) by { assert s == p; }
      RStripUnique([], s);
      assert [] + s == s;
    } else {
      StripCommutesCore(p, l);
    }
  }

  lemma StripCommutesCore(p: string, l: string)
    requires AllSpace(p) && l != [] && !IsSpace(l[0])
    ensures LStrip(RStrip(p + l)) == RStrip(l)
  {
    RStripShape(l);
    var m := RStrip(l);
    var q := l[|m|..];
    assert m != [];
    assert l == m + q;
    assert p + l == (p + m) + q;
    assert (p + m)[|p + m| - 1] == m[|m| - 1];
    RStripUnique(p + m, q);
    LStripUnique(p, m);
  }

  lemma StripLStripIdempotent(s: string)
    ensures LStrip(LStrip(s)) == LStrip(s)
  {
    LStripShape(s);
    LStripUnique([], LStrip(s));
    assert [] + LStrip(s) == LStrip(s);
  }

  lemma StripRStripIdempotent(s: string)
    ensures RStrip(RStrip(s)) == RStrip(s)
  {
    RStripShape(s);
    RStripUnique(RStrip(s), []);
    assert RStrip(s) + [] == RStrip(s);
  }

  /** Removing leading or trailing whitespace first does not change what `strip` gives. */
  lemma StripAfterPartialStrip(s: string)
    ensures Strip(LStrip(s)) == Strip(s)
    ensures Strip(RStrip(s)) == Strip(s)
    ensures Strip(Strip(s)) == Strip(s)
  {
    StripLStripIdempotent(s);
    StripCommutes(s);
    StripRStripIdempotent(LStrip(s));
    StripLStripIdempotent(RStrip(s));
    StripCommutes(LStrip(s));
    StripCommutes(RStrip(s));
  }

  /** `lstrip` stops at the first non-space character. */
  lemma LStripKeeps(a: string, c: char, b: string)
    requires !IsSpace(c)
    ensures LStrip(a + [c] + b) == LStrip(a) + [c] + b
  {
    LStripShape(a);
    var la := LStrip(a);
    var p := a[..|a| - |la|];
    assert a == p + la;
    assert a + [c] + b == p + (la + [c] + b);
    LStripUnique(p, la + [c] + b);
  }

  /** `rstrip` stops at the last non-space character. */
  lemma RStripKeeps(a: string, c: char, b: string)
    requires !IsSpace(c)
    ensures RStrip(a + [c] + b) == a + [c] + RStrip(b)
  {
    RStripShape(b);
    var rb := RStrip(b);
    var q := b[|rb|..];
    assert b == rb + q;
    assert a + [c] + b == (a + [c] + rb) + q;
    RStripUnique(a + [c] + rb, q);
  }

  /** Stripping `a + [c] + b` for a non-space `c` only touches the two outer pieces. */
  lemma StripAround(a: string, c: char, b: string)
    requires !IsSpace(c)
    ensures Strip(a + [c] + b) == LStrip(a) + [c] + RStrip(b)
  {
    LStripKeeps(a, c, b);
    RStripKeeps(LStrip(a), c, b);
  }

  /** The index of the first `sep` in `s`. */
  function IndexOf(s: string, sep: char): (i: nat)
    requires sep in s
    ensures i < |s| && s[i] == sep && sep !in s[..i]
  {
    if s[0] == sep then 0 else
      assert s[1..][IndexOf(s[1..], sep)] == sep;
      assert s[..IndexOf(s[1..], sep) + 1] == [s[0]] + s[1..][..IndexOf(s[1..], sep)];
      1 + IndexOf(s[1..], sep)
  }

  /** `s.split(sep, 1)` when `sep in s`: the text before the first `sep` and the text after it. */
  function SplitOnce(s: string, sep: char): (r: (string, string))
    requires sep in s
    ensures r.0 + [sep] + r.1 == s
    ensures sep !in r.0
  {
    var i := IndexOf(s, sep);
    assert s == s[..i] + [sep] + s[i + 1..];
    (s[..i], s[i + 1..])
  }

  /** The split point is the first separator, so any text without `sep` before it is recovered. */
  lemma SplitOnceOf(a: string, sep: char, b: string)
    requires sep !in a
    ensures sep in a + [sep] + b
    ensures SplitOnce(a + [sep] + b, sep) == (a, b)
  {
    var s := a + [sep] + b;
    assert s[|a|] == sep;
    var r := SplitOnce(s, sep);
    if |r.0| < |a| {
      assert false;
    } else if |r.0| > |a| {
      assert false;
    }
    assert r.0 == s[..|a|] == a;
    assert r.1 == s[|a| + 1..] == b;
  }

  /** `sep.join(parts)` */
  function Join(parts: seq<string>, sep: char): string {
    if parts == [] then []
    else if |parts| == 1 then parts[0]
    else parts[0] + [sep] + Join(parts[1..], sep)
  }

  /** `s.split(sep)`: never empty, no piece holds `sep`, and joining the pieces gives `s` back. */
  function Split(s: string, sep: char): (r: seq<string>)
    ensures |r| >= 1
    ensures forall i :: 0 <= i < |r| ==> sep !in r[i]
    ensures Join(r, sep) == s
    decreases |s|
  {
    if sep !in s then [s]
    else
      var (head, tail) := SplitOnce(s, sep);
      [head] + Split(tail, sep)
  }

  /** Splitting is the inverse of joining pieces that hold no separator. */
  lemma {:induction false} SplitJoin(parts: seq<string>, sep: char)
    requires |parts| >= 1
    requires forall i :: 0 <= i < |parts| ==> sep !in parts[i]
    ensures Split(Join(parts, sep), sep) == parts
  {
    if |parts| > 1 {
      var tail := Join(parts[1..], sep);
      assert Join(parts, sep) == parts[0] + [sep] + tail;
      SplitOnceOf(parts[0], sep, tail);
      assert sep in Join(parts, sep);
      assert Split(Join(parts, sep), sep) == [parts[0]] + Split(tail, sep);
      SplitJoin(parts[1..], sep);
      assert [parts[0]] + parts[1..] == parts;
    } else {
      assert Join(parts, sep) == parts[0];
      assert sep !in parts[0];
      assert [parts[0]] == parts;
    }
  }

  predicate IsDigit(c: char) {
    '0' <= c <= '9'
  }

  function DigitValue(c: char): (d: nat)
    requires IsDigit(c)
    ensures d < 10
  {
    c as int - '0' as int
  }

  function DigitChar(d: nat): (c: char)
    requires d < 10
    ensures IsDigit(c) && DigitValue(c) == d
  {
    ('0' as int + d) as char
  }

  predicate DigitsOrUnderscores(s: string) {
    forall i :: 0 <= i < |s| ==> IsDigit(s[i]) || s[i] == '_'
  }

  /** The body `int()` accepts for base 10: digits, with single underscores only between digits. */
  predicate IsDigitRun(s: string) {
    && |s| > 0
    && IsDigit(s[0])
    && IsDigit(s[|s| - 1])
    && DigitsOrUnderscores(s)
    && (forall i :: 0 <= i < |s| - 1 && s[i] == '_' ==> s[i + 1] != '_')
  }

  /** The decimal value of the digits of `s`, underscores ignored. */
  function DigitsValue(s: string): nat
    requires DigitsOrUnderscores(s)
  {
    if s == [] then 0
    else if s[|s| - 1] == '_' then DigitsValue(s[..|s| - 1])
    else 10 * DigitsValue(s[..|s| - 1]) + DigitValue(s[|s| - 1])
  }

  /**
   * `int()` on text whose surrounding whitespace is already gone: an optional sign,
   * then a digit run. What it accepts starts with a sign or a digit and ends with a digit.
   */
  function ParseStripped(t: string): (r: Option<int>)
    ensures r.Some? ==> |t| > 0 && IsDigit(t[|t| - 1]) && (IsDigit(t[0]) || t[0] == '+' || t[0] == '-')
  {
    if |t| > 0 && (t[0] == '+' || t[0] == '-') then
      var body := t[1..];
      if IsDigitRun(body) then Some(if t[0] == '-' then -(DigitsValue(body) as int) else DigitsValue(body)) else None
    else if IsDigitRun(t) then Some(DigitsValue(t))
    else None
  }

  /**
   * The whitespace `int()` skips around a number: tab to carriage return, the space,
   * and the whitespace characters from U+0080 up. The separators U+001C to U+001F,
   * which `str.isspace()` counts, are not skipped.
   */
  predicate IsIntSpace(c: char) {
    IsSpace(c) && !('\U{1c}' <= c <= '\U{1f}')
  }

  predicate AllIntSpace(s: string) {
    forall i :: 0 <= i < |s| ==> IsIntSpace(s[i])
  }

  /** The text `int()` reads once it has skipped its whitespace at both ends. */
  function IntTrim(s: string): string {
    if s != [] && IsIntSpace(s[0]) then IntTrim(s[1..])
    else if s != [] && IsIntSpace(s[|s| - 1]) then IntTrim(s[..|s| - 1])
    else s
  }

  /** `IntTrim` removes a prefix and a suffix of `int()` whitespace, and stops at anything else. */
  lemma {:induction false} IntTrimShape(s: string) returns (p: string, q: string)
    ensures s == p + IntTrim(s) + q
    ensures AllIntSpace(p) && AllIntSpace(q)
    ensures var t := IntTrim(s); t == [] || (!IsIntSpace(t[0]) && !IsIntSpace(t[|t| - 1]))
  {
    if s != [] && IsIntSpace(s[0]) {
      assert IntTrim(s) == IntTrim(s[1..]);
      var p', q' := IntTrimShape(s[1..]);
      p, q := [s[0]] + p', q';
      IntSpaceCons(s[0], p');
      calc {
        s;
        [s[0]] + s[1..];
        [s[0]] + (p' + IntTrim(s) + q');
        { assert [s[0]] + (p' + IntTrim(s) + q') == ([s[0]] + p') + IntTrim(s) + q'; }
        p + IntTrim(s) + q;
      }
    } else if s != [] && IsIntSpace(s[|s| - 1]) {
      assert IntTrim(s) == IntTrim(s[..|s| - 1]);
      var p', q' := IntTrimShape(s[..|s| - 1]);
      p, q := p', q' + [s[|s| - 1]];
      IntSpaceSnoc(q', s[|s| - 1]);
      calc {
        s;
        s[..|s| - 1] + [s[|s| - 1]];
        (p' + IntTrim(s) + q') + [s[|s| - 1]];
        { assert (p' + IntTrim(s) + q') + [s[|s| - 1]] == p' + IntTrim(s) + (q' + [s[|s| - 1]]); }
        p + IntTrim(s) + q;
      }
    } else {
      assert IntTrim(s) == s;
      p, q := [], [];
      assert s == [] + s + [];
    }
  }

  lemma IntSpaceCons(c: char, s: string)
    requires IsIntSpace(c) && AllIntSpace(s)
    ensures AllIntSpace([c] + s)
  {
  }

  lemma IntSpaceSnoc(s: string, c: char)
    requires AllIntSpace(s) && IsIntSpace(c)
    ensures AllIntSpace(s + [c])
  {
  }

  /** `IntTrim` is determined by the shape its result must have. */
  lemma {:induction false} IntTrimUnique(p: string, t: string, q: string)
    requires AllIntSpace(p) && AllIntSpace(q)
    requires t == [] || (!IsIntSpace(t[0]) && !IsIntSpace(t[|t| - 1]))
    ensures IntTrim(p + t + q) == t
    decreases |p| + |q|
  {
    var s := p + t + q;
    if p != [] {
      assert s[0] == p[0];
      assert s[1..] == p[1..] + t + q;
      IntTrimUnique(p[1..], t, q);
    } else if q != [] {
      assert s[|s| - 1] == q[|q| - 1];
      if t == [] {
        assert s == q;
        assert s[1..] == p + t + q[1..];
        IntTrimUnique(p, t, q[1..]);
      } else {
        assert s[0] == t[0];
        assert s[..|s| - 1] == p + t + q[..|q| - 1];
        IntTrimUnique(p, t, q[..|q| - 1]);
      }
    } else {
      assert s == t;
    }
  }

  /**
   * `int(s)` for a `str`: the whitespace `int()` knows is skipped at both ends, an
   * optional sign may precede the digits, and anything else (the empty string
   * included) raises ValueError, modelled as None. An accepted text, once trimmed,
   * starts and ends with something that is not whitespace.
   */
  function ParseInt(s: string): (r: Option<int>)
    ensures r.Some? ==> IntTrim(s) != [] && !IsSpace(IntTrim(s)[0]) && !IsSpace(IntTrim(s)[|IntTrim(s)| - 1])
  {
    ParseStripped(IntTrim(s))
  }

  /**
   * `str.strip()` before `int()` keeps every number `int()` accepts: whatever
   * `int()` skips, `strip` removes too, and it stops at the sign or digit where
   * `int()` starts reading.
   */
  lemma ParseIntIgnoresStrip(s: string)
    requires ParseInt(s).Some?
    ensures ParseInt(LStrip(s)) == ParseInt(s)
    ensures ParseInt(RStrip(s)) == ParseInt(s)
    ensures ParseInt(Strip(s)) == ParseInt(s)
  {
    var p, q := IntTrimShape(s);
    var t := IntTrim(s);
    StripAroundNumber(p, t, q);
    IntTrimUnique([], t, q);
    IntTrimUnique(p, t, []);
    IntTrimUnique([], t, []);
    assert t + q == [] + t + q;
    assert p + t == p + t + [];
    assert t == [] + t + [];
  }

  /** Stripping a text that is a number between `int()` whitespace removes exactly that whitespace. */
  lemma StripAroundNumber(p: string, t: string, q: string)
    requires AllIntSpace(p) && AllIntSpace(q)
    requires t != [] && !IsSpace(t[0]) && !IsSpace(t[|t| - 1])
    ensures LStrip(p + t + q) == t + q
    ensures RStrip(p + t + q) == p + t
    ensures Strip(p + t + q) == t
  {
    IntSpaceIsSpace(p);
    IntSpaceIsSpace(q);
    assert p + t + q == p + (t + q);
    LStripUnique(p, t + q);
    assert (p + t)[|p + t| - 1] == t[|t| - 1];
    RStripUnique(p + t, q);
    RStripUnique(t, q);
  }

  lemma IntSpaceIsSpace(s: string)
    requires AllIntSpace(s)
    ensures AllSpace(s)
  {
  }

  /**
   * Where `strip` and `int()` part ways: `int()` does not skip U+001C, so it rejects
   * "\u001c5", while stripping it first leaves "5", which it accepts.
   */
  lemma SeparatorNotSkippedByInt()
    ensures ParseInt("\U{1c}5") == None
    ensures Strip("\U{1c}5") == "5"
    ensures ParseInt(Strip("\U{1c}5")) == Some(5)
  {
    var s := "\U{1c}5";
    assert !IsIntSpace(s[0]) && !IsIntSpace(s[1]);
    assert IntTrim(s) == s;
    assert !IsDigitRun(s);
    LStripUnique([s[0]], "5");
    assert [s[0]] + "5" == s;
    RStripUnique("5", []);
    assert "5" + [] == "5";
    assert IntTrim("5") == "5";
    assert DigitsValue("5") == 10 * DigitsValue([]) + 5;
  }

  /** A text made only of whitespace, the empty text included, is not an integer. */
  lemma ParseIntOfSpace(s: string)
    requires AllSpace(s)
    ensures ParseInt(s) == None
  {
    var p, q := IntTrimShape(s);
    var t := IntTrim(s);
    if t != [] {
      assert t[0] == s[|p|];
    }
  }

  lemma AllSpaceStrip(s: string)
    ensures AllSpace(s) <==> Strip(s) == []
  {
    LStripShape(s);
    var l := LStrip(s);
    RStripShape(l);
    var p := s[..|s| - |l|];
    assert s == p + l;
    if AllSpace(s) {
      LStripUnique(s, []);
      assert s + [] == s;
    }
    if Strip(s) == [] {
      assert l[0..] == l;
      assert s == p;
    }
  }

  /** The decimal rendering `str(n)` of a natural number. */
  function NatString(n: nat): (s: string)
    ensures |s| > 0 && IsDigit(s[0]) && IsDigit(s[|s| - 1]) && DigitsOrUnderscores(s)
  {
    if n < 10 then [DigitChar(n)] else NatString(n / 10) + [DigitChar(n % 10)]
  }

  /** `str(n)` for an integer. */
  function DecimalString(n: int): string {
    if n < 0 then ['-'] + NatString(-n) else NatString(n)
  }

  lemma {:induction false} NatStringValue(n: nat)
    ensures IsDigitRun(NatString(n))
    ensures DigitsValue(NatString(n)) == n
  {
    var s := NatString(n);
    if n >= 10 {
      NatStringValue(n / 10);
      assert s[..|s| - 1] == NatString(n / 10);
    }
  }

  /** `int(str(n)) == n`: the decimal rendering is parsed back to the same integer. */
  lemma ParseDecimalString(n: int)
    ensures ParseInt(DecimalString(n)) == Some(n)
  {
    var s := DecimalString(n);
    assert !IsIntSpace(s[0]) && !IsIntSpace(s[|s| - 1]);
    assert IntTrim(s) == s;
    NatStringValue(if n < 0 then -n else n);
    if n < 0 {
      assert s[1..] == NatString(-n);
      assert ParseStripped(s) == Some(-(-n));
    } else {
      assert s[0] != '+' && s[0] != '-';
      assert ParseStripped(s) == Some(DigitsValue(NatString(n)));
    }
  }

  /** A text that starts and ends with non-whitespace is its own strip. */
  lemma StripOfTrimmed(s: string)
    requires s != [] && !IsSpace(s[0]) && !IsSpace(s[|s| - 1])
    ensures Strip(s) == s
  {
    LStripUnique([], s);
    assert [] + s == s;
    RStripUnique(s, []);
    assert s + [] == s;
  }
}
