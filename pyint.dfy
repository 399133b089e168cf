/**
 * Python's `int(s)` on a `str` and its inverse `str(n)`, for base 10: surrounding whitespace,
 * an optional sign, then ASCII digits in which single underscores may separate two digits.
 * CPython first maps every non-ASCII whitespace character to a space and then skips only the
 * C-locale whitespace, so the four separators U+001C to U+001F, which `str.isspace()` accepts,
 * are not skipped and make the text invalid.
 */
module PyInt {
  import opened Wrappers
  import PyStr

  predicate IsDigit(c: char) {
    '0' <= c <= '9'
  }

  function DigitValue(c: char): nat
    requires IsDigit(c)
  {
    c as int - '0' as int
  }

  function DigitChar(d: nat): (c: char)
    requires d < 10
    ensures IsDigit(c) && DigitValue(c) == d
  {
    ('0' as int + d) as char
  }

  /** Every character is a digit or an underscore. */
  predicate IsDigitsOrUnderscores(s: string) {
    forall i :: 0 <= i < |s| ==> IsDigit(s[i]) || s[i] == '_'
  }

  /** The digit part `int()` accepts: digits, and single underscores each between two digits. */
  predicate IsDigitString(s: string) {
    && |s| > 0 && IsDigit(s[0])
    && IsDigitsOrUnderscores(s)
    && forall i :: 0 <= i < |s| && s[i] == '_' ==> i + 1 < |s| && IsDigit(s[i + 1])
  }

  /** The number a string of digits and underscores denotes; underscores carry no value. */
  function Value(s: string): nat
    requires IsDigitsOrUnderscores(s)
    decreases |s|
  {
    if s == [] then 0
    else if s[|s| - 1] == '_' then Value(s[..|s| - 1])
    else 10 * Value(s[..|s| - 1]) + DigitValue(s[|s| - 1])
  }

  /** The whitespace `int()` skips at either end: `str.isspace()` without U+001C to U+001F. */
  predicate IsIntSpace(c: char) {
    PyStr.IsSpace(c) && !('\U{001C}' <= c <= '\U{001F}')
  }

  /** The suffix of `s` left once the leading `int()` whitespace is gone. */
  function TrimLeft(s: string): (r: string)
    ensures |r| <= |s| && r == s[|s| - |r|..]
    ensures forall k :: 0 <= k < |s| - |r| ==> IsIntSpace(s[k])
    ensures r == [] || !IsIntSpace(r[0])
    decreases |s|
  {
    if s != [] && IsIntSpace(s[0]) then TrimLeft(s[1..]) else s
  }

  /** The prefix of `s` left once the trailing `int()` whitespace is gone. */
  function TrimRight(s: string): (r: string)
    ensures |r| <= |s| && r == s[..|r|]
    ensures forall k :: |r| <= k < |s| ==> IsIntSpace(s[k])
    ensures r == [] || (!IsIntSpace(r[|r| - 1]) && r[0] == s[0])
    decreases |s|
  {
    if s != [] && IsIntSpace(s[|s| - 1]) then TrimRight(s[..|s| - 1]) else s
  }

  /** `s` with the whitespace `int()` skips removed at both ends. */
  function Trim(s: string): (r: string)
    ensures r == [] || (!IsIntSpace(r[0]) && !IsIntSpace(r[|r| - 1]))
  {
    TrimRight(TrimLeft(s))
  }

  /** `int(s)`: `Some` of the integer, or `None` where Python raises `ValueError`. */
  function Parse(s: string): (r: Option<int>)
    ensures r.Some? ==> exists k :: 0 <= k < |s| && IsDigit(s[k])
  {
    var r := ParseStripped(Trim(s));
    if r.Some? then ParsedHasDigit(s); r else r
  }

  /** What `int()` accepts holds a digit, first or right after the sign. */
  lemma ParsedHasDigit(s: string)
    requires ParseStripped(Trim(s)).Some?
    ensures exists k :: 0 <= k < |s| && IsDigit(s[k])
  {
    var l := TrimLeft(s);
    var t := TrimRight(l);
    var i := |s| - |l|;
    if IsDigit(t[0]) {
      assert s[i] == l[0] == t[0];
    } else {
      assert t[1..][0] == t[1];
      assert s[i + 1] == l[1] == t[1];
    }
  }

  /** `int` once the surrounding whitespace is gone: an optional sign, then the digit part. */
  function ParseStripped(t: string): Option<int> {
    if |t| > 0 && (t[0] == '+' || t[0] == '-') then
      var u := t[1..];
      if IsDigitString(u) then Some(if t[0] == '-' then 0 - Value(u) else Value(u)) else None
    else if IsDigitString(t) then Some(Value(t))
    else None
  }

  /** The decimal digits of `n`, most significant first, with no leading zero. */
  function Digits(n: nat): (r: string)
    ensures |r| > 0 && forall i :: 0 <= i < |r| ==> IsDigit(r[i])
    ensures r[0] != '0' || n == 0
    decreases n
  {
    if n < 10 then [DigitChar(n)] else Digits(n / 10) + [DigitChar(n % 10)]
  }

  /** `str(n)`. */
  function Render(n: int): string {
    if n < 0 then "-" + Digits(-n) else Digits(n)
  }

  lemma {:induction false} ValueDigits(n: nat)
    ensures Value(Digits(n)) == n
    decreases n
  {
    var d := Digits(n);
    if n >= 10 {
      assert d[..|d| - 1] == Digits(n / 10);
      ValueDigits(n / 10);
    }
  }

  lemma DigitsWellFormed(n: nat)
    ensures IsDigitString(Digits(n))
  {
    var d := Digits(n);
    assert forall i :: 0 <= i < |d| ==> d[i] != '_';
  }

  /** The digits of `str(n)`, with its sign, read back as `n`. */
  lemma ParseStrippedRender(n: int)
    ensures ParseStripped(Render(n)) == Some(n)
  {
    var m := if n < 0 then -n else n;
    DigitsWellFormed(m);
    ValueDigits(m);
    ParseStrippedSigned(Digits(m));
    if n < 0 {
      assert Render(n) == "-" + Digits(m);
    } else {
      assert Render(n) == Digits(m);
    }
  }

  /** A digit part reads as its value, and as the negated value after a minus sign. */
  lemma ParseStrippedSigned(d: string)
    requires IsDigitString(d)
    ensures ParseStripped(d) == Some(Value(d))
    ensures ParseStripped("-" + d) == Some(0 - Value(d))
  {
    assert ("-" + d)[1..] == d;
  }

  /** `int(str(n)) == n`, with any whitespace `int()` skips around the digits. */
  lemma ParseRenderPadded(pre: string, n: int, post: string)
    requires forall k :: 0 <= k < |pre| ==> IsIntSpace(pre[k])
    requires forall k :: 0 <= k < |post| ==> IsIntSpace(post[k])
    ensures Parse(pre + Render(n) + post) == Some(n)
  {
    var w := Render(n);
    RenderTrimmed(n);
    assert pre + w + post == pre + (w + post) && (w + post)[0] == w[0];
    TrimLeftPadded(pre, w + post);
    TrimRightPadded(w, post);
    ParseStrippedRender(n);
  }

  lemma {:induction false} TrimLeftPadded(pre: string, rest: string)
    requires forall k :: 0 <= k < |pre| ==> IsIntSpace(pre[k])
    requires rest != [] && !IsIntSpace(rest[0])
    ensures TrimLeft(pre + rest) == rest
    decreases |pre|
  {
    var s := pre + rest;
    if pre != [] {
      assert s[0] == pre[0] && s[1..] == pre[1..] + rest;
      TrimLeftPadded(pre[1..], rest);
      assert TrimLeft(s) == TrimLeft(s[1..]);
    } else {
      assert s == rest;
    }
  }

  lemma {:induction false} TrimRightPadded(rest: string, post: string)
    requires forall k :: 0 <= k < |post| ==> IsIntSpace(post[k])
    requires rest != [] && !IsIntSpace(rest[|rest| - 1])
    ensures TrimRight(rest + post) == rest
    decreases |post|
  {
    if post != [] {
      var p := post[..|post| - 1];
      assert (rest + post)[..|rest + post| - 1] == rest + p;
      TrimRightPadded(rest, p);
    } else {
      assert rest + post == rest;
    }
  }

  /** `str(n)` has no whitespace at either end. */
  lemma RenderTrimmed(n: int)
    ensures Render(n) != "" && !IsIntSpace(Render(n)[0]) && !IsIntSpace(Render(n)[|Render(n)| - 1])
  {
    var r := Render(n);
    assert r[0] == '-' || IsDigit(r[0]);
    assert IsDigit(r[|r| - 1]);
  }

  /** `int(str(n)) == n`. */
  lemma ParseRender(n: int)
    ensures Parse(Render(n)) == Some(n)
  {
    var r := Render(n);
    RenderTrimmed(n);
    TrimLeftPadded([], r);
    TrimRightPadded(r, []);
    assert [] + r == r && r + [] == r;
    ParseStrippedRender(n);
  }

  /** A separator U+001C to U+001F before the number is not skipped, so the text is refused. */
  lemma SeparatorRefused(c: char, s: string)
    requires '\U{001C}' <= c <= '\U{001F}'
    ensures Parse([c] + s) == None
  {
    var u := [c] + s;
    assert u[0] == c && !IsIntSpace(c);
    assert TrimLeft(u) == u;
    StartRefused(Trim(u));
  }

  /** Text that starts with neither a sign nor a digit is refused. */
  lemma StartRefused(t: string)
    requires t != [] && t[0] != '+' && t[0] != '-' && !IsDigit(t[0])
    ensures ParseStripped(t) == None
  {
  }

  /** Strings with no digit at all, such as the empty string, are refused. */
  lemma ParseNeedsDigit(s: string)
    requires forall k :: 0 <= k < |s| ==> !IsDigit(s[k])
    ensures Parse(s) == None
  {
  }
}
