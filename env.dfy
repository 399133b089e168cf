/**
 * Configuration read from environment variables. A variable is an `Option<string>`:
 * `None` when it is not set, `Some(v)` when it is set to `v` (possibly empty).
 */
module Env {
  import opened Wrappers
  import PyStr
  import PyInt

  /**
   * `env_int(name, default)`: the default when the variable is unset or empty
   * or when `int()` refuses its value, otherwise that value.
   */
  function EnvInt(v: Option<string>, default: int): (n: int)
    ensures n == default || (v.Some? && PyInt.Parse(v.value) == Some(n))
    ensures v.Some? && v.value != "" && PyInt.Parse(v.value).Some? ==> n == PyInt.Parse(v.value).value
  {
    if v.None? || v.value == "" then default
    else match PyInt.Parse(v.value)
      case None => default
      case Some(n) => n
  }

  /** A rendered integer, with any whitespace around it, is read back whatever the default. */
  lemma EnvIntRender(pre: string, n: int, post: string, default: int)
    requires forall k :: 0 <= k < |pre| ==> PyInt.IsIntSpace(pre[k])
    requires forall k :: 0 <= k < |post| ==> PyInt.IsIntSpace(post[k])
    ensures EnvInt(Some(pre + PyInt.Render(n) + post), default) == n
  {
    PyInt.ParseRenderPadded(pre, n, post);
    PyInt.DigitsWellFormed(if n < 0 then -n else n);
    assert |pre + PyInt.Render(n) + post| > 0;
  }

  /** Unset, empty or digit-free values fall back to the default. */
  lemma EnvIntFallback(v: Option<string>, default: int)
    requires v.None? || forall k :: 0 <= k < |v.value| ==> !PyInt.IsDigit(v.value[k])
    ensures EnvInt(v, default) == default
  {
    if v.Some? {
      PyInt.ParseNeedsDigit(v.value);
    }
  }

  /** `[s.strip() for s in fields]`. */
  function StripAll(fields: seq<string>): seq<string>
    decreases |fields|
  {
    if fields == [] then [] else [PyStr.Strip(fields[0])] + StripAll(fields[1..])
  }

  /** `[s for s in fields if s]`. */
  function NonEmpty(fields: seq<string>): (r: seq<string>)
    ensures forall x :: x in r <==> x in fields && x != ""
  {
    if fields == [] then []
    else (if fields[0] == "" then [] else [fields[0]]) + NonEmpty(fields[1..])
  }

  /**
   * `_parse_csv_env(name, default)`: the default only when the variable is unset; otherwise
   * the comma-separated fields, stripped, with the empty ones dropped.
   */
  function ParseCsv(raw: Option<string>, default: seq<string>): (r: seq<string>)
    ensures raw.None? ==> r == default
    ensures raw.Some? ==> forall i :: 0 <= i < |r| ==> r[i] != "" && PyStr.IsStripped(r[i]) && ',' !in r[i]
  {
    if raw.None? then default
    else
      var fields := PyStr.Split(raw.value, ',');
      StripAllClean(fields);
      NonEmptyElements(StripAll(fields));
      NonEmpty(StripAll(fields))
  }

  /** Each element `NonEmpty` keeps is a non-empty element of its input. */
  lemma NonEmptyElements(fields: seq<string>)
    ensures forall i :: 0 <= i < |NonEmpty(fields)| ==> NonEmpty(fields)[i] in fields && NonEmpty(fields)[i] != ""
  {
    var r := NonEmpty(fields);
    forall i | 0 <= i < |r|
      ensures r[i] in fields && r[i] != ""
    {
      assert r[i] in r;
    }
  }

  /** Stripping comma-free fields gives stripped, comma-free fields. */
  lemma {:induction false} StripAllClean(fields: seq<string>)
    requires forall i :: 0 <= i < |fields| ==> ',' !in fields[i]
    ensures forall x :: x in StripAll(fields) ==> PyStr.IsStripped(x) && ',' !in x
    decreases |fields|
  {
    if fields != [] {
      var rest := fields[1..];
      PyStr.StripKeepsAbsent(fields[0], ',');
      assert forall i :: 0 <= i < |rest| ==> rest[i] == fields[i + 1];
      StripAllClean(rest);
    }
  }

  /** Clean fields already stripped and non-empty are left as they are. */
  lemma {:induction false} NonEmptyStripAllClean(fields: seq<string>)
    requires forall i :: 0 <= i < |fields| ==> fields[i] != "" && PyStr.IsStripped(fields[i])
    ensures NonEmpty(StripAll(fields)) == fields
  {
    if fields != [] {
      var rest := fields[1..];
      PyStr.StripStripped(fields[0]);
      assert forall i :: 0 <= i < |rest| ==> rest[i] == fields[i + 1];
      NonEmptyStripAllClean(rest);
      NonEmptyCons(StripAll(fields));
    }
  }

  /** The filter works field by field: it keeps the order and every repetition. */
  lemma {:induction false} NonEmptyAppend(a: seq<string>, b: seq<string>)
    ensures NonEmpty(a + b) == NonEmpty(a) + NonEmpty(b)
    decreases |a|
  {
    if a != [] {
      assert (a + b)[0] == a[0] && (a + b)[1..] == a[1..] + b;
      NonEmptyAppend(a[1..], b);
    } else {
      assert a + b == b;
    }
  }

  /** One field is kept exactly when it is not empty. */
  lemma NonEmptySingle(x: string)
    ensures NonEmpty([x]) == if x == "" then [] else [x]
  {
    assert [x][1..] == [];
  }

  lemma NonEmptyCons(s: seq<string>)
    requires s != [] && s[0] != ""
    ensures NonEmpty(s) == [s[0]] + NonEmpty(s[1..])
  {
  }

  /** Writing a list of clean origins joined by commas reads back that list. */
  lemma CsvRoundTrip(fields: seq<string>, default: seq<string>)
    requires forall i :: 0 <= i < |fields| ==> fields[i] != "" && PyStr.IsStripped(fields[i]) && ',' !in fields[i]
    ensures ParseCsv(Some(PyStr.Join(fields, ',')), default) == fields
  {
    if fields == [] {
      PyStr.SplitFree("", ',');
      assert PyStr.Strip("") == "";
      assert StripAll([""]) == [""];
    } else {
      PyStr.SplitJoin(fields, ',');
      NonEmptyStripAllClean(fields);
    }
  }

  /** With comma-free fields, the result keeps their order, stripped, without the empty ones. */
  lemma CsvFields(fields: seq<string>, default: seq<string>)
    requires |fields| >= 1 && forall i :: 0 <= i < |fields| ==> ',' !in fields[i]
    ensures ParseCsv(Some(PyStr.Join(fields, ',')), default) == NonEmpty(StripAll(fields))
  {
    PyStr.SplitJoin(fields, ',');
  }

  /** A set but empty variable gives the empty list, not the default. */
  lemma CsvSetEmpty(default: seq<string>)
    ensures ParseCsv(Some(""), default) == []
  {
    var e: seq<string> := [];
    CsvRoundTrip(e, default);
    assert PyStr.Join(e, ',') == "";
  }

  /** The words `_parse_bool_env` reads as true. */
  const TRUTHY: set<string> := {"1", "true", "yes", "y", "on"}

  /**
   * `_parse_bool_env(name, default)`: the default only when the variable is unset; otherwise
   * whether its value, stripped and lower-cased, is one of the truthy words.
   */
  function ParseBool(raw: Option<string>, default: bool): (b: bool)
    ensures raw.None? ==> b == default
    ensures raw.Some? ==> (b <==> PyStr.Lower(PyStr.Strip(raw.value)) in TRUTHY)
  {
    if raw.None? then default else PyStr.Lower(PyStr.Strip(raw.value)) in TRUTHY
  }

  /** Once set, the variable alone decides: the default plays no part. */
  lemma ParseBoolIgnoresDefault(raw: string)
    ensures ParseBool(Some(raw), true) == ParseBool(Some(raw), false)
  {
  }

  /** A truthy word in any letter case, with whitespace around it, reads as true. */
  lemma ParseBoolTruthyPadded(pre: string, w: string, post: string, default: bool)
    requires forall k :: 0 <= k < |pre| ==> PyStr.IsSpace(pre[k])
    requires forall k :: 0 <= k < |post| ==> PyStr.IsSpace(post[k])
    requires PyStr.Lower(w) in TRUTHY
    ensures ParseBool(Some(pre + w + post), default)
  {
    var l := PyStr.Lower(w);
    assert l[0] == PyStr.LowerChar(w[0]) && l[|l| - 1] == PyStr.LowerChar(w[|w| - 1]);
    assert !PyStr.IsSpace(l[0]) && !PyStr.IsSpace(l[|l| - 1]);
    PyStr.StripPadded(pre, w, post);
  }

  /**
   * Conversely, a set value reads as true only when it is a truthy word in some letter case
   * with nothing but whitespace around it: every other set value reads as false.
   */
  lemma ParseBoolTrueIsPaddedTruthy(raw: string, default: bool)
    requires ParseBool(Some(raw), default)
    ensures exists i, j :: (0 <= i <= j <= |raw|
      && (forall k :: 0 <= k < i ==> PyStr.IsSpace(raw[k]))
      && (forall k :: j <= k < |raw| ==> PyStr.IsSpace(raw[k]))
      && PyStr.Lower(raw[i..j]) in TRUTHY)
  {
    var i, j := PyStr.StripBounds(raw);
    assert PyStr.Lower(raw[i..j]) in TRUTHY;
  }

  /** A set value made only of whitespace, the empty one included, reads as false. */
  lemma ParseBoolBlankFalse(raw: string, default: bool)
    requires forall k :: 0 <= k < |raw| ==> PyStr.IsSpace(raw[k])
    ensures !ParseBool(Some(raw), default)
  {
    PyStr.StripBlank(raw);
    EmptyNotTruthy();
  }

  lemma EmptyNotTruthy()
    ensures PyStr.Lower("") !in TRUTHY
  {
    assert PyStr.Lower("") == "";
  }

  /**
   * `os.getenv(name) or None`: the value when it is set and non-empty,
   * `None` when it is unset or empty.
   */
  function AuthToken(raw: Option<string>): (t: Option<string>)
    ensures t.Some? ==> t == raw && t.value != ""
    ensures t.None? ==> raw.None? || raw.value == ""
  {
    if raw.None? || raw.value == "" then None else raw
  }
}
