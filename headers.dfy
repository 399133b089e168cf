/**
 * `_get_header`: case-insensitive lookup in the ordered header list, first match wins
 * (field names are case-insensitive by section 5.1 of RFC 9110).
 */
module Headers {
  import opened Wrappers
  import opened Asgi
  import Utf8
  import PyStr

  /** `bytes.lower()` on one byte: only `A`-`Z` change. */
  function LowerByte(b: Byte): Byte {
    if 0x41 <= b <= 0x5A then b + 0x20 else b
  }

  function LowerBytes(s: seq<Byte>): (r: seq<Byte>)
    ensures |r| == |s|
  {
    seq(|s|, i requires 0 <= i < |s| => LowerByte(s[i]))
  }

  /** `name.lower().encode("ascii")`, the key the header names are compared with. */
  function NameKey(name: string): (key: seq<Byte>)
    requires Utf8.IsAscii(name)
    ensures Utf8.IsAscii(PyStr.Lower(name)) && key == Utf8.Ascii(PyStr.Lower(name))
  {
    seq(|name|, i requires 0 <= i < |name| => LowerByte(name[i] as int))
  }

  /** `k.lower() == name_b`. */
  predicate Matches(h: Header, key: seq<Byte>) {
    LowerBytes(h.name) == key
  }

  /** The position of the first header whose lower-cased name is `key`, if there is one. */
  function FirstMatch(headers: seq<Header>, key: seq<Byte>): (r: Option<nat>)
    ensures r.None? <==> forall j :: 0 <= j < |headers| ==> !Matches(headers[j], key)
    ensures r.Some? ==> r.value < |headers| && Matches(headers[r.value], key)
    ensures r.Some? ==> forall j :: 0 <= j < r.value ==> !Matches(headers[j], key)
    decreases |headers|
  {
    if headers == [] then None
    else if Matches(headers[0], key) then Some(0)
    else
      match FirstMatch(headers[1..], key)
      case None => None
      case Some(k) => Some(k + 1)
  }

  /**
   * The value `_get_header(scope, name)` returns: the UTF-8 decoding of the first matching
   * header's value; `""` when that value does not decode, and `""` when no header matches.
   */
  function HeaderValue(headers: seq<Header>, name: string): (value: string)
    requires Utf8.IsAscii(name)
    ensures FirstMatch(headers, NameKey(name)).None? ==> value == ""
    ensures value != "" ==> FirstMatch(headers, NameKey(name)).Some?
    ensures value != "" ==> Utf8.Decode(headers[FirstMatch(headers, NameKey(name)).value].value) == Some(value)
  {
    match FirstMatch(headers, NameKey(name))
    case None => ""
    case Some(k) => Utf8.Decode(headers[k].value).GetOr("")
  }

  /** The loop of `_get_header`, returning at the first header whose name matches. */
  method GetHeader(headers: seq<Header>, name: string) returns (value: string)
    requires Utf8.IsAscii(name)
    ensures value == HeaderValue(headers, name)
  {
    var key := NameKey(name);
    var i := 0;
    while i < |headers|
      invariant 0 <= i <= |headers|
      invariant forall j :: 0 <= j < i ==> !Matches(headers[j], key)
    {
      if LowerBytes(headers[i].name) == key {
        match Utf8.Decode(headers[i].value)
        case Some(s) =>
          return s;
        case None =>
          return "";
      }
      i := i + 1;
    }
    return "";
  }

  /**
   * Only the first matching header is consulted: whatever follows it, duplicates with the
   * same name included, does not change the value, even when the first one does not decode.
   */
  lemma FirstMatchDecides(headers: seq<Header>, k: nat, later: seq<Header>, name: string)
    requires Utf8.IsAscii(name) && k < |headers| && Matches(headers[k], NameKey(name))
    ensures HeaderValue(headers[..k + 1] + later, name) == HeaderValue(headers, name)
  {
    var key := NameKey(name);
    var h := headers[..k + 1] + later;
    var m := FirstMatch(headers, key).value;
    assert forall j :: 0 <= j <= k ==> h[j] == headers[j];
    assert FirstMatch(h, key).value == m;
  }

  /** A header whose value is the UTF-8 encoding of `s` yields `s`, the first match deciding. */
  lemma EncodedValue(headers: seq<Header>, k: nat, name: string, s: string)
    requires Utf8.IsAscii(name) && FirstMatch(headers, NameKey(name)) == Some(k)
    requires headers[k].value == Utf8.Encode(s)
    ensures HeaderValue(headers, name) == s
  {
    Utf8.DecodeEncode(s);
  }

  /** A non-empty result is the text of the first matching header, byte for byte. */
  lemma ValueIsExact(headers: seq<Header>, name: string)
    requires Utf8.IsAscii(name) && HeaderValue(headers, name) != ""
    ensures FirstMatch(headers, NameKey(name)).Some?
    ensures headers[FirstMatch(headers, NameKey(name)).value].value == Utf8.Encode(HeaderValue(headers, name))
  {
    var k := FirstMatch(headers, NameKey(name)).value;
    Utf8.EncodeDecode(headers[k].value);
  }
}
