/**
 * `MaxBodySizeMiddleware`: a fast refusal on a declared `Content-Length` (section 8.6 of
 * RFC 9110) above the ceiling, then a counting wrapper around `receive` that stops the
 * downstream app at the first body chunk taking the running total past the ceiling.
 * Both end in 413 Content Too Large.
 */
module BodySize {
  import opened Wrappers
  import opened Asgi
  import Headers
  import PyInt
  import Utf8

  /** The body bytes that the body chunks among `msgs` carry in all. */
  function TotalBytes(msgs: seq<Message>): nat
    decreases |msgs|
  {
    if msgs == [] then 0 else TotalBytes(msgs[..|msgs| - 1]) + BodyLength(msgs[|msgs| - 1])
  }

  lemma TotalBytesAppend(msgs: seq<Message>, m: Message)
    ensures TotalBytes(msgs + [m]) == TotalBytes(msgs) + BodyLength(m)
  {
    assert (msgs + [m])[..|msgs|] == msgs;
  }

  /** A longer stream never carries fewer bytes. */
  lemma {:induction false} TotalBytesPrefix(msgs: seq<Message>, n: nat)
    requires n <= |msgs|
    ensures TotalBytes(msgs[..n]) <= TotalBytes(msgs)
    decreases |msgs|
  {
    if n < |msgs| {
      var init := msgs[..|msgs| - 1];
      assert init[..n] == msgs[..n];
      TotalBytesPrefix(init, n);
    } else {
      assert msgs[..n] == msgs;
    }
  }

  /** Message `k` is a body chunk and the running total after it is above `max`. */
  predicate Overflows(max: int, msgs: seq<Message>, k: nat)
    requires k < |msgs|
  {
    IsBodyChunk(msgs[k]) && TotalBytes(msgs[..k + 1]) > max
  }

  lemma OverflowsPrefix(max: int, msgs: seq<Message>, n: nat)
    requires n <= |msgs|
    ensures forall j :: 0 <= j < n ==> Overflows(max, msgs[..n], j) == Overflows(max, msgs, j)
  {
    forall j | 0 <= j < n
      ensures Overflows(max, msgs[..n], j) == Overflows(max, msgs, j)
    {
      assert msgs[..n][..j + 1] == msgs[..j + 1];
    }
  }

  /** The position of the first message that overflows, if any does. */
  function FirstOverflow(max: int, msgs: seq<Message>): (r: Option<nat>)
    ensures r.None? <==> forall k :: 0 <= k < |msgs| ==> !Overflows(max, msgs, k)
    ensures r.Some? ==> r.value < |msgs| && Overflows(max, msgs, r.value)
    ensures r.Some? ==> forall j :: 0 <= j < r.value ==> !Overflows(max, msgs, j)
    decreases |msgs|
  {
    if msgs == [] then None
    else
      var last := |msgs| - 1;
      OverflowsPrefix(max, msgs, last);
      match FirstOverflow(max, msgs[..last])
      case Some(k) => Some(k)
      case None => if Overflows(max, msgs, last) then Some(last) else None
  }

  /**
   * `limited_receive` from message `i` on, `received` bytes having been counted already:
   * each message goes through unchanged until a body chunk takes the count past `max`;
   * that chunk is not handed over, the downstream app is stopped and the guard answers 413.
   */
  function Scan(max: int, msgs: seq<Message>, i: nat, received: int): (v: Verdict)
    requires i <= |msgs|
    ensures v.Forwarded? ==> v.delivered == msgs
    ensures v.Aborted? ==> msgs[..i] <= v.delivered < msgs && v.response == TooLarge()
    ensures !v.Refused?
    decreases |msgs| - i
  {
    if i == |msgs| then Forwarded(msgs)
    else
      var total := received + BodyLength(msgs[i]);
      if IsBodyChunk(msgs[i]) && total > max then Aborted(msgs[..i], TooLarge())
      else Scan(max, msgs, i + 1, total)
  }

  /** The streaming stage on a whole request body. */
  function Limit(max: int, msgs: seq<Message>): Verdict {
    Scan(max, msgs, 0, 0)
  }

  /**
   * The streaming stage described declaratively: everything when no body chunk ever takes
   * the running total past `max`; otherwise the messages before the first one that does.
   */
  function FirstOverflowVerdict(max: int, msgs: seq<Message>): Verdict {
    match FirstOverflow(max, msgs)
    case None => Forwarded(msgs)
    case Some(k) => Aborted(msgs[..k], TooLarge())
  }

  lemma TotalBytesNext(msgs: seq<Message>, i: nat)
    requires i < |msgs|
    ensures TotalBytes(msgs[..i + 1]) == TotalBytes(msgs[..i]) + BodyLength(msgs[i])
  {
    assert msgs[..i + 1][..i] == msgs[..i];
  }

  /** With no overflow among the first `i` messages, message `i` decides whether there is one within `i + 1`. */
  lemma NextOverflow(max: int, msgs: seq<Message>, i: nat)
    requires i < |msgs| && FirstOverflow(max, msgs[..i]) == None
    ensures Overflows(max, msgs[..i + 1], i) == Overflows(max, msgs, i)
    ensures Overflows(max, msgs, i) ==> FirstOverflow(max, msgs) == Some(i)
    ensures !Overflows(max, msgs, i) ==> FirstOverflow(max, msgs[..i + 1]) == None
  {
    OverflowsPrefix(max, msgs, i);
    OverflowsPrefix(max, msgs, i + 1);
  }

  /** One step of the counting pass, with the count so far equal to the bytes of the prefix. */
  lemma ScanStep(max: int, msgs: seq<Message>, i: nat)
    requires i < |msgs|
    ensures Scan(max, msgs, i, TotalBytes(msgs[..i])) ==
      if Overflows(max, msgs, i) then Aborted(msgs[..i], TooLarge())
      else Scan(max, msgs, i + 1, TotalBytes(msgs[..i + 1]))
  {
    TotalBytesNext(msgs, i);
  }

  lemma {:induction false} ScanFrom(max: int, msgs: seq<Message>, i: nat)
    requires i <= |msgs| && FirstOverflow(max, msgs[..i]) == None
    ensures Scan(max, msgs, i, TotalBytes(msgs[..i])) == FirstOverflowVerdict(max, msgs)
    decreases |msgs| - i
  {
    if i == |msgs| {
      assert msgs[..i] == msgs;
    } else {
      ScanStep(max, msgs, i);
      NextOverflow(max, msgs, i);
      if !Overflows(max, msgs, i) {
        ScanFrom(max, msgs, i + 1);
      }
    }
  }

  /** The counting scan rejects exactly at the first body chunk that takes the total past the ceiling. */
  lemma LimitIsFirstOverflow(max: int, msgs: seq<Message>)
    ensures Limit(max, msgs) == FirstOverflowVerdict(max, msgs)
  {
    assert msgs[..0] == [];
    ScanFrom(max, msgs, 0);
  }

  /** With a ceiling of at least zero, more bytes than the ceiling always show up as an overflow. */
  lemma {:induction false} ExcessOverflows(max: int, msgs: seq<Message>)
    requires 0 <= max < TotalBytes(msgs)
    ensures FirstOverflow(max, msgs).Some?
    decreases |msgs|
  {
    var last := |msgs| - 1;
    var init := msgs[..last];
    OverflowsPrefix(max, msgs, last);
    if TotalBytes(init) > max {
      ExcessOverflows(max, init);
    } else {
      assert msgs[..last + 1] == msgs;
      assert Overflows(max, msgs, last);
    }
  }

  /**
   * For a ceiling of at least zero, the whole stream reaches the downstream app exactly when
   * it carries at most `max` body bytes; a total equal to the ceiling is accepted.
   */
  lemma ForwardedIffWithinCeiling(max: int, msgs: seq<Message>)
    requires max >= 0
    ensures Limit(max, msgs).Forwarded? <==> TotalBytes(msgs) <= max
  {
    LimitIsFirstOverflow(max, msgs);
    if TotalBytes(msgs) > max {
      ExcessOverflows(max, msgs);
    } else {
      forall k | 0 <= k < |msgs|
        ensures !Overflows(max, msgs, k)
      {
        TotalBytesPrefix(msgs, k + 1);
      }
    }
  }

  /**
   * For a ceiling of at least zero, the downstream app is never handed more than `max` body
   * bytes; when it is stopped, the chunk withheld is a body chunk that would have crossed the ceiling.
   */
  lemma DeliveredWithinCeiling(max: int, msgs: seq<Message>)
    requires max >= 0
    ensures var v := Limit(max, msgs);
      && (v.Forwarded? || v.Aborted?)
      && TotalBytes(v.delivered) <= max
      && (v.Aborted? ==> var k := |v.delivered|;
            k < |msgs| && IsBodyChunk(msgs[k]) && TotalBytes(msgs[..k + 1]) > max)
  {
    var v := Limit(max, msgs);
    LimitIsFirstOverflow(max, msgs);
    ForwardedIffWithinCeiling(max, msgs);
    if v.Aborted? {
      var k := FirstOverflow(max, msgs).value;
      OverflowsPrefix(max, msgs, k);
      if TotalBytes(msgs[..k]) > max {
        ExcessOverflows(max, msgs[..k]);
      }
    }
  }

  /** The fast stage: a non-empty `Content-Length` that `int()` reads as a number above `max`. */
  predicate DeclaredTooLarge(max: int, contentLength: string)
    ensures DeclaredTooLarge(max, contentLength) ==> exists k :: 0 <= k < |contentLength| && PyInt.IsDigit(contentLength[k])
  {
    contentLength != "" &&
    match PyInt.Parse(contentLength)
    case Some(n) => n > max
    case None => false
  }

  /** What the guard does with a request whose downstream app pulls `msgs`. */
  function Guard(max: int, scope: Scope, msgs: seq<Message>): (v: Verdict)
    ensures v.Refused? || v.Aborted? ==> v.response == TooLarge()
    ensures v.Forwarded? ==> v.delivered == msgs
    ensures v.Aborted? ==> v.delivered < msgs
  {
    if !IsHttp(scope) then Forwarded(msgs)
    else if DeclaredTooLarge(max, Headers.HeaderValue(scope.headers, "content-length")) then Refused(TooLarge())
    else Limit(max, msgs)
  }

  /** What one call of the wrapped `receive` gives the downstream app. */
  datatype Received = Delivered(msg: Message) | BodyTooLarge

  /** The `limited_receive` closure with its `nonlocal received` counter. */
  class LimitedReceive {
    const maxBodyBytes: int
    var received: int
    /** The messages pulled so far, in order. */
    ghost var seen: seq<Message>

    /** The counter is the number of body bytes pulled so far. */
    ghost predicate Valid()
      reads this
    {
      received == TotalBytes(seen)
    }

    constructor (maxBodyBytes: int)
      ensures Valid() && this.maxBodyBytes == maxBodyBytes
      ensures seen == [] && received == 0
    {
      this.maxBodyBytes := maxBodyBytes;
      received := 0;
      seen := [];
    }

    /** Pull the next message; raise `BodyTooLargeError` once a body chunk takes the count past the ceiling. */
    method Receive(msg: Message) returns (r: Received)
      requires Valid()
      modifies this
      ensures Valid() && seen == old(seen) + [msg]
      ensures received == old(received) + BodyLength(msg)
      ensures r == if IsBodyChunk(msg) && received > maxBodyBytes then BodyTooLarge else Delivered(msg)
      ensures r.BodyTooLarge? <==> Overflows(maxBodyBytes, seen, |seen| - 1)
    {
      TotalBytesAppend(seen, msg);
      seen := seen + [msg];
      assert seen[..|seen|] == seen;
      if msg.kind == "http.request" {
        var b := msg.body.GetOr([]);
        received := received + |b|;
        if received > maxBodyBytes {
          return BodyTooLarge;
        }
      }
      return Delivered(msg);
    }
  }

  /** The downstream app pulling every message of `msgs` through `limited_receive`. */
  method Stream(max: int, msgs: seq<Message>) returns (v: Verdict)
    ensures v == Limit(max, msgs)
  {
    var receiver := new LimitedReceive(max);
    var i := 0;
    while i < |msgs|
      invariant 0 <= i <= |msgs|
      invariant receiver.Valid() && receiver.maxBodyBytes == max
      invariant receiver.seen == msgs[..i]
      invariant Limit(max, msgs) == Scan(max, msgs, i, receiver.received)
    {
      var r := receiver.Receive(msgs[i]);
      if r.BodyTooLarge? {
        return Aborted(msgs[..i], TooLarge());
      }
      assert msgs[..i] + [msgs[i]] == msgs[..i + 1];
      i := i + 1;
    }
    return Forwarded(msgs);
  }

  /** `MaxBodySizeMiddleware.__call__`, with a downstream app that pulls the messages `msgs` in order. */
  method MaxBodySize(max: int, scope: Scope, msgs: seq<Message>) returns (v: Verdict)
    ensures v == Guard(max, scope, msgs)
  {
    if scope.kind != "http" {
      return Forwarded(msgs);
    }
    var cl := Headers.GetHeader(scope.headers, "content-length");
    if cl != "" {
      match PyInt.Parse(cl)
      case Some(n) =>
        if n > max {
          return Refused(TooLarge());
        }
      case None =>
    }
    v := Stream(max, msgs);
  }

  /** The first `Content-Length` header (any case) holding the digits of `n` is read back as `n`. */
  lemma DeclaredLength(max: int, headers: seq<Header>, k: nat, n: int)
    requires Headers.FirstMatch(headers, Headers.NameKey("content-length")) == Some(k)
    requires headers[k].value == Utf8.Encode(PyInt.Render(n))
    ensures DeclaredTooLarge(max, Headers.HeaderValue(headers, "content-length")) <==> n > max
  {
    Headers.EncodedValue(headers, k, "content-length", PyInt.Render(n));
    PyInt.ParseRender(n);
  }

  /** A declared length above the ceiling is refused with 413 before the downstream app runs. */
  lemma DeclaredTooLargeRefused(max: int, scope: Scope, msgs: seq<Message>, k: nat, n: int)
    requires IsHttp(scope) && n > max
    requires Headers.FirstMatch(scope.headers, Headers.NameKey("content-length")) == Some(k)
    requires scope.headers[k].value == Utf8.Encode(PyInt.Render(n))
    ensures Guard(max, scope, msgs) == Refused(TooLarge())
  {
    DeclaredLength(max, scope.headers, k, n);
  }

  /** A declared length at or below the ceiling, negative ones included, passes to the streaming stage. */
  lemma DeclaredWithinCeilingStreams(max: int, scope: Scope, msgs: seq<Message>, k: nat, n: int)
    requires IsHttp(scope) && n <= max
    requires Headers.FirstMatch(scope.headers, Headers.NameKey("content-length")) == Some(k)
    requires scope.headers[k].value == Utf8.Encode(PyInt.Render(n))
    ensures Guard(max, scope, msgs) == Limit(max, msgs)
  {
    DeclaredLength(max, scope.headers, k, n);
  }

  /**
   * Past the fast stage the headers play no part: when the declared length is not too
   * large (an empty or non-integer one included, see `UnreadableNotTooLarge`), the guard
   * acts as if the request had no headers at all.
   */
  lemma AdmittedLengthIgnored(max: int, scope: Scope, msgs: seq<Message>)
    requires !DeclaredTooLarge(max, Headers.HeaderValue(scope.headers, "content-length"))
    ensures Guard(max, scope, msgs) == Guard(max, scope.(headers := []), msgs)
  {
    var bare := scope.(headers := []);
    assert IsHttp(bare) == IsHttp(scope);
    if IsHttp(scope) {
      NoHeaderNoLength(max);
      GuardPastLength(max, scope, msgs);
      GuardPastLength(max, bare, msgs);
    }
  }

  lemma GuardPastLength(max: int, scope: Scope, msgs: seq<Message>)
    requires IsHttp(scope) && !DeclaredTooLarge(max, Headers.HeaderValue(scope.headers, "content-length"))
    ensures Guard(max, scope, msgs) == Limit(max, msgs)
  {
  }

  /** An empty or non-integer `Content-Length` never counts as too large, whatever the ceiling. */
  lemma UnreadableNotTooLarge(max: int, contentLength: string)
    requires PyInt.Parse(contentLength) == None
    ensures !DeclaredTooLarge(max, contentLength)
  {
  }

  lemma NoHeaderNoLength(max: int)
    ensures !DeclaredTooLarge(max, Headers.HeaderValue([], "content-length"))
  {
    assert Headers.HeaderValue([], "content-length") == "";
  }

  /**
   * A declared length that understates the body does not help: when a ceiling of at least
   * zero is exceeded by the bytes actually streamed, the request still ends in 413.
   */
  lemma UnderstatedLengthRejected(max: int, scope: Scope, msgs: seq<Message>)
    requires 0 <= max < TotalBytes(msgs)
    ensures Guard(max, scope, msgs).Refused? || Guard(max, scope, msgs).Aborted? || !IsHttp(scope)
    ensures IsHttp(scope) ==> Guard(max, scope, msgs).response == TooLarge()
  {
    ForwardedIffWithinCeiling(max, msgs);
  }

  /**
   * A body within the ceiling, with no declared length above it, reaches the downstream app
   * entire: the same messages, in the same order, `more_body` markers included.
   */
  lemma WithinCeilingForwarded(max: int, scope: Scope, msgs: seq<Message>)
    requires TotalBytes(msgs) <= max
    requires !DeclaredTooLarge(max, Headers.HeaderValue(scope.headers, "content-length"))
    ensures Guard(max, scope, msgs) == Forwarded(msgs)
  {
    if IsHttp(scope) {
      ForwardedIffWithinCeiling(max, msgs);
    }
  }

  /** Ceiling 10, `Content-Length: 20`: refused at once, nothing of the body read. */
  lemma DeclaredTwentyOverTen(msgs: seq<Message>)
    ensures var name := Utf8.Ascii("Content-Length");
      Guard(10, Scope("http", Some("POST"), Some("/mcp/x"), [Header(name, Utf8.Encode("20"))]), msgs)
      == Refused(TooLarge())
  {
    var name := Utf8.Ascii("Content-Length");
    var headers := [Header(name, Utf8.Encode("20"))];
    ContentLengthMatches(Utf8.Encode("20"));
    RenderTwenty();
    DeclaredTooLargeRefused(10, Scope("http", Some("POST"), Some("/mcp/x"), headers), msgs, 0, 20);
  }

  lemma ContentLengthMatches(value: seq<Byte>)
    ensures Headers.Matches(Header(Utf8.Ascii("Content-Length"), value), Headers.NameKey("content-length"))
  {
  }

  lemma RenderTwenty()
    ensures PyInt.Render(20) == "20"
  {
  }

  /**
   * Ceiling 10, no `Content-Length`, fifteen bytes in three chunks of five: the first two
   * reach the downstream app, the third takes the count to 15 and ends the request in 413.
   */
  lemma FifteenBytesInThreeChunks(five: seq<Byte>)
    requires |five| == 5
    ensures var chunk := Message("http.request", Some(five), true);
      var last := Message("http.request", Some(five), false);
      Guard(10, Scope("http", Some("POST"), Some("/mcp/x"), []), [chunk, chunk, last])
      == Aborted([chunk, chunk], TooLarge())
  {
    var chunk := Message("http.request", Some(five), true);
    var last := Message("http.request", Some(five), false);
    var msgs := [chunk, chunk, last];
    assert Scan(10, msgs, 2, 10) == Aborted(msgs[..2], TooLarge());
    assert Scan(10, msgs, 0, 0) == Scan(10, msgs, 1, 5) == Scan(10, msgs, 2, 10);
    assert msgs[..2] == [chunk, chunk];
  }
}
