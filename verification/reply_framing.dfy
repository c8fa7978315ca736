/** The receive side of `FlightAxis::soap_request`: one HTTP reply framed by
    its `Content-Length` header (section 3.3.2 of RFC 7230), read into a
    fixed 10000-byte buffer by a first read and as many continuation reads as
    the declared length needs.

    The socket is a script: `chunks[k]` is what the k-th `recv` call returns.
    An empty chunk, or a call past the end of the script, stands for a read
    that returns 0 or less (timeout, closed connection or error). */
module ReplyFraming {
  import opened Wrappers
  import opened CStrings

  /** `char reply[10000]`. */
  const ReplyBufferSize: nat := 10000
  /** The reads never touch the last byte, which keeps the buffer NUL-terminated. */
  const MaxStored: nat := ReplyBufferSize - 1
  const LengthHeader: seq<char> := "Content-Length: "
  const HeaderEnd: seq<char> := "\r\n\r\n"

  /** Why `soap_request` returned no reply. */
  datatype FrameError =
    | ConnectFailed
    | NoData
    | NoContentLength
    | NoBody
    | ReplyTooLarge(expected: nat)
    | ReadFailed

  /** Where the framing header and the body were found in the first read. */
  datatype Framing = Framing(headerAt: nat, contentLength: nat, bodyStart: nat)

  /** `recv(buf, max, timeout)`: the k-th chunk, cut to at most `max` bytes. */
  function Recv(chunks: seq<seq<char>>, k: nat, max: nat): (r: seq<char>)
    ensures |r| <= max
    ensures k < |chunks| ==> r <= chunks[k]
    ensures |r| == 0 <==> k >= |chunks| || |chunks[k]| == 0 || max == 0
  {
    if k >= |chunks| then []
    else if |chunks[k]| <= max then chunks[k]
    else chunks[k][..max]
  }

  /** The buffer contents after the first `n` reads, each of which is offered
      only the space that is left (lines 107 and 134). */
  function Stored(chunks: seq<seq<char>>, n: nat): (r: seq<char>)
    requires n <= |chunks|
    ensures |r| <= MaxStored
  {
    if n == 0 then []
    else
      var before := Stored(chunks, n - 1);
      before + Recv(chunks, n - 1, MaxStored - |before|)
  }

  /** Finds the length header and the body in the text of the first read. */
  function LocateFraming(text: seq<char>): (r: Result<Framing, FrameError>)
    ensures r.Success? ==>
              && FirstOccurrence(text, LengthHeader, 0, r.value.headerAt)
              && r.value.contentLength == StrToUL(text[r.value.headerAt + |LengthHeader|..])
              && r.value.bodyStart >= |HeaderEnd|
              && FirstOccurrence(text, HeaderEnd, r.value.headerAt, r.value.bodyStart - |HeaderEnd|)
    ensures r.Failure? ==> r.error == NoContentLength || r.error == NoBody
  {
    match Find(text, LengthHeader, 0)
    case None => Failure(NoContentLength)
    case Some(p) =>
      var contentLength := StrToUL(text[p + |LengthHeader|..]);
      match Find(text, HeaderEnd, p)
      case None => Failure(NoBody)
      case Some(q) => Success(Framing(p, contentLength, q + |HeaderEnd|))
  }

  /** Lines 119 and 128 as written: `strtoul`'s result is narrowed to
      `uint32_t` and the sum is taken in 32-bit unsigned arithmetic. */
  function ExpectedLengthAsWritten(f: Framing): (r: nat)
    ensures r < U32Modulus
  {
    U32(U32(f.contentLength) + f.bodyStart)
  }

  /** Lines 119 and 128 as intended: the declared body length plus the
      offset of the body, without narrowing. */
  function ExpectedLength(f: Framing): (r: nat)
    ensures r >= f.bodyStart
  {
    f.contentLength + f.bodyStart
  }

  /** Lines 129-132: an expected length that does not leave room for the
      terminating NUL in the 10000-byte buffer is refused. */
  function SizeGuard(expected: nat): (r: Result<nat, FrameError>)
    ensures r.Success? <==> expected <= MaxStored
    ensures r.Success? ==> r.value == expected
    ensures r.Failure? ==> r.error == ReplyTooLarge(expected)
  {
    if expected >= ReplyBufferSize then Failure(ReplyTooLarge(expected)) else Success(expected)
  }

  /** The size guard of lines 128-132 over the 32-bit expected length. */
  function FrameHeaderAsWritten(text: seq<char>): (r: Result<nat, FrameError>)
    ensures r.Success? ==>
              && LocateFraming(text).Success?
              && r.value == ExpectedLengthAsWritten(LocateFraming(text).value)
              && r.value < ReplyBufferSize
    ensures r.Failure? && r.error.ReplyTooLarge? ==>
              && LocateFraming(text).Success?
              && r.error.expected == ExpectedLengthAsWritten(LocateFraming(text).value)
              && r.error.expected >= ReplyBufferSize
    ensures r.Failure? && !r.error.ReplyTooLarge? ==> LocateFraming(text) == Failure(r.error)
  {
    match LocateFraming(text)
    case Failure(e) => Failure(e)
    case Success(f) =>
      SizeGuard(ExpectedLengthAsWritten(f))
  }

  /** The expected total length of the reply: the declared body length plus
      the offset of the body, rejected when it would not fit the buffer.
      Computed without narrowing or wrap-around. */
  function FrameHeader(text: seq<char>): (r: Result<nat, FrameError>)
    ensures r.Success? ==>
              && LocateFraming(text).Success?
              && r.value == LocateFraming(text).value.contentLength + LocateFraming(text).value.bodyStart
              && r.value <= MaxStored
    ensures r.Failure? && r.error.ReplyTooLarge? ==>
              && LocateFraming(text).Success?
              && r.error.expected == LocateFraming(text).value.contentLength + LocateFraming(text).value.bodyStart
              && r.error.expected >= ReplyBufferSize
    ensures r.Failure? && !r.error.ReplyTooLarge? ==> LocateFraming(text) == Failure(r.error)
  {
    match LocateFraming(text)
    case Failure(e) => Failure(e)
    case Success(f) =>
      SizeGuard(ExpectedLength(f))
  }

  /** Reads `n` .. `m - 1` all delivered data while fewer than `expected`
      bytes were stored, and after read `m - 1` at least `expected` are. */
  ghost predicate Completes(chunks: seq<seq<char>>, n: nat, m: nat, expected: nat)
  {
    && n <= m <= |chunks|
    && |Stored(chunks, m)| >= expected
    && forall j :: n <= j < m ==> Continues(chunks, j, expected)
  }

  /** After `j` reads the reply is still short, and read `j` delivers data. */
  ghost predicate Continues(chunks: seq<seq<char>>, j: nat, expected: nat)
    requires j <= |chunks|
  {
    |Stored(chunks, j)| < expected && |Recv(chunks, j, MaxStored - |Stored(chunks, j)|)| > 0
  }

  lemma CompletesUnique(chunks: seq<seq<char>>, n: nat, m1: nat, m2: nat, expected: nat)
    requires Completes(chunks, n, m1, expected) && Completes(chunks, n, m2, expected)
    ensures m1 == m2
  {
    assert m1 < m2 ==> Continues(chunks, m1, expected);
    assert m2 < m1 ==> Continues(chunks, m2, expected);
  }

  /** A failed read while the reply is short ends the loop for good. */
  lemma StallsHere(chunks: seq<seq<char>>, n: nat, expected: nat)
    requires n <= |chunks|
    requires |Stored(chunks, n)| < expected
    requires |Recv(chunks, n, MaxStored - |Stored(chunks, n)|)| == 0
    ensures forall m :: !Completes(chunks, n, m, expected)
  {
    forall m
      ensures !Completes(chunks, n, m, expected)
    {
      assert Completes(chunks, n, m, expected) && n < m ==> Continues(chunks, n, expected);
    }
  }

  /** The loop of lines 133-139, from `n` reads on: the number of reads after
      which the reply is complete, or `ReadFailed` at the first failed read. */
  function Gather(chunks: seq<seq<char>>, n: nat, expected: nat): (r: Result<nat, FrameError>)
    requires 1 <= n <= |chunks|
    ensures r.Success? ==> Completes(chunks, n, r.value, expected)
    ensures r.Failure? ==> r.error == ReadFailed && forall m :: !Completes(chunks, n, m, expected)
    decreases |chunks| - n
  {
    var stored := Stored(chunks, n);
    if |stored| >= expected then assert Completes(chunks, n, n, expected); Success(n)
    else if |Recv(chunks, n, MaxStored - |stored|)| == 0 then
      StallsHere(chunks, n, expected);
      Failure(ReadFailed)
    else
      CompletesStep(chunks, n, expected);
      Gather(chunks, n + 1, expected)
  }

  /** A read that delivers data while the reply is short hands the loop on
      to the next read unchanged. */
  lemma CompletesStep(chunks: seq<seq<char>>, n: nat, expected: nat)
    requires 1 <= n < |chunks|
    requires |Stored(chunks, n)| < expected
    requires |Recv(chunks, n, MaxStored - |Stored(chunks, n)|)| > 0
    ensures forall m :: Completes(chunks, n, m, expected) <==> Completes(chunks, n + 1, m, expected)
  {
  }

  /** What `soap_request` hands its caller: the received text up to its first
      NUL (`strdup(reply)`), or the reason there is none. */
  function Receive(connected: bool, chunks: seq<seq<char>>): (r: Result<seq<char>, FrameError>)
    ensures r.Success? ==> '\0' !in r.value && |r.value| <= MaxStored
  {
    if !connected then Failure(ConnectFailed)
    else if |Recv(chunks, 0, MaxStored)| == 0 then Failure(NoData)
    else
      AfterHeader(chunks, FrameHeader(CString(Stored(chunks, 1))))
  }

  /** Lines 126-140, once the size guard has spoken: its refusal is passed
      on, or the loop reads until the expected length is stored and the
      buffer's text is handed over. */
  function AfterHeader(chunks: seq<seq<char>>, header: Result<nat, FrameError>): (r: Result<seq<char>, FrameError>)
    requires |chunks| >= 1
    ensures header.Failure? ==> r == Failure(header.error)
    ensures r.Success? ==> '\0' !in r.value && |r.value| <= MaxStored
    ensures header.Success? && r.Success? ==>
              exists m :: Completes(chunks, 1, m, header.value) && r.value == CString(Stored(chunks, m))
    ensures header.Success? && r.Failure? ==>
              r.error == ReadFailed && forall m :: !Completes(chunks, 1, m, header.value)
  {
    match header
    case Failure(e) => Failure(e)
    case Success(expected) =>
      match Gather(chunks, 1, expected)
      case Failure(e) => Failure(e)
      case Success(m) => Success(CString(Stored(chunks, m)))
  }

  /** `Receive` with the size guard as written (lines 128-132): the same
      steps, but the expected length is the 32-bit one. */
  function ReceiveAsWritten(connected: bool, chunks: seq<seq<char>>): (r: Result<seq<char>, FrameError>)
    ensures r.Success? ==> '\0' !in r.value && |r.value| <= MaxStored
  {
    if !connected then Failure(ConnectFailed)
    else if |Recv(chunks, 0, MaxStored)| == 0 then Failure(NoData)
    else
      AfterHeader(chunks, FrameHeaderAsWritten(CString(Stored(chunks, 1))))
  }

  /** The receive side of `soap_request`: a first read, the header checks,
      then the continuation loop. */
  method ReceiveReply(connected: bool, chunks: seq<seq<char>>) returns (r: Result<seq<char>, FrameError>)
    ensures r == Receive(connected, chunks)
  {
    if !connected {
      return Failure(ConnectFailed);
    }
    var buffer := Recv(chunks, 0, MaxStored);
    if |buffer| == 0 {
      return Failure(NoData);
    }
    assert buffer == Stored(chunks, 1);
    var header := FrameHeader(CString(buffer));
    if header.Failure? {
      return Failure(header.error);
    }
    var rest := ReadRest(chunks, buffer, header.value);
    if rest.Failure? {
      return Failure(rest.error);
    }
    return Success(CString(rest.value));
  }

  /** The continuation loop of lines 133-139: one read per iteration, each
      appended to the buffer, until `expected` bytes are stored. */
  method ReadRest(chunks: seq<seq<char>>, first: seq<char>, expected: nat) returns (r: Result<seq<char>, FrameError>)
    requires |chunks| >= 1 && first == Stored(chunks, 1)
    ensures r.Success? <==> Gather(chunks, 1, expected).Success?
    ensures r.Success? ==> r.value == Stored(chunks, Gather(chunks, 1, expected).value)
    ensures r.Failure? ==> r.error == ReadFailed
  {
    var buffer := first;
    var n := 1;
    while |buffer| < expected
      invariant 1 <= n <= |chunks|
      invariant buffer == Stored(chunks, n)
      invariant Gather(chunks, n, expected) == Gather(chunks, 1, expected)
      decreases |chunks| - n
    {
      var chunk := Recv(chunks, n, MaxStored - |buffer|);
      if |chunk| == 0 {
        assert Gather(chunks, n, expected) == Failure(ReadFailed);
        return Failure(ReadFailed);
      }
      assert Gather(chunks, n, expected) == Gather(chunks, n + 1, expected);
      buffer := buffer + chunk;
      n := n + 1;
    }
    return Success(buffer);
  }

  // ------------------------------------------------------------ properties

  /** The text the header search looks at: the first read up to its first NUL. */
  function FirstText(chunks: seq<seq<char>>): seq<char>
  {
    CString(Recv(chunks, 0, MaxStored))
  }

  /** The three early exits: nothing in the first read, no length header,
      no blank line at or after the length header. */
  lemma EarlyFailures(chunks: seq<seq<char>>)
    ensures Receive(true, chunks) == Failure(NoData) <==> |chunks| == 0 || |chunks[0]| == 0
    ensures Receive(true, chunks) == Failure(NoContentLength) <==>
              |chunks| > 0 && |chunks[0]| > 0 && NoOccurrence(FirstText(chunks), LengthHeader, 0)
    ensures Receive(true, chunks) == Failure(NoBody) <==>
              && |chunks| > 0 && |chunks[0]| > 0
              && exists p: nat :: FirstOccurrence(FirstText(chunks), LengthHeader, 0, p)
                                  && NoOccurrence(FirstText(chunks), HeaderEnd, p)
  {
    if |chunks| > 0 && |chunks[0]| > 0 {
      assert Stored(chunks, 1) == Recv(chunks, 0, MaxStored);
    }
  }

  /** An oversize declared length is rejected from the first read alone:
      whatever the later chunks would have delivered, the outcome is the same. */
  lemma TooLargeBeforeFurtherReads(chunks: seq<seq<char>>, later: seq<seq<char>>)
    requires |chunks| > 0 && |chunks[0]| > 0
    requires LocateFraming(FirstText(chunks)).Success?
    requires LocateFraming(FirstText(chunks)).value.contentLength
             + LocateFraming(FirstText(chunks)).value.bodyStart >= ReplyBufferSize
    ensures Receive(true, chunks) == Receive(true, chunks[..1] + later)
    ensures Receive(true, chunks).Failure? && Receive(true, chunks).error.ReplyTooLarge?
  {
    var other := chunks[..1] + later;
    assert other[0] == chunks[0];
    assert Stored(chunks, 1) == Recv(chunks, 0, MaxStored);
    assert Stored(other, 1) == Recv(other, 0, MaxStored);
  }

  /** A reply is handed over only once every read it took delivered data and
      at least the expected number of bytes is stored. */
  lemma NoPartialReply(chunks: seq<seq<char>>)
    requires Receive(true, chunks).Success?
    ensures |chunks| > 0 && |chunks[0]| > 0
    ensures FrameHeader(FirstText(chunks)).Success?
    ensures exists m :: Completes(chunks, 1, m, FrameHeader(FirstText(chunks)).value)
                        && Receive(true, chunks).value == CString(Stored(chunks, m))
  {
    assert Stored(chunks, 1) == Recv(chunks, 0, MaxStored);
    var m := Gather(chunks, 1, FrameHeader(FirstText(chunks)).value).value;
    assert Completes(chunks, 1, m, FrameHeader(FirstText(chunks)).value);
  }

  /** The same holds for `soap_request` as written, against the 32-bit
      expected length. */
  lemma NoPartialReplyAsWritten(chunks: seq<seq<char>>)
    requires ReceiveAsWritten(true, chunks).Success?
    ensures |chunks| > 0 && |chunks[0]| > 0
    ensures FrameHeaderAsWritten(FirstText(chunks)).Success?
    ensures exists m :: Completes(chunks, 1, m, FrameHeaderAsWritten(FirstText(chunks)).value)
                        && ReceiveAsWritten(true, chunks).value == CString(Stored(chunks, m))
  {
    assert Stored(chunks, 1) == Recv(chunks, 0, MaxStored);
  }

  /** All chunks laid end to end. */
  function Flatten(chunks: seq<seq<char>>): (r: seq<char>)
  {
    if |chunks| == 0 then [] else Flatten(chunks[..|chunks| - 1]) + chunks[|chunks| - 1]
  }

  lemma {:induction false} FlattenPrefixShorter(chunks: seq<seq<char>>, n: nat)
    requires n <= |chunks|
    ensures |Flatten(chunks[..n])| <= |Flatten(chunks)|
    decreases |chunks| - n
  {
    if n < |chunks| {
      FlattenPrefixShorter(chunks, n + 1);
      assert chunks[..n + 1][..n] == chunks[..n];
    } else {
      assert chunks[..n] == chunks;
    }
  }

  /** While everything fits, the buffer is the chunks laid end to end. */
  lemma {:induction false} StoredIsFlatten(chunks: seq<seq<char>>, n: nat)
    requires n <= |chunks|
    requires |Flatten(chunks)| <= MaxStored
    ensures Stored(chunks, n) == Flatten(chunks[..n])
  {
    if n > 0 {
      StoredIsFlatten(chunks, n - 1);
      assert chunks[..n][..n - 1] == chunks[..n - 1];
      FlattenPrefixShorter(chunks, n);
    }
  }

  /** A reply sent as any number of non-empty fragments, whose header declares
      exactly the length of the whole, is received as exactly those bytes. */
  lemma FragmentedReplyAssembled(chunks: seq<seq<char>>)
    requires |chunks| > 0
    requires forall k :: 0 <= k < |chunks| ==> |chunks[k]| > 0 && '\0' !in chunks[k]
    requires FrameHeader(chunks[0]) == Success(|Flatten(chunks)|)
    ensures Receive(true, chunks) == Success(Flatten(chunks))
  {
    var total := |Flatten(chunks)|;
    FirstChunkStored(chunks);
    GatherAll(chunks);
    AllStored(chunks);
    ReceiveSucceeds(chunks, total, |chunks|);
  }

  lemma FirstChunkStored(chunks: seq<seq<char>>)
    requires |chunks| > 0 && '\0' !in chunks[0]
    requires |Flatten(chunks)| <= MaxStored
    ensures Recv(chunks, 0, MaxStored) == chunks[0]
    ensures CString(Stored(chunks, 1)) == chunks[0]
  {
    StoredIsFlatten(chunks, 1);
    assert chunks[..1] == [chunks[0]];
    assert [chunks[0]][..0] == [];
  }

  lemma GatherAll(chunks: seq<seq<char>>)
    requires |chunks| > 0
    requires forall k :: 0 <= k < |chunks| ==> |chunks[k]| > 0
    requires |Flatten(chunks)| <= MaxStored
    ensures Gather(chunks, 1, |Flatten(chunks)|) == Success(|chunks|)
  {
    FlattenCompletes(chunks);
    CompletesUnique(chunks, 1, Gather(chunks, 1, |Flatten(chunks)|).value, |chunks|, |Flatten(chunks)|);
  }

  lemma AllStored(chunks: seq<seq<char>>)
    requires forall k :: 0 <= k < |chunks| ==> '\0' !in chunks[k]
    requires |Flatten(chunks)| <= MaxStored
    ensures CString(Stored(chunks, |chunks|)) == Flatten(chunks)
  {
    StoredIsFlatten(chunks, |chunks|);
    assert chunks[..|chunks|] == chunks;
    NoNulInFlatten(chunks);
  }

  /** `Receive` put together from its stages. */
  lemma ReceiveSucceeds(chunks: seq<seq<char>>, expected: nat, m: nat)
    requires |Recv(chunks, 0, MaxStored)| > 0
    requires FrameHeader(CString(Stored(chunks, 1))) == Success(expected)
    requires Gather(chunks, 1, expected) == Success(m)
    ensures Receive(true, chunks) == Success(CString(Stored(chunks, m)))
  {
  }

  /** Non-empty fragments that add up to the expected length complete the
      reply exactly at the last fragment. */
  lemma FlattenCompletes(chunks: seq<seq<char>>)
    requires |chunks| > 0
    requires forall k :: 0 <= k < |chunks| ==> |chunks[k]| > 0
    requires |Flatten(chunks)| <= MaxStored
    ensures Completes(chunks, 1, |chunks|, |Flatten(chunks)|)
  {
    var total := |Flatten(chunks)|;
    assert |Stored(chunks, |chunks|)| == total by {
      StoredIsFlatten(chunks, |chunks|);
      assert chunks[..|chunks|] == chunks;
    }
    FlattenGrows(chunks);
    forall j | 1 <= j < |chunks|
      ensures Continues(chunks, j, total)
    {
      StoredIsFlatten(chunks, j);
    }
  }

  lemma {:induction false} FlattenGrows(chunks: seq<seq<char>>)
    requires forall k :: 0 <= k < |chunks| ==> |chunks[k]| > 0
    ensures forall j :: 0 <= j < |chunks| ==> |Flatten(chunks[..j])| < |Flatten(chunks)|
    decreases |chunks|
  {
    if |chunks| > 0 {
      var init := chunks[..|chunks| - 1];
      FlattenGrows(init);
      forall j | 0 <= j < |chunks|
        ensures |Flatten(chunks[..j])| < |Flatten(chunks)|
      {
        if j < |chunks| - 1 {
          assert init[..j] == chunks[..j];
        } else {
          assert chunks[..j] == init;
        }
      }
    }
  }

  lemma {:induction false} NoNulInFlatten(chunks: seq<seq<char>>)
    requires forall k :: 0 <= k < |chunks| ==> '\0' !in chunks[k]
    ensures '\0' !in Flatten(chunks)
    decreases |chunks|
  {
    if |chunks| > 0 {
      NoNulInFlatten(chunks[..|chunks| - 1]);
    }
  }

  // ---------------------------------------------------- 32-bit wrap-around

  /** The header block `Content-Length: <n>` followed by the blank line. */
  function BareHeader(n: nat): seq<char>
  {
    LengthHeader + Decimal(n) + HeaderEnd
  }

  lemma NoHeaderEndInDigits(d: seq<char>)
    requires AllDigits(d)
    ensures forall j: nat :: j < |LengthHeader| + |d| ==> !OccursAt(LengthHeader + d + HeaderEnd, HeaderEnd, j)
  {
    var text := LengthHeader + d + HeaderEnd;
    assert forall j :: 0 <= j < |LengthHeader| ==> LengthHeader[j] != '\r';
    forall j: nat | j < |LengthHeader| + |d|
      ensures !OccursAt(text, HeaderEnd, j)
    {
      if j < |LengthHeader| {
        assert text[j] == LengthHeader[j];
      } else {
        assert text[j] == d[j - |LengthHeader|];
      }
      MismatchAt(text, HeaderEnd, j);
    }
  }

  /** A bare header declaring `n` is framed with the body starting right
      after it. */
  lemma BareHeaderFraming(n: nat)
    ensures LocateFraming(BareHeader(n))
            == Success(Framing(0, StrToUL(Decimal(n) + HeaderEnd), |BareHeader(n)|))
  {
    DigitsHeaderFraming(Decimal(n));
  }

  /** The same for any digit string in place of the printed number. */
  lemma DigitsHeaderFraming(d: seq<char>)
    requires AllDigits(d)
    ensures LocateFraming(LengthHeader + d + HeaderEnd)
            == Success(Framing(0, StrToUL(d + HeaderEnd), |LengthHeader + d + HeaderEnd|))
  {
    var tail := d + HeaderEnd;
    var text := LengthHeader + tail;
    assert LengthHeader + d + HeaderEnd == text;
    Split(LengthHeader, tail);
    LengthHeaderFirst(text);
    HeaderEndAfterDigits(d);
    LocateFramingOf(text, 0, |LengthHeader| + |d|);
  }

  lemma Split(a: seq<char>, b: seq<char>)
    ensures a <= a + b && (a + b)[|a|..] == b
  {
  }

  lemma LengthHeaderFirst(text: seq<char>)
    requires LengthHeader <= text
    ensures Find(text, LengthHeader, 0) == Some(0)
  {
    assert OccursAt(text, LengthHeader, 0);
    FindFirst(text, LengthHeader, 0, 0);
  }

  lemma EndsWith(s: seq<char>, pat: seq<char>)
    ensures OccursAt(s + pat, pat, |s|)
  {
    assert (s + pat)[|s|..|s| + |pat|] == pat;
  }

  lemma HeaderEndAfterDigits(d: seq<char>)
    requires AllDigits(d)
    ensures Find(LengthHeader + d + HeaderEnd, HeaderEnd, 0) == Some(|LengthHeader| + |d|)
  {
    var text := LengthHeader + d + HeaderEnd;
    var at := |LengthHeader| + |d|;
    EndsWith(LengthHeader + d, HeaderEnd);
    NoHeaderEndInDigits(d);
    assert FirstOccurrence(text, HeaderEnd, 0, at);
    FindFirst(text, HeaderEnd, 0, at);
  }

  /** The framing is read off the two searches. */
  lemma LocateFramingOf(text: seq<char>, p: nat, q: nat)
    requires Find(text, LengthHeader, 0) == Some(p) && Find(text, HeaderEnd, p) == Some(q)
    ensures LocateFraming(text).Success?
    ensures LocateFraming(text).value.headerAt == p && LocateFraming(text).value.bodyStart == q + |HeaderEnd|
  {
  }

  /** A 32-bit sum that overflows wraps to less than the summand that
      pushed it over. */
  lemma WrapBelow(n: nat, size: nat)
    requires size < U32Modulus && U32Modulus - size <= n < U32Modulus
    ensures ExpectedLengthAsWritten(Framing(0, n, size)) < size
  {
    assert U32(n) == n;
    var x := n + size;
    assert U32Modulus <= x < 2 * U32Modulus;
    assert U32(x) == x - U32Modulus;
  }

  /** Any header framed at offset 0 whose declared length lies within the
      header's own size below 2^32 passes the guard as written and is
      refused by the corrected guard. */
  lemma WrappedFramingAccepted(text: seq<char>, n: nat)
    requires LocateFraming(text) == Success(Framing(0, n, |text|))
    requires |text| < ReplyBufferSize && U32Modulus - |text| <= n < U32Modulus
    ensures FrameHeaderAsWritten(text).Success? && FrameHeaderAsWritten(text).value < |text|
    ensures FrameHeader(text).Failure? && FrameHeader(text).error.ReplyTooLarge?
  {
    WrapBelow(n, |text|);
  }

  /** A reply whose declared body length lies within the header's own size
      below 2^32 (4294967295 among them) passes the size guard as written:
      the 32-bit sum wraps to fewer bytes than the header itself, which the
      first read already holds. Without wrap-around it is rejected. */
  lemma WrappedLengthAccepted(n: nat)
    requires U32Modulus - |BareHeader(n)| <= n < U32Modulus
    ensures FrameHeaderAsWritten(BareHeader(n)).Success?
    ensures FrameHeaderAsWritten(BareHeader(n)).value < |BareHeader(n)|
    ensures FrameHeader(BareHeader(n)).Failure? && FrameHeader(BareHeader(n)).error.ReplyTooLarge?
  {
    var text := BareHeader(n);
    assert LocateFraming(text) == Success(Framing(0, n, |text|)) by {
      BareHeaderFraming(n);
      DecimalStrToUL(n, HeaderEnd);
    }
    assert |text| < ReplyBufferSize by {
      assert U32Modulus < Pow10(10);
      DecimalLength(n, 10);
    }
    WrappedFramingAccepted(text, n);
  }

  /** The two guards agree whenever the declared length and the expected
      length both fit in 32 bits: only wrap-around tells them apart. */
  lemma GuardsAgree(text: seq<char>, f: Framing)
    requires LocateFraming(text) == Success(f)
    requires ExpectedLength(f) < U32Modulus
    ensures FrameHeaderAsWritten(text) == FrameHeader(text)
  {
    GuardOf(text);
    NoWrap(f);
  }

  /** Both guards apply `SizeGuard` to the framing found. */
  lemma GuardOf(text: seq<char>)
    requires LocateFraming(text).Success?
    ensures FrameHeader(text) == SizeGuard(ExpectedLength(LocateFraming(text).value))
    ensures FrameHeaderAsWritten(text) == SizeGuard(ExpectedLengthAsWritten(LocateFraming(text).value))
  {
  }

  /** Narrowing changes nothing while the expected length fits in 32 bits. */
  lemma NoWrap(f: Framing)
    requires ExpectedLength(f) < U32Modulus
    ensures ExpectedLengthAsWritten(f) == ExpectedLength(f)
  {
  }

  /** Whatever the header declares, the 32-bit expected length differs from
      the exact one by a multiple of 2^32. */
  lemma WrapCongruent(f: Framing)
    ensures (ExpectedLength(f) - ExpectedLengthAsWritten(f)) % U32Modulus == 0
  {
    var narrowed := U32(f.contentLength);
    var sum := narrowed + f.bodyStart;
    assert ExpectedLength(f) - ExpectedLengthAsWritten(f) == (f.contentLength - narrowed) + (sum - U32(sum));
    MultipleSum(f.contentLength - narrowed, sum - U32(sum));
  }

  lemma MultipleSum(x: int, y: int)
    requires x % U32Modulus == 0 && y % U32Modulus == 0
    ensures (x + y) % U32Modulus == 0
  {
    assert x == U32Modulus * (x / U32Modulus);
    assert y == U32Modulus * (y / U32Modulus);
    assert x + y == U32Modulus * (x / U32Modulus + y / U32Modulus);
  }

  /** So `soap_request` as written and the corrected receive hand over the
      same reply, or fail the same way, in every case but one: a first read
      whose header is framed with an expected length of 2^32 or more. */
  lemma ReceiveAgrees(connected: bool, chunks: seq<seq<char>>)
    requires !(&& connected && |chunks| > 0 && |chunks[0]| > 0
               && LocateFraming(FirstText(chunks)).Success?
               && ExpectedLength(LocateFraming(FirstText(chunks)).value) >= U32Modulus)
    ensures ReceiveAsWritten(connected, chunks) == Receive(connected, chunks)
  {
    if connected && |Recv(chunks, 0, MaxStored)| > 0 {
      var text := FirstText(chunks);
      assert Stored(chunks, 1) == Recv(chunks, 0, MaxStored) by {
        assert Stored(chunks, 0) == [];
      }
      assert CString(Stored(chunks, 1)) == text;
      assert Receive(connected, chunks) == AfterHeader(chunks, FrameHeader(text));
      assert ReceiveAsWritten(connected, chunks) == AfterHeader(chunks, FrameHeaderAsWritten(text));
      if LocateFraming(text).Success? {
        GuardsAgree(text, LocateFraming(text).value);
      } else {
        FramingFailureAgrees(text);
      }
    }
  }

  /** Without a framing, both guards pass its failure on. */
  lemma FramingFailureAgrees(text: seq<char>)
    requires LocateFraming(text).Failure?
    ensures FrameHeaderAsWritten(text) == FrameHeader(text) == Failure(LocateFraming(text).error)
  {
  }

  lemma NoNulInBareHeader(n: nat)
    ensures '\0' !in BareHeader(n)
  {
    var d := Decimal(n);
    var text := BareHeader(n);
    forall i | 0 <= i < |text|
      ensures text[i] != '\0'
    {
      if i < |LengthHeader| {
        assert text[i] == LengthHeader[i];
      } else if i < |LengthHeader| + |d| {
        assert text[i] == d[i - |LengthHeader|];
        assert IsDigit(d[i - |LengthHeader|]);
      } else {
        assert text[i] == HeaderEnd[i - |LengthHeader| - |d|];
      }
    }
  }

  /** The end-to-end effect of the wrap: as written, `soap_request` hands
      the 30 bytes `Content-Length: 4294967295\r\n\r\n` (and every bare
      header declaring a length just below 2^32) to its caller as a complete
      reply after a single read; the corrected receive refuses it as too
      large. */
  lemma WrappedReplyReturned(n: nat)
    requires U32Modulus - |BareHeader(n)| <= n < U32Modulus
    ensures ReceiveAsWritten(true, [BareHeader(n)]) == Success(BareHeader(n))
    ensures Receive(true, [BareHeader(n)]).Failure? && Receive(true, [BareHeader(n)]).error.ReplyTooLarge?
  {
    var text := BareHeader(n);
    var chunks := [text];
    WrappedLengthAccepted(n);
    assert |text| <= MaxStored by {
      assert U32Modulus < Pow10(10);
      DecimalLength(n, 10);
    }
    NoNulInBareHeader(n);
    assert Recv(chunks, 0, MaxStored) == text;
    assert Stored(chunks, 1) == text by {
      assert Stored(chunks, 0) == [];
    }
    assert CString(text) == text;
    var expected := FrameHeaderAsWritten(text).value;
    assert Gather(chunks, 1, expected) == Success(1);
  }
}
