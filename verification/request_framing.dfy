/** The request side of `soap_request`: the HTTP/1.1 POST that carries a SOAP
    envelope, and a reader for it standing in for the receiving end, so that
    the declared `content-length` can be checked against the body it
    announces. Header lines end in a bare line feed, as the source's raw
    string literal writes them. */
module RequestFraming {
  import opened Wrappers
  import opened CStrings

  const RequestLine: seq<char> := "POST / HTTP/1.1"
  const ActionPrefix: seq<char> := "soapaction: '"
  const LengthPrefix: seq<char> := "content-length: "
  const ContentTypeLine: seq<char> := "content-type: text/xml;charset='UTF-8'"
  const ConnectionLine: seq<char> := "Connection: Keep-Alive"

  /** Every line followed by a line feed. */
  function JoinLines(lines: seq<seq<char>>): (r: seq<char>)
    ensures lines == [] ==> r == []
  {
    if |lines| == 0 then [] else lines[0] + "\n" + JoinLines(lines[1..])
  }

  /** The header lines of lines 93-98 for an action and a declared length. */
  function HeaderLines(action: seq<char>, length: nat): seq<seq<char>>
  {
    [RequestLine, ActionPrefix + action + "'", LengthPrefix + Decimal(length),
     ContentTypeLine, ConnectionLine]
  }

  /** Lines 93-101: the request text sent for `action` and the envelope the
      caller formatted. Both arguments are C strings and the length is
      narrowed to `unsigned` before printing. */
  function FormatRequest(action: seq<char>, envelope: seq<char>): (r: seq<char>)
    ensures RequestLine <= r
    ensures |CString(envelope)| <= |r| && r[|r| - |CString(envelope)|..] == CString(envelope)
  {
    var body := CString(envelope);
    JoinLines(HeaderLines(CString(action), U32(|body|))) + "\n" + body
  }

  // ----------------------------------------------------------- the reader

  /** Offset of the first line feed in `s`. */
  function LineEnd(s: seq<char>): (r: Option<nat>)
    ensures r.Some? ==> r.value < |s| && s[r.value] == '\n' && '\n' !in s[..r.value]
    ensures r.None? ==> '\n' !in s
  {
    if |s| == 0 then None
    else if s[0] == '\n' then Some(0)
    else match LineEnd(s[1..])
      case None => None
      case Some(i) => assert s[..i + 1] == [s[0]] + s[1..][..i]; Some(i + 1)
  }

  /** The header lines up to the first empty line, and what follows it;
      `None` when the text ends first. */
  function ReadHead(s: seq<char>): (r: Option<(seq<seq<char>>, seq<char>)>)
    ensures r.Some? ==> |r.value.1| < |s|
    decreases |s|
  {
    match LineEnd(s)
    case None => None
    case Some(i) =>
      if i == 0 then Some(([], s[1..]))
      else match ReadHead(s[i + 1..])
        case None => None
        case Some(rest) => Some(([s[..i]] + rest.0, rest.1))
  }

  /** What follows `prefix` on the first line that starts with it. */
  function HeaderValue(lines: seq<seq<char>>, prefix: seq<char>): (r: Option<seq<char>>)
    ensures r.Some? ==> exists i :: 0 <= i < |lines| && prefix <= lines[i] && r.value == lines[i][|prefix|..]
  {
    if |lines| == 0 then None
    else if prefix <= lines[0] then Some(lines[0][|prefix|..])
    else HeaderValue(lines[1..], prefix)
  }

  /** A request as the receiving end reads it. */
  datatype Request = Request(action: seq<char>, declaredLength: nat, body: seq<char>)

  datatype RequestError = NoBlankLine | NoAction | NoLength

  /** The header block up to the first empty line, the quoted action, the
      declared length as `strtoul` reads it, and everything after the blank
      line as the body. */
  function ReadRequest(text: seq<char>): (r: Result<Request, RequestError>)
  {
    match ReadHead(text)
    case None => Failure(NoBlankLine)
    case Some((lines, body)) =>
      match HeaderValue(lines, ActionPrefix)
      case None => Failure(NoAction)
      case Some(quoted) =>
        match HeaderValue(lines, LengthPrefix)
        case None => Failure(NoLength)
        case Some(digits) =>
          var action := if |quoted| > 0 && quoted[|quoted| - 1] == '\'' then quoted[..|quoted| - 1] else quoted;
          Success(Request(action, StrToUL(digits), body))
  }

  // ------------------------------------------------------------ round trip

  lemma {:induction false} LineEndOfLine(line: seq<char>, rest: seq<char>)
    requires '\n' !in line
    ensures LineEnd(line + "\n" + rest) == Some(|line|)
  {
    if |line| > 0 {
      assert (line + "\n" + rest)[1..] == line[1..] + "\n" + rest;
      LineEndOfLine(line[1..], rest);
    }
  }

  /** Lines joined by line feeds and closed by an empty line are read back
      as they were. */
  lemma {:induction false} ReadHeadJoin(lines: seq<seq<char>>, body: seq<char>)
    requires forall i :: 0 <= i < |lines| ==> |lines[i]| > 0 && '\n' !in lines[i]
    ensures ReadHead(JoinLines(lines) + "\n" + body) == Some((lines, body))
  {
    var s := JoinLines(lines) + "\n" + body;
    if |lines| == 0 {
      LineEndOfLine([], body);
      assert s[1..] == body;
    } else {
      var rest := JoinLines(lines[1..]) + "\n" + body;
      assert s == lines[0] + "\n" + rest;
      LineEndOfLine(lines[0], rest);
      assert s[..|lines[0]|] == lines[0];
      assert s[|lines[0]| + 1..] == rest;
      ReadHeadJoin(lines[1..], body);
      assert lines == [lines[0]] + lines[1..];
    }
  }

  lemma HeaderLinesWellFormed(action: seq<char>, length: nat)
    requires '\n' !in action
    ensures forall i :: 0 <= i < 5 ==> |HeaderLines(action, length)[i]| > 0 && '\n' !in HeaderLines(action, length)[i]
  {
    var d := Decimal(length);
    assert '\n' !in d by {
      assert forall i :: 0 <= i < |d| ==> IsDigit(d[i]);
    }
    var actionLine := ActionPrefix + action + "'";
    assert forall i :: 0 <= i < |actionLine| ==> actionLine[i] != '\n' by {
      forall i | 0 <= i < |actionLine|
        ensures actionLine[i] != '\n'
      {
        if i < |ActionPrefix| {
          assert actionLine[i] == ActionPrefix[i];
        } else if i < |ActionPrefix| + |action| {
          assert actionLine[i] == action[i - |ActionPrefix|];
        }
      }
    }
  }

  /** The reader finds the action on the second line and the length on the
      third. */
  lemma HeaderValuesOf(action: seq<char>, length: nat)
    ensures HeaderValue(HeaderLines(action, length), ActionPrefix) == Some(action + "'")
    ensures HeaderValue(HeaderLines(action, length), LengthPrefix) == Some(Decimal(length))
  {
    var lines := HeaderLines(action, length);
    assert !(ActionPrefix <= lines[0]) by {
      assert lines[0][0] != ActionPrefix[0];
    }
    assert (ActionPrefix + action + "'")[|ActionPrefix|..] == action + "'";
    assert !(LengthPrefix <= lines[0]) by {
      assert |lines[0]| < |LengthPrefix|;
    }
    assert !(LengthPrefix <= lines[1]) by {
      assert lines[1][0] != LengthPrefix[0];
    }
    assert lines[1..][1..] == lines[2..];
    assert LengthPrefix <= lines[2];
    assert HeaderValue(lines[2..], LengthPrefix) == Some(lines[2][|LengthPrefix|..]);
    assert HeaderValue(lines, LengthPrefix) == HeaderValue(lines[1..], LengthPrefix) == HeaderValue(lines[2..], LengthPrefix);
    assert (LengthPrefix + Decimal(length))[|LengthPrefix|..] == Decimal(length);
  }

  /** Lines 93-101: the receiving end reads back the action, a declared
      length equal to the length of the envelope, and the envelope itself as
      the body, whenever the action is a single line and the envelope is
      shorter than 2^32 characters. */
  lemma RequestRoundTrip(action: seq<char>, envelope: seq<char>)
    requires '\n' !in action && '\0' !in action && '\0' !in envelope
    requires |envelope| < U32Modulus
    ensures ReadRequest(FormatRequest(action, envelope)) == Success(Request(action, |envelope|, envelope))
  {
    var lines := HeaderLines(action, |envelope|);
    var text := FormatRequest(action, envelope);
    assert ReadHead(text) == Some((lines, envelope)) by {
      FormatRequestLayout(action, envelope);
      HeaderLinesWellFormed(action, |envelope|);
      ReadHeadJoin(lines, envelope);
    }
    HeaderValuesOf(action, |envelope|);
    assert StrToUL(Decimal(|envelope|)) == |envelope| by {
      DecimalStrToUL(|envelope|, []);
      assert Decimal(|envelope|) + [] == Decimal(|envelope|);
    }
    ReadRequestOf(text, lines, envelope, action, Decimal(|envelope|));
  }

  /** For NUL-free arguments and a short envelope, the request is the header
      lines, a blank line and the envelope. */
  lemma FormatRequestLayout(action: seq<char>, envelope: seq<char>)
    requires '\0' !in action && '\0' !in envelope && |envelope| < U32Modulus
    ensures FormatRequest(action, envelope) == JoinLines(HeaderLines(action, |envelope|)) + "\n" + envelope
  {
  }

  /** The reader's last step: from the header lines and the body to the
      request. */
  lemma ReadRequestOf(text: seq<char>, lines: seq<seq<char>>, body: seq<char>, action: seq<char>, digits: seq<char>)
    requires ReadHead(text) == Some((lines, body))
    requires HeaderValue(lines, ActionPrefix) == Some(action + "'")
    requires HeaderValue(lines, LengthPrefix) == Some(digits)
    ensures ReadRequest(text) == Success(Request(action, StrToUL(digits), body))
  {
    var quoted := action + "'";
    assert quoted[..|quoted| - 1] == action;
  }
}
