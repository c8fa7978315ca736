/** The SOAP envelope of an `ExchangeData` request (lines 194-220): a fixed
    head, one `<item>` line per channel holding the channel's value as
    `%.4f` prints it, and a fixed tail. */
module SoapEnvelope {
  import opened Wrappers
  import opened CStrings

  /** Lines 194-199: everything before the first channel value. */
  const EnvelopeHead: seq<char> :=
    "<?xml version='1.0' encoding='UTF-8'?><soap:Envelope xmlns:soap='http://schemas.xmlsoap.org/soap/envelope/' xmlns:xsd='http://www.w3.org/2001/XMLSchema' xmlns:xsi='http://www.w3.org/2001/XMLSchema-instance'>\n"
    + "<soap:Body>\n<ExchangeData>\n<pControlInputs>\n<m-selectedChannels>255</m-selectedChannels>\n<m-channelValues-0to1>\n"

  /** Lines 208-212: everything after the last channel value; the envelope
      ends without a newline. */
  const EnvelopeTail: seq<char> :=
    "</m-channelValues-0to1>\n</pControlInputs>\n</ExchangeData>\n</soap:Body>\n</soap:Envelope>"

  const ItemOpen: seq<char> := "<item>"
  const ItemClose: seq<char> := "</item>\n"

  /** One of lines 200-207, with `text` in place of `%.4f`. */
  function Item(text: seq<char>): seq<char>
  {
    ItemOpen + text + ItemClose
  }

  /** The `<item>` lines for `values`, first value first; `fmt` is the
      `%.4f` conversion. */
  function Items(fmt: real -> seq<char>, values: seq<real>): seq<char>
    decreases |values|
  {
    if |values| == 0 then [] else Item(fmt(values[0])) + Items(fmt, values[1..])
  }

  /** The envelope the request carries for the channel values `values`. */
  function Envelope(fmt: real -> seq<char>, values: seq<real>): (r: seq<char>)
    ensures EnvelopeHead <= r
    ensures |r| >= |EnvelopeHead| + |EnvelopeTail| && r[|r| - |EnvelopeTail|..] == EnvelopeTail
  {
    var r := EnvelopeHead + Items(fmt, values) + EnvelopeTail;
    assert r[..|EnvelopeHead|] == EnvelopeHead;
    assert r[|r| - |EnvelopeTail|..] == EnvelopeTail;
    r
  }

  // ------------------------------------------------------------ reading back

  /** Reads a run of `<item>…</item>` lines, each item ending at the first
      closing tag after it opens; `None` when the text is not such a run. */
  function ReadItems(s: seq<char>): (r: Option<seq<seq<char>>>)
    decreases |s|
  {
    if |s| == 0 then Some([])
    else if |s| < |ItemOpen| || s[..|ItemOpen|] != ItemOpen then None
    else
      var body := s[|ItemOpen|..];
      match Find(body, ItemClose, 0)
      case None => None
      case Some(k) =>
        match ReadItems(body[k + |ItemClose|..])
        case None => None
        case Some(rest) => Some([body[..k]] + rest)
  }

  /** Reads the channel texts of an envelope: the fixed head, a run of items
      and the fixed tail. */
  function ReadEnvelope(s: seq<char>): (r: Option<seq<seq<char>>>)
  {
    if |s| >= |EnvelopeHead| + |EnvelopeTail|
       && s[..|EnvelopeHead|] == EnvelopeHead
       && s[|s| - |EnvelopeTail|..] == EnvelopeTail
    then ReadItems(s[|EnvelopeHead|..|s| - |EnvelopeTail|])
    else None
  }

  /** A value's text holds no `<`, as `%.4f` output never does. */
  predicate Plain(text: seq<char>)
  {
    '<' !in text
  }

  /** The closing tag after a plain text is the first one. */
  lemma CloseAfterPlain(text: seq<char>, tail: seq<char>)
    requires Plain(text)
    ensures Find(text + ItemClose + tail, ItemClose, 0) == Some(|text|)
  {
    var s := text + ItemClose + tail;
    assert s[|text|..|text| + |ItemClose|] == ItemClose;
    forall j: nat | j < |text|
      ensures !OccursAt(s, ItemClose, j)
    {
      assert s[j] == text[j];
      MismatchAt(s, ItemClose, j);
    }
    FindFirst(s, ItemClose, 0, |text|);
  }

  /** Reading the item lines back gives each value's text, in order. */
  lemma {:induction false} ItemsRoundTrip(fmt: real -> seq<char>, values: seq<real>)
    requires forall i :: 0 <= i < |values| ==> Plain(fmt(values[i]))
    ensures var r := ReadItems(Items(fmt, values));
            && r.Some? && |r.value| == |values|
            && forall i :: 0 <= i < |values| ==> r.value[i] == fmt(values[i])
    decreases |values|
  {
    if |values| > 0 {
      var text := fmt(values[0]);
      var tail := Items(fmt, values[1..]);
      var s := Items(fmt, values);
      assert s == ItemOpen + (text + ItemClose + tail);
      assert s[..|ItemOpen|] == ItemOpen;
      var body := s[|ItemOpen|..];
      assert body == text + ItemClose + tail;
      assert Plain(text);
      CloseAfterPlain(text, tail);
      assert body[..|text|] == text;
      assert body[|text| + |ItemClose|..] == tail;
      assert forall i :: 0 <= i < |values[1..]| ==> Plain(fmt(values[1..][i])) by {
        forall i | 0 <= i < |values[1..]|
          ensures Plain(fmt(values[1..][i]))
        {
          assert values[1..][i] == values[i + 1];
        }
      }
      ItemsRoundTrip(fmt, values[1..]);
      var rest := ReadItems(tail).value;
      assert ReadItems(s) == Some([text] + rest);
      forall i | 0 <= i < |values|
        ensures ([text] + rest)[i] == fmt(values[i])
      {
        if i > 0 {
          assert values[1..][i - 1] == values[i];
        }
      }
    }
  }

  /** The envelope holds one `<item>` per value, in order, each with the
      value's `%.4f` text, and nothing else between head and tail. */
  lemma EnvelopeRoundTrip(fmt: real -> seq<char>, values: seq<real>)
    requires forall i :: 0 <= i < |values| ==> Plain(fmt(values[i]))
    ensures var r := ReadEnvelope(Envelope(fmt, values));
            && r.Some? && |r.value| == |values|
            && forall i :: 0 <= i < |values| ==> r.value[i] == fmt(values[i])
  {
    var s := Envelope(fmt, values);
    assert s[|EnvelopeHead|..|s| - |EnvelopeTail|] == Items(fmt, values);
    ItemsRoundTrip(fmt, values);
  }
}
