/** One `exchange_data` round after the controller handshake: the servo
    outputs are mixed, sent as an `ExchangeData` request, and the values of
    the reply, when one arrives, replace the simulator's copy of the
    FlightAxis state. */
module Exchange {
  import opened Wrappers
  import opened CStrings
  import opened Mixer
  import opened RequestFraming
  import opened ReplyFraming
  import opened ReplyParser
  import opened SoapEnvelope

  const ExchangeAction: seq<char> := "ExchangeData"

  /** What one round sends, and the state it leaves behind. */
  datatype Round = Round(sent: Option<seq<char>>, state: seq<real>)

  /** Lines 167-225. `fmt` is the `%.4f` conversion that prints each of the
      eight channel values into the envelope of lines 194-220, `atof` reads
      a value of the reply, and `chunks` are what the socket delivers. The
      state holds one value per key; it is replaced only when the reply
      arrives and every key is read, and kept as it was otherwise. */
  function ExchangeData(variant: Variant, servos: seq<int>, fmt: real -> seq<char>,
                        connected: bool, chunks: seq<seq<char>>,
                        keys: seq<seq<char>>, atof: seq<char> -> real, state: seq<real>): (r: Round)
    requires |servos| == Channels
    requires |state| == |keys|
    ensures |r.state| == |keys|
    ensures r.sent.Some? <==> connected
    ensures r.sent.Some? ==> r.sent.value == FormatRequest(ExchangeAction, Envelope(fmt, Mix(variant, servos)))
    ensures Receive(connected, chunks).Failure? ==> r.state == state
  {
    var request := FormatRequest(ExchangeAction, Envelope(fmt, Mix(variant, servos)));
    var sent := if connected then Some(request) else None;
    match Receive(connected, chunks)
    case Failure(_) => Round(sent, state)
    case Success(reply) =>
      match ParseReply(reply, keys, atof)
      case Failure(_) => Round(sent, state)
      case Success(x) => Round(sent, x.values)
  }

  /** The state after a round is either the old state, untouched, or the
      values read for every key of a reply that arrived: never a mixture. */
  lemma StateAllOrNothing(variant: Variant, servos: seq<int>, fmt: real -> seq<char>,
                          connected: bool, chunks: seq<seq<char>>,
                          keys: seq<seq<char>>, atof: seq<char> -> real, state: seq<real>)
    requires |servos| == Channels && |state| == |keys|
    ensures var r := ExchangeData(variant, servos, fmt, connected, chunks, keys, atof, state);
            || r.state == state
            || (&& Receive(connected, chunks).Success?
                && ParseReply(Receive(connected, chunks).value, keys, atof).Success?
                && r.state == ParseReply(Receive(connected, chunks).value, keys, atof).value.values)
  {
  }

  /** Every value of the new state is read at its key's cursor in the reply. */
  lemma StateFromReply(variant: Variant, servos: seq<int>, fmt: real -> seq<char>,
                       connected: bool, chunks: seq<seq<char>>,
                       keys: seq<seq<char>>, atof: seq<char> -> real, state: seq<real>, k: nat)
    requires |servos| == Channels && |state| == |keys| && k < |keys|
    requires Receive(connected, chunks).Success?
    requires ParseReply(Receive(connected, chunks).value, keys, atof).Success?
    ensures var reply := Receive(connected, chunks).value;
            var c := ParseReply(reply, keys, atof).value.cursors[k];
            && c <= |reply|
            && ExchangeData(variant, servos, fmt, connected, chunks, keys, atof, state).state[k] == atof(reply[c..])
  {
    assert CString(Receive(connected, chunks).value) == Receive(connected, chunks).value;
  }

  /** The request a round sends declares the length of the envelope it
      carries, and carries it unchanged. */
  lemma SentRequestDeclaresEnvelope(variant: Variant, servos: seq<int>, fmt: real -> seq<char>,
                                    chunks: seq<seq<char>>,
                                    keys: seq<seq<char>>, atof: seq<char> -> real, state: seq<real>)
    requires |servos| == Channels && |state| == |keys|
    requires var envelope := Envelope(fmt, Mix(variant, servos)); '\0' !in envelope && |envelope| < U32Modulus
    ensures var r := ExchangeData(variant, servos, fmt, true, chunks, keys, atof, state);
            var envelope := Envelope(fmt, Mix(variant, servos));
            && r.sent.Some?
            && ReadRequest(r.sent.value) == Success(Request(ExchangeAction, |envelope|, envelope))
  {
    RequestRoundTrip(ExchangeAction, Envelope(fmt, Mix(variant, servos)));
  }

  /** The request a round sends can be read back to the mixed channel
      values, in channel order, each as `fmt` printed it. */
  lemma SentChannels(variant: Variant, servos: seq<int>, fmt: real -> seq<char>,
                     chunks: seq<seq<char>>,
                     keys: seq<seq<char>>, atof: seq<char> -> real, state: seq<real>)
    requires |servos| == Channels && |state| == |keys|
    requires var envelope := Envelope(fmt, Mix(variant, servos)); '\0' !in envelope && |envelope| < U32Modulus
    requires forall i :: 0 <= i < Channels ==> Plain(fmt(Mix(variant, servos)[i]))
    ensures var r := ExchangeData(variant, servos, fmt, true, chunks, keys, atof, state);
            && r.sent.Some?
            && ReadRequest(r.sent.value).Success?
            && var texts := ReadEnvelope(ReadRequest(r.sent.value).value.body);
            && texts.Some? && |texts.value| == Channels
            && forall i :: 0 <= i < Channels ==> texts.value[i] == fmt(Mix(variant, servos)[i])
  {
    SentRequestDeclaresEnvelope(variant, servos, fmt, chunks, keys, atof, state);
    EnvelopeRoundTrip(fmt, Mix(variant, servos));
  }
}
