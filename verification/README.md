# FlightAxis connector: a Dafny model

This project models the pure logic of ArduPilot's RealFlight connector,
`libraries/SITL/SIM_FlightAxis.cpp`. Each simulator tick, the connector does
the following:

- it mixes the eight servo outputs into normalised channel values;
- it sends them to FlightAxis in a SOAP `ExchangeData` request over HTTP/1.1;
- it receives the HTTP reply into a fixed 10000-byte buffer. The reply is framed by its `Content-Length` header (section 3.3.2 of RFC 7230);
- it reads the telemetry values out of the reply by an ordered key search;
- it re-centres the reported position on the first position it saw.

Modules, one per part of the file:

- `Wrappers`: `Option` and `Result`.
- `CStrings`: the C library pieces the connector relies on, stated over `seq<char>`:
  - the characters of a NUL-terminated buffer;
  - `strstr` (`Find`, with the leftmost-occurrence specification `FirstOccurrence`);
  - `strtoul` in base 10, with 64-bit `unsigned long`: leading white space, an optional sign (a minus negates modulo 2^64), and saturation;
  - the `%u` conversion (`Decimal`);
  - narrowing to `uint32_t`.
- `ReplyFraming`: the receive side of `soap_request`. The socket is a script of chunks, and `chunks[k]` is what the k-th `recv` returns. An empty chunk, or a call past the end of the script, is a read that returned 0 or less. A chunk longer than the space left is cut to that space, as the `recv` length argument does.
  - `Receive` is the functional definition.
  - `ReceiveReply` and `ReadRest` are the imperative version, with the loop of lines 133-139. They are proved equal to `Receive`.
  - Both use the corrected size guard `FrameHeader`. The guard as written is `FrameHeaderAsWritten`, and `ReceiveAsWritten` is the receive built on it (Findings, first row).
- `RequestFraming`: the POST request text built by lines 93-101. It comes with a reader for such requests, standing in for the receiving end. Against that reader, the declared `content-length` is proved to equal the length of the body.
- `ReplyParser`: `parse_reply`. It makes a pass over the key table in order, and each key's cursor is where its value starts.
- `Mixer`:
  - the variant flags from the frame name;
  - servo scaling;
  - the `rev4` block swap;
  - the helicopter swashplate demix.
- `Position`: the conversion of the reported position to north-east-down and the one-time capture of the position origin, as written and corrected.
- `SoapEnvelope`: the text of the `ExchangeData` envelope (lines 194-220): the fixed head, one `<item>` line per channel value, the fixed tail, and a reader that takes the channel texts back out of it.
- `Exchange`: one `exchange_data` round after the controller handshake. It covers mixing, the request sent, the reply received and parsed, and the telemetry state kept or replaced.

Where the code leaves a case undefined or open, the model makes a choice and says so:

- `parse_reply` moves its cursor to the start of each value, one character after the key, and searches for the next key from there (lines 62-65).
- The size guard refuses an expected length of 10000 or more (`>= sizeof(reply)`, line 129), so at most 9999 bytes plus the terminating NUL are stored.
- A missing key makes line 62 advance a null pointer, which is undefined behaviour. The model makes it an error (`ParseError.MissingKey`).
- A key that ends exactly at the end of the reply makes line 63 read past the terminator. The model makes that an error too (`ParseError.ValuePastEnd`).
- After such a failure the code has already overwritten the values of the keys before it. `Exchange.ExchangeData` instead keeps the previous state whole whenever the reply or any key is missing. This all-or-nothing policy is the model's own choice for a case the code leaves undefined.
- The comment at line 255 gives the intent of the offset code: positions are taken relative to the first position. The code does that only when the first position is not exactly zero (Findings, second row).

## Model

| member | source | states |
|---|---|---|
| CStrings.Find | libraries/SITL/SIM_FlightAxis.cpp:112-120 | `strstr` from an offset: a result exists exactly when the pattern occurs at or after the offset, and it is the leftmost such occurrence |
| CStrings.DecimalStrToUL | libraries/SITL/SIM_FlightAxis.cpp:119 | `strtoul` reads back any number `%u` printed, when a non-digit follows it |
| CStrings.DecimalRoundTrip | libraries/SITL/SIM_FlightAxis.cpp:95 | the digits `%u` prints spell the number printed |
| CStrings.StrToULDigits | libraries/SITL/SIM_FlightAxis.cpp:119 | `strtoul` reads a leading run of digits up to the first non-digit, saturating at the `unsigned long` maximum |
| CStrings.CString | libraries/SITL/SIM_FlightAxis.cpp:140 | the text of a buffer is its longest NUL-free prefix: it holds no NUL, the buffer has a NUL right after it unless it is the whole buffer, and a NUL-free buffer is its own text |
| CStrings.SkipSpace | libraries/SITL/SIM_FlightAxis.cpp:119 | `strtoul` skips a run of white space: what remains is a suffix that does not start with white space, and everything skipped is white space |
| CStrings.StrToUL | libraries/SITL/SIM_FlightAxis.cpp:119 | the value `strtoul` returns always fits an `unsigned long` |
| CStrings.StrToULSignNoDigits | libraries/SITL/SIM_FlightAxis.cpp:119 | a sign followed by nothing or by a non-digit reads as 0 |
| CStrings.StrToULNoDigits | libraries/SITL/SIM_FlightAxis.cpp:119 | a run of white space followed by nothing, or by a character that is neither a sign nor a digit, reads as 0 |
| CStrings.StrToULSkipsSpace | libraries/SITL/SIM_FlightAxis.cpp:119 | a leading white-space character does not change what `strtoul` reads |
| CStrings.StrToULNegative | libraries/SITL/SIM_FlightAxis.cpp:119 | a minus sign before a digit run gives the magnitude negated modulo 2^64: 2^64 - n for n from 1 to the maximum, 0 for 0, and the maximum for a run too long for 64 bits |
| CStrings.StrToULPlus | libraries/SITL/SIM_FlightAxis.cpp:119 | a plus sign before a digit run reads as the run without it |
| CStrings.Decimal | libraries/SITL/SIM_FlightAxis.cpp:95 | `%u` prints at least one decimal digit, and no leading zero for a positive number |
| CStrings.DecimalLength | libraries/SITL/SIM_FlightAxis.cpp:95 | `%u` prints a number below 10^k in at most k digits |
| CStrings.U32 | libraries/SITL/SIM_FlightAxis.cpp:128 | narrowing to `uint32_t` lands below 2^32, differs from its argument by a multiple of 2^32 (reduction modulo 2^32), and leaves values already below 2^32 unchanged |
| ReplyFraming.Recv | libraries/SITL/SIM_FlightAxis.cpp:134 | a read delivers at most the space it is offered, as a prefix of what the socket holds, and delivers nothing exactly when the socket has nothing, the script has ended or no space is left |
| ReplyFraming.Stored | libraries/SITL/SIM_FlightAxis.cpp:105-138 | the bytes stored after any number of reads never exceed 9999, because each read is offered only the space left |
| ReplyFraming.LocateFraming | libraries/SITL/SIM_FlightAxis.cpp:112-125 | the length header is the leftmost `Content-Length: `; the declared length is what `strtoul` reads 16 characters after it; the body starts 4 characters after the leftmost `\r\n\r\n` at or after the header; otherwise the failure is `NoContentLength` or `NoBody` |
| ReplyFraming.BareHeaderFraming | libraries/SITL/SIM_FlightAxis.cpp:112-125 | a reply that is just `Content-Length: <n>` and the blank line is framed with the header at offset 0, the declared length read from the digits, and the body starting right after the header |
| ReplyFraming.ExpectedLengthAsWritten | libraries/SITL/SIM_FlightAxis.cpp:119-128 | as written, the expected length is below 2^32 |
| ReplyFraming.WrapCongruent | libraries/SITL/SIM_FlightAxis.cpp:119-128 | the 32-bit expected length differs from declared length plus body offset by a multiple of 2^32 |
| ReplyFraming.NoWrap | libraries/SITL/SIM_FlightAxis.cpp:119-128 | below 2^32 the 32-bit expected length is exactly declared length plus body offset |
| ReplyFraming.SizeGuard | libraries/SITL/SIM_FlightAxis.cpp:129-132 | an expected length passes exactly when it is at most 9999, and passes unchanged; otherwise the refusal is `ReplyTooLarge` carrying it |
| ReplyFraming.AfterHeader | libraries/SITL/SIM_FlightAxis.cpp:129-140 | a refused header ends the call with that error before any further read; once the guard passes, a reply is handed over exactly when some run of data-delivering reads brings the stored bytes up to the expected length, and it is the buffer's text at that point (NUL-free, at most 9999 characters); otherwise the failure is `ReadFailed` |
| ReplyFraming.FrameHeaderAsWritten | libraries/SITL/SIM_FlightAxis.cpp:119-132 | as written: the expected length is the 32-bit sum of the 32-bit declared length and the body offset; it is accepted when below 10000 and otherwise refused as `ReplyTooLarge` carrying that 32-bit value; framing failures pass through unchanged |
| ReplyFraming.GuardsAgree | libraries/SITL/SIM_FlightAxis.cpp:119-132 | the guard as written and the corrected guard give the same verdict whenever declared length plus body offset is below 2^32 |
| ReplyFraming.FrameHeader | libraries/SITL/SIM_FlightAxis.cpp:119-132 | corrected: the expected length is exactly declared length + body offset; a reply is accepted only when that is at most 9999 and otherwise refused as `ReplyTooLarge` carrying that sum; framing failures pass through unchanged |
| ReplyFraming.Gather | libraries/SITL/SIM_FlightAxis.cpp:133-139 | the loop ends successfully at the read after which enough bytes are stored, every read before it having delivered data; it fails with `ReadFailed` exactly when no such read exists |
| ReplyFraming.Receive | libraries/SITL/SIM_FlightAxis.cpp:105-140 | a reply that is handed over holds no NUL and at most 9999 characters |
| ReplyFraming.ReceiveAsWritten | libraries/SITL/SIM_FlightAxis.cpp:105-140 | `soap_request` as written, with the 32-bit guard: a reply that is handed over holds no NUL and at most 9999 characters |
| ReplyFraming.ReceiveAgrees | libraries/SITL/SIM_FlightAxis.cpp:105-140 | connected or not, for any chunks, the as-written and the corrected receive hand over the same reply or fail the same way, except when the first read is framed with an expected length of 2^32 or more |
| ReplyFraming.WrappedReplyReturned | libraries/SITL/SIM_FlightAxis.cpp:105-140 | as written, the single read `Content-Length: <n>\r\n\r\n` with n just below 2^32 (4294967295 among them) is handed to the caller as a complete reply; the corrected receive refuses it as too large |
| ReplyFraming.ReceiveReply | libraries/SITL/SIM_FlightAxis.cpp:105-140 | the imperative receive (first read, header checks, continuation loop) computes exactly `Receive` |
| ReplyFraming.ReadRest | libraries/SITL/SIM_FlightAxis.cpp:133-139 | the continuation loop succeeds exactly when `Gather` does, with the buffer as stored after that many reads, and otherwise fails with `ReadFailed` |
| ReplyFraming.EarlyFailures | libraries/SITL/SIM_FlightAxis.cpp:107-125 | when connected, there are three early exits, each if and only if its condition holds: `NoData` when the first read delivers nothing; `NoContentLength` when the header is absent; `NoBody` when no blank line follows the header |
| ReplyFraming.TooLargeBeforeFurtherReads | libraries/SITL/SIM_FlightAxis.cpp:128-132 | an oversize expected length is refused on the first read alone: replacing every later chunk changes nothing |
| ReplyFraming.NoPartialReplyAsWritten | libraries/SITL/SIM_FlightAxis.cpp:128-140 | as written, too, a reply is returned only once the 32-bit guard has passed and a run of data-delivering reads has stored that many bytes; it is the buffer's text at that point |
| ReplyFraming.NoPartialReply | libraries/SITL/SIM_FlightAxis.cpp:133-140 | a reply is returned only after a run of reads, each of which delivered data, that brought the stored bytes up to the expected length; it is the text of the buffer at that point |
| ReplyFraming.StoredIsFlatten | libraries/SITL/SIM_FlightAxis.cpp:133-138 | while everything fits, the buffer is the chunks laid end to end |
| ReplyFraming.FragmentedReplyAssembled | libraries/SITL/SIM_FlightAxis.cpp:105-140 | a NUL-free reply delivered in any number of non-empty fragments, whose header declares exactly its whole length, is received as exactly those bytes |
| ReplyFraming.WrappedFramingAccepted | libraries/SITL/SIM_FlightAxis.cpp:128-132 | a header at offset 0 that declares a length within the header's own size below 2^32 passes the as-written guard with a smaller expected length than the header itself, and is refused by the corrected guard |
| ReplyFraming.WrappedLengthAccepted | libraries/SITL/SIM_FlightAxis.cpp:119-132 | the same for the concrete header `Content-Length: <n>\r\n\r\n` with n just below 2^32 (4294967295 among them) |
| RequestFraming.FormatRequest | libraries/SITL/SIM_FlightAxis.cpp:93-101 | the request starts with the request line and ends with the envelope's text |
| RequestFraming.RequestRoundTrip | libraries/SITL/SIM_FlightAxis.cpp:93-101 | reading the request back gives the action, a declared `content-length` equal to the envelope's length, and the envelope as the body, for any one-line action and any envelope shorter than 2^32 |
| RequestFraming.ReadHeadJoin | libraries/SITL/SIM_FlightAxis.cpp:93-98 | header lines written one per line and closed by a blank line are read back as the same lines, followed by the body |
| RequestFraming.HeaderValuesOf | libraries/SITL/SIM_FlightAxis.cpp:94-95 | the reader finds the quoted action on the `soapaction` line and the decimal length on the `content-length` line |
| ReplyParser.Scan | libraries/SITL/SIM_FlightAxis.cpp:58-65 | on success there is one cursor per key, each one character past the leftmost occurrence of its key at or after the previous cursor, and within the reply; on failure the error names a key of the table |
| ReplyParser.ChainInReply | libraries/SITL/SIM_FlightAxis.cpp:63 | every cursor the search leaves lies within the reply's text, so every value is read from inside the reply |
| ReplyParser.ParseFrom | libraries/SITL/SIM_FlightAxis.cpp:57-66 | on success there is exactly one value per key, each read by `atof` at its key's cursor; each key is the leftmost occurrence at or after the previous cursor, and the cursor is one character past the key; on failure the error names a key of the table |
| ReplyParser.ParseReply | libraries/SITL/SIM_FlightAxis.cpp:55-67 | the pass over the whole table starts at the beginning of the reply's text and writes exactly one value per key |
| ReplyParser.ChainAscends | libraries/SITL/SIM_FlightAxis.cpp:58-65 | cursors strictly increase from key to key, starting after the initial cursor |
| ReplyParser.ChainAt | libraries/SITL/SIM_FlightAxis.cpp:58-65 | key k is the leftmost occurrence at or after the cursor key k-1 left, and ends one character before key k's own cursor |
| ReplyParser.ChainUnique | libraries/SITL/SIM_FlightAxis.cpp:57-66 | the cursors are determined by the reply and the key table |
| ReplyParser.ScanComplete | libraries/SITL/SIM_FlightAxis.cpp:58-65 | whenever the keys can be found in order, the search succeeds, with exactly those cursors |
| ReplyParser.ScanFailsAt | libraries/SITL/SIM_FlightAxis.cpp:58-63 | a search that fails at key k has found the keys before k. For `MissingKey`, key k does not occur after their last cursor. For `ValuePastEnd`, its first occurrence there ends at the end of the reply |
| ReplyParser.PrefixStep | libraries/SITL/SIM_FlightAxis.cpp:58-65 | searching for the first k keys succeeds exactly when searching for the first key and then for k-1 keys from its cursor does, and both leave the same last cursor |
| Mixer.VariantOf | libraries/SITL/SIM_FlightAxis.cpp:48-49 | the heli switch is on if and only if the frame name contains `heli`; the rev4 switch is on if and only if it contains `rev4` |
| Mixer.TagSwitchesOn | libraries/SITL/SIM_FlightAxis.cpp:48-49 | a tag anywhere in the frame name switches its variant on |
| Mixer.Scale | libraries/SITL/SIM_FlightAxis.cpp:169 | a pulse width s maps to r with 1000·r + 1000 = s; r lies in [0,1] if and only if s lies in 1000..2000 |
| Mixer.ScaleMonotone | libraries/SITL/SIM_FlightAxis.cpp:169 | scaling preserves the order of pulse widths, in both directions |
| Mixer.ScaleAll | libraries/SITL/SIM_FlightAxis.cpp:167-170 | every channel is scaled from its own pulse width, and the channel count is kept |
| Mixer.Rev4 | libraries/SITL/SIM_FlightAxis.cpp:172-178 | channels 0-3 and 4-7 trade places as blocks |
| Mixer.Rev4Involution | libraries/SITL/SIM_FlightAxis.cpp:172-178 | swapping twice is the identity |
| Mixer.Clamp | libraries/SITL/SIM_FlightAxis.cpp:189-190 | the result lies in [lo, hi]; it equals the input exactly when the input is in range, and the nearer bound otherwise |
| Mixer.HeliDemix | libraries/SITL/SIM_FlightAxis.cpp:180-191 | channel 0 becomes the clamped roll (s0 - s1) + 0.5; channel 1 becomes the clamped pitch -((s0 + s1)/2 - s2) + 0.5; both lie in [0,1]; channels 2-7 are unchanged |
| Mixer.LevelSwashIsNeutral | libraries/SITL/SIM_FlightAxis.cpp:186-190 | a level swashplate commands neutral roll and pitch (0.5) |
| Mixer.DemixInvertible | libraries/SITL/SIM_FlightAxis.cpp:186-190 | when neither output is clamped, the two swash servos are recovered from the outputs and channel 2 |
| Mixer.Mix | libraries/SITL/SIM_FlightAxis.cpp:167-191 | output channel i is the scaled pulse of its source servo, the other block's under rev4; under heli, channels 0 and 1 are the demix of the (swapped) first three |
| Mixer.MixInUnitRange | libraries/SITL/SIM_FlightAxis.cpp:167-191 | pulse widths in 1000..2000 give channel values in [0,1] under every variant |
| Mixer.Rev4MixUndone | libraries/SITL/SIM_FlightAxis.cpp:172-178 | under rev4 alone, swapping the mixer's output again gives the plainly scaled channels |
| Position.Ned | libraries/SITL/SIM_FlightAxis.cpp:251-253 | the local position takes FlightAxis's Y as x and X as y, and is height above ground negated as z |
| Position.FixPositionAsWritten | libraries/SITL/SIM_FlightAxis.cpp:255-259 | as written: with a zero offset, the raw position becomes the offset and the output is zero; otherwise the offset is kept and output + offset = raw |
| Position.TrackAsWritten | libraries/SITL/SIM_FlightAxis.cpp:255-259 | as written, over many updates: once the offset is non-zero, every output is the raw position minus that offset |
| Position.OffsetAfterAsWritten | libraries/SITL/SIM_FlightAxis.cpp:255-258 | a non-zero offset is never changed; a zero offset becomes the first position when that is non-zero |
| Position.OriginAtZeroMisplaced | libraries/SITL/SIM_FlightAxis.cpp:255-259 | as written, a first position exactly at zero makes the second position the origin, so its output is zero instead of its displacement |
| Position.FixPosition | libraries/SITL/SIM_FlightAxis.cpp:255-259 | corrected: before capture, the raw position becomes the origin and the output is zero; after capture the origin is kept and output + origin = raw |
| Position.Track | libraries/SITL/SIM_FlightAxis.cpp:255-259 | corrected, over many updates: every output is the raw position minus the first raw position, or minus the origin already captured |
| Position.TrackRelativeToFirst | libraries/SITL/SIM_FlightAxis.cpp:255-259 | the first output is zero and every output plus the first raw position is that update's raw position |
| Position.AsWrittenAgrees | libraries/SITL/SIM_FlightAxis.cpp:255-259 | with a non-zero offset, the code as written and the corrected version publish the same positions |
| Position.FirstSampleAgrees | libraries/SITL/SIM_FlightAxis.cpp:255-259 | the two agree from the start whenever the first position is not exactly zero |
| Position.UpdateAsWritten | libraries/SITL/SIM_FlightAxis.cpp:251-259 | as written, one update: a zero offset captures the north-east-down position and publishes zero; otherwise the published north and east are FlightAxis's Y and X less the offset, and down is minus the height above ground less the offset |
| Position.Update | libraries/SITL/SIM_FlightAxis.cpp:251-259 | corrected, one update: the first report's north-east-down position becomes the origin and is published as zero; later ones are published as their displacement from the origin |
| Position.UpdateAgrees | libraries/SITL/SIM_FlightAxis.cpp:251-259 | once a non-zero offset is held, the two updates publish the same position and keep the same offset |
| Exchange.ExchangeData | libraries/SITL/SIM_FlightAxis.cpp:167-225 | a request is sent exactly when the connection opens, and it carries the envelope of lines 194-212 with the mixed channel values as its items; a failed receive leaves the state as it was; the state keeps one value per key |
| Exchange.StateAllOrNothing | libraries/SITL/SIM_FlightAxis.cpp:222-225 | the state after a round is either the old state or all the values read from a reply that arrived |
| Exchange.StateFromReply | libraries/SITL/SIM_FlightAxis.cpp:222-225 | after a successful round, each state value is `atof` of the reply at its key's cursor |
| SoapEnvelope.Envelope | libraries/SITL/SIM_FlightAxis.cpp:194-212 | the envelope starts with the fixed head of lines 194-199 and ends with the fixed tail of lines 208-212, with no newline after it |
| SoapEnvelope.ItemsRoundTrip | libraries/SITL/SIM_FlightAxis.cpp:200-207 | reading the item lines back gives one text per value, in order, each the value's `%.4f` text |
| SoapEnvelope.EnvelopeRoundTrip | libraries/SITL/SIM_FlightAxis.cpp:194-220 | between the head and the tail the envelope holds exactly one `<item>` per channel value, in channel order, each holding that value's `%.4f` text |
| Exchange.SentChannels | libraries/SITL/SIM_FlightAxis.cpp:194-220 | reading back the request a round sends gives the envelope, and reading the envelope gives the eight mixed channel values in channel order, as `%.4f` printed them |
| Exchange.SentRequestDeclaresEnvelope | libraries/SITL/SIM_FlightAxis.cpp:194-220 | the `ExchangeData` request declares the length of the envelope it carries, and carries it unchanged |

## Left out

- Socket I/O is replaced by parameters: connecting (a boolean), sending (the request text is returned, not sent), and receiving (a script of chunks). Blocking mode and the 1000 ms and 100 ms timeouts are not modelled; a timeout is an empty chunk.
- Bytes a `recv` call would leave in the socket beyond the space offered are dropped rather than kept for a later call. The buffer never has room for them, so no later read in the same call could take them either.
- `atof` and the `%.4f` conversion of one channel value are function parameters. Their parsing and rounding are not modelled. The rest of the envelope is modelled as text.
- SoapEnvelope.EnvelopeRoundTrip: assumes each channel's `%.4f` text holds no `<`, which is true of any number `printf` prints but not stated of the parameter.
- `vasprintf`/`asprintf` allocation failure and the `free` calls are not modelled.
- The `controller_started` handshake (lines 147-165): two fire-and-forget requests and a boolean.
- Wall-clock timing, `target_speedup`, frame counting and logging (lines 238-240, 282-295).
- The rotation from Euler angles, the rate remapping and clamping, the velocity copy, acceleration by finite differences, airspeed, battery and RPM copies (lines 242-250, 264-281). These are floating-point vector and matrix numerics on code not shown here, or plain field copies.
- The `Aircraft` base class, `update_position()`, the contents of the key table and `sitl_input` are not part of this model. Keys are a parameter, and servo pulse widths are unbounded integers.
- Mixer.Scale: single-precision float rounding is not modelled; channel arithmetic is exact over `real`.
- Mixer.Clamp: `constrain_float`'s handling of NaN is not modelled, since reals have no NaN.
- Position.FixPositionAsWritten: `is_zero` is taken as exact comparison with zero; a tolerance-based test would only widen the set of first positions the finding applies to.
- ReplyFraming.Receive: uses the corrected size guard `FrameHeader`, as do `ReceiveReply` and `Exchange.ExchangeData`; the guard as written lives in `ReplyFraming.ReceiveAsWritten`, which differs from it only on expected lengths of 2^32 or more (`ReplyFraming.ReceiveAgrees`).
- ReplyFraming.Receive: the reply is returned as the buffer's text up to its first NUL, as `strdup` copies it. Bytes after an embedded NUL count toward the expected length but are not part of the returned text.
- RequestFraming.RequestRoundTrip: the action must hold no line feed and no NUL, and the envelope no NUL and fewer than 2^32 characters. Beyond that length, `(unsigned)strlen` wraps and the declared length is the envelope length modulo 2^32.

## Findings

| source | as written | input that shows it | evidently intended | confidence | as-written member | corrected member |
|---|---|---|---|---|---|---|
| libraries/SITL/SIM_FlightAxis.cpp:119-132 | the declared length is narrowed to `uint32_t` and added to the body offset in 32-bit arithmetic, so the sum can wrap below 10000 | the reply `Content-Length: 4294967295\r\n\r\n`: the expected length wraps to 29, the guard passes, and the 30 bytes of the first read are returned as a complete reply | a reply whose declared length plus header does not fit the 10000-byte buffer is refused as too large | high; not executed | ReplyFraming.WrappedReplyReturned | ReplyFraming.FrameHeader |
| libraries/SITL/SIM_FlightAxis.cpp:255-259 | a zero offset means both "origin not captured yet" and "origin at (0,0,0)" | the positions (0,0,0) then (5,0,0): the second is captured as the origin and published as (0,0,0) instead of (5,0,0) | the first position is the origin whatever its value, and every later position is relative to it | medium (the zero test may also be meant to skip ticks before the first reply arrives; the initial state is not part of this model); not executed | Position.OriginAtZeroMisplaced | Position.Track |
