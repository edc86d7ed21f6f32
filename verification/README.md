# dd-trace-cpp core in Dafny

A Dafny model of three self-contained pieces of the Datadog C++ tracer, with
proofs of what each promises.

- **MessagePack encoder** (`src/msgpack.h`). Each `pack_*` function appends
  the wire form of one value to a byte buffer. The families are:
  - nil and bool;
  - the int family: positive and negative fixint, uint 8/16/32/64, int 8/16/32/64;
  - float 64;
  - str (fixstr, str 8/16/32) and bin (bin 8/16/32);
  - array and map headers (fix, 16, 32).

  The model appends to `seq<Byte>` and returns a `Result` where the source
  throws `std::out_of_range`. The partner is an independent reference decoder
  written from the MessagePack format table (`MsgpackReference`). Every packer
  is proved:
  - to round-trip through the decoder, whatever bytes follow;
  - to pick the smallest header the family offers;
  - to fail exactly when no header fits.
- **Overflow message** (`make_overflow_message`). It is modelled twice: as
  written, and corrected so the maximum is spelled in decimal (see Findings).
- **Span handle** (`src/datadog/span.cpp`):
  - the reserved `_dd.` tag namespace on `lookup_tag`, `set_tag` and `remove_tag`;
  - both `set_error` overloads and the field setters;
  - identity wiring in `create_child`;
  - the moved-from guard and duration computation of `~Span`.

  The trace segment is seen only through two counters: spans registered and
  spans finished. A lifecycle model (`SpanLifecycle`) proves the counters stay
  balanced: spans registered = spans finished + handles still attached,
  whatever the order of child creation, moves and destruction. So once no
  handle is attached, the number of finish reports equals the number of
  registrations. Which span each report belongs to is not tracked.
- **Agent URL parser** (`HTTPClient::URL::parse` in
  `src/datadog/http_client.cpp`). It splits `scheme://authority[/path]`, a
  simplified form of the generic URI syntax of section 3 of RFC 3986 with
  extra `+unix` schemes. It has three typed errors. The round trip
  `scheme + "://" + authority + path == input` is proved. So is the converse:
  every valid URL parses back from its text.

Modules, leaf first:
- `Wrappers`: `Option` and `Result`.
- `BigEndian`: big-endian byte strings and the arithmetic behind them.
- `MsgpackReference`: the reference decoder and format table.
- `OverflowMessages`: the overflow message.
- `Msgpack`: the encoder.
- `MsgpackProofs`: round trips and smallest fit.
- `Spans`: the span handle.
- `SpanLifecycle`: counter balance.
- `AgentUrl`: the URL parser.

## Model

| member | source | states |
|---|---|---|
| BigEndian.FromToBigEndian | src/msgpack.h:117-139 | reading `width` big-endian bytes back gives the value modulo 256^width, so negative values come out in two's complement |
| BigEndian.SignedRoundTrip | src/msgpack.h:119-120 | converting a signed value to the unsigned type of the same width, then reading it as signed, gives the value back |
| Msgpack.BitOr | src/msgpack.h:154-155 | bitwise OR as the fix forms use it (also lines 243-244, 289-290, 306-307): the result is at least each operand and at most their sum, and is odd exactly when either operand is odd |
| Msgpack.BitOrIsAdd | src/msgpack.h:154-155 | OR-ing a tag whose low k bits are clear with a number below 2^k is addition, which makes the fix forms' `tag \| n` equal to `tag + n` |
| Msgpack.PushNumberBigEndian | src/msgpack.h:117-139 | appends exactly `width` bytes without touching the buffer, most significant first, and they read back as the value modulo 2^(8·width) |
| Msgpack.Push | src/msgpack.h:141-144 | the old buffer is kept and the range follows it unchanged |
| Msgpack.PackNil | src/msgpack.h:146-149 | only appends, and appends one byte |
| MsgpackProofs.PackNilRoundTrip | src/msgpack.h:146-149 | the reference decoder reads nil from the appended byte, consuming exactly that byte, whatever follows |
| Msgpack.PackBool | src/msgpack.h:224-231 | only appends, and appends one byte |
| MsgpackProofs.PackBoolRoundTrip | src/msgpack.h:224-231 | the reference decoder reads the same boolean back from the one appended byte |
| Msgpack.PackNegative | src/msgpack.h:151-169 | only appends; -32..-1 becomes the single byte 256+v; anything lower gets a signed int tag |
| MsgpackProofs.PackNegativeRoundTrip | src/msgpack.h:151-169 | every negative 64-bit value decodes back from exactly the appended bytes, whatever follows |
| Msgpack.PackNonnegative | src/msgpack.h:171-188 | only appends; 0..0x7F becomes the single byte v; anything larger gets an unsigned int tag |
| MsgpackProofs.PackNonnegativeRoundTrip | src/msgpack.h:171-188 | every unsigned 64-bit value decodes back from exactly the appended bytes |
| Msgpack.PackInteger | src/msgpack.h:190-197 | only appends, and appends 1, 2, 3, 5 or 9 bytes |
| MsgpackProofs.PackIntegerRoundTrip | src/msgpack.h:190-197 | every value of a 64-bit integer type, signed or unsigned, decodes back, and the encoding is self-delimiting |
| MsgpackProofs.PackIntegerSmallest | src/msgpack.h:190-197 | no int-family format that can hold the value is shorter than the one chosen |
| Msgpack.PackDouble | src/msgpack.h:199-222 | only appends, and appends nine bytes starting with the float 64 tag |
| Msgpack.SwapWords | src/msgpack.h:217-218 | the result's high 32 bits are the pattern's low 32 bits and its low 32 bits are the pattern's high 32 bits |
| MsgpackProofs.SwapWordsInvolution | src/msgpack.h:217-218 | exchanging the two 32-bit halves twice gives back the original pattern |
| MsgpackProofs.PackDoubleRoundTrip | src/msgpack.h:199-222 | the decoder reads a float 64 holding the bit pattern, or its word-swapped form on the ARM OABI build |
| Msgpack.PackStr | src/msgpack.h:238-262 | on success the old buffer is a prefix and the payload ends the result unchanged; on failure the error names "string", the actual size and 2^32-1 |
| MsgpackProofs.PackFixStrRoundTrip | src/msgpack.h:242-245 | a string shorter than 32 bytes decodes back from a one-byte header |
| MsgpackProofs.PackStrWideRoundTrip | src/msgpack.h:246-257 | a longer string decodes back from its str 8/16/32 header |
| MsgpackProofs.PackStrRoundTrip | src/msgpack.h:238-262 | every string that can be encoded decodes back as the same string, consuming exactly the appended bytes |
| MsgpackProofs.PackStrSmallest | src/msgpack.h:238-262 | encoding fails exactly when no str format can hold the length; otherwise no str format that fits has a shorter header |
| Msgpack.CStringView | src/msgpack.h:233-236 | the view holds no NUL and is followed in the C string by its terminator |
| Msgpack.PackCStr | src/msgpack.h:233-236 | on success the encoding ends with the characters before the first NUL |
| Msgpack.PackBin | src/msgpack.h:264-284 | on success the old buffer is a prefix and the payload ends the result unchanged; on failure the error names "binary", the size and 2^32-1 |
| MsgpackProofs.PackBinClassRoundTrip | src/msgpack.h:268-279 | each bin class, including length 0 under bin 8, decodes back |
| MsgpackProofs.PackBinRoundTrip | src/msgpack.h:264-284 | every blob that can be encoded decodes back as the same blob, consuming exactly the appended bytes |
| MsgpackProofs.PackBinSmallest | src/msgpack.h:264-284 | encoding fails exactly when no bin format can hold the length; otherwise no bin format that fits has a shorter header |
| Msgpack.PackArray | src/msgpack.h:286-301 | only a header of 1, 3 or 5 bytes is appended; on failure the error names "array", the count and 2^32-1 |
| MsgpackProofs.PackFixArrayRoundTrip | src/msgpack.h:288-290 | counts up to 15 decode back from a one-byte header |
| MsgpackProofs.PackArrayWideRoundTrip | src/msgpack.h:291-296 | larger counts decode back from array 16/32 headers |
| MsgpackProofs.PackArrayRoundTrip | src/msgpack.h:286-301 | every count that can be encoded decodes back as an array header of that count |
| MsgpackProofs.PackArraySmallest | src/msgpack.h:286-301 | encoding fails exactly when no array format can hold the count; otherwise no array format that fits is shorter |
| Msgpack.PackMap | src/msgpack.h:303-318 | only a header of 1, 3 or 5 bytes is appended; on failure the error names "map", the count and 2^32-1 |
| MsgpackProofs.PackFixMapRoundTrip | src/msgpack.h:305-307 | counts up to 15 decode back from a one-byte header |
| MsgpackProofs.PackMapWideRoundTrip | src/msgpack.h:308-313 | larger counts decode back from map 16/32 headers |
| MsgpackProofs.PackMapRoundTrip | src/msgpack.h:303-318 | every count that can be encoded decodes back as a map header of that count |
| MsgpackProofs.PackMapSmallest | src/msgpack.h:303-318 | encoding fails exactly when no map format can hold the count; otherwise no map format that fits is shorter |
| OverflowMessages.DecimalString | src/msgpack.h:110 | `std::to_string` of a size is a nonempty string of decimal digits with no leading zero |
| OverflowMessages.DecimalRoundTrip | src/msgpack.h:110 | reading the decimal digits back gives the size |
| OverflowMessages.OverflowMessageAsWritten | src/msgpack.h:104-115 | as written, the maximum takes exactly one character, whose code is the maximum mod 256 |
| OverflowMessages.OverflowMessage | src/msgpack.h:104-115 | corrected: the maximum's decimal digits stand just before the final `.` and read back as the maximum |
| OverflowMessages.OverflowMessageDeterminesSizes | src/msgpack.h:104-115 | with the maximum written in decimal, the message determines both the actual size and the maximum |
| OverflowMessages.OverflowMessageAsWrittenLosesMaximum | src/msgpack.h:112 | as written, the messages for maxima 2^32-1 and 255 are identical |
| Spans.Mismatch | src/datadog/span.cpp:23-24 | the position returned is where the two strings first differ, or the end of the shorter one |
| Spans.StartsWith | src/datadog/span.cpp:18-25 | true exactly when the prefix is a prefix of the subject, so false whenever it is longer |
| Spans.StartsWithAsWritten | src/datadog/span.cpp:18-25 | as written, a true answer always means the prefix really is a prefix; only false answers can be wrong |
| Spans.StartsWithAsWrittenAgrees | src/datadog/span.cpp:23-24 | the three-argument comparison gives the right answer unless the subject continues with the byte that lies past the prefix in memory |
| Spans.StartsWithAsWrittenMissesReservedName | src/datadog/span.cpp:23-24 | the name `_dd.` followed by NUL and `x` starts with the prefix, yet the three-argument comparison says it does not |
| Spans.IsInternalTag | src/datadog/span.cpp:27-29 | true exactly when the name starts with `_dd.` |
| Spans.LookupTag | src/datadog/span.cpp:82-92 | a reserved name is absent whatever the map holds; any other name is found exactly when the map holds it, with its value |
| Spans.SetTag | src/datadog/span.cpp:94-98 | a reserved name leaves the span unchanged; any other name then looks up to the new value; no other key and no other field changes |
| Spans.RemoveTag | src/datadog/span.cpp:100-104 | a reserved name leaves the span unchanged; any other name is then absent; no other key and no other field changes |
| Spans.SetServiceName | src/datadog/span.cpp:106-108 | the service becomes the given one and nothing else changes |
| Spans.SetServiceType | src/datadog/span.cpp:110-112 | the service type becomes the given one and nothing else changes |
| Spans.SetResourceName | src/datadog/span.cpp:114-116 | the resource becomes the given one and nothing else changes |
| Spans.SetErrorMessage | src/datadog/span.cpp:118-121 | the span is marked as an error, `error.msg` looks up to the message, and no other tag or field changes |
| Spans.SetErrorFlag | src/datadog/span.cpp:123-128 | the flag takes the given value; setting it keeps every tag; clearing it removes `error.msg` and keeps the rest |
| Spans.SetOperationName | src/datadog/span.cpp:130 | the operation name becomes the given one and nothing else changes |
| Spans.SetEndTime | src/datadog/span.cpp:132-134 | the explicit end time is recorded and nothing else changes |
| Spans.CreateChild | src/datadog/span.cpp:62-72 | the child's record is as configured, except: trace id from the parent, parent id is the parent's span id, span id from the generator. It is live, has no end time, and adds one registered span |
| Spans.Finish | src/datadog/span.cpp:46-60 | a moved-from handle changes nothing; otherwise start plus duration is the explicit end time or `now`, exactly one finished span is reported, and nothing else in the record changes |
| SpanLifecycle.Begin | src/datadog/trace_segment.h:47-58 | a segment constructed with its `local_root` registered and one live handle starts balanced (the constructor body that registers the root is not part of this model) |
| SpanLifecycle.Spawn | src/datadog/span.cpp:62-72 | creating a child keeps registered = finished + attached handles. It registers exactly one span and finishes none. It keeps every existing handle and appends one attached child with no end time, in the parent's trace, under the parent, with the generated id |
| SpanLifecycle.Move | src/datadog/span.cpp:46-50 | the moved-from state the destructor's guard tests for (the move constructor itself is not part of this model): moving keeps the balance and the counters; only handle i changes, to detached; the new handle is the old one |
| SpanLifecycle.Destroy | src/datadog/span.cpp:46-60 | destroying any handle, moved-from or attached, keeps the balance. The other handles stay, unchanged and in order. Registered is unchanged, and finished grows by one exactly when the handle was attached |
| SpanLifecycle.AllFinished | src/datadog/trace_segment.h:75-76 | in a balanced segment, finished never exceeds registered, and the two are equal once no live handle remains |
| AgentUrl.Search | src/datadog/http_client.cpp:10-11 | returns the first position where the separator occurs, or the end when it occurs nowhere |
| AgentUrl.Find | src/datadog/http_client.cpp:72-73 | returns the first slash, or the end, and there is no slash before it |
| AgentUrl.Parse | src/datadog/http_client.cpp:8-78 | `URL_MISSING_SEPARATOR` exactly when no `://` occurs. On success: scheme + `://` + authority + path is the input; the scheme is supported and ends at the first `://`; a unix scheme has an absolute socket path and no path; otherwise the authority has no slash and the path is empty or starts with one |
| AgentUrl.ParseAfterScheme | src/datadog/http_client.cpp:20-77 | the scheme check comes before the unix path check; each error occurs exactly when its condition holds; a success keeps the scheme and splits the remainder |
| AgentUrl.ParseAt | src/datadog/http_client.cpp:20-40 | the scheme is the text before the first `://` and the remainder is everything after it |
| AgentUrl.ParseErrors | src/datadog/http_client.cpp:20-62 | with the first separator at k: unsupported scheme exactly when the text before k is not one of the five schemes; non-absolute path exactly when it is a unix scheme and the remainder is empty or does not start with `/` |
| AgentUrl.ParseFormat | src/datadog/http_client.cpp:8-78 | every valid URL is parsed back from its own text |
| AgentUrl.ParseUnsupportedExample | src/datadog/http_client.cpp:23-37 | `ftp://x` is rejected for its scheme |
| AgentUrl.ParseMissingSeparatorExample | src/datadog/http_client.cpp:9-18 | `http//x` is rejected for its missing separator |
| AgentUrl.ParseRelativeSocketExample | src/datadog/http_client.cpp:49-62 | `unix://` is rejected because its socket path is not absolute |

## Left out

- `Buffer` and `Range` template genericity: every buffer and range is one byte-sequence type, `seq<Byte>`.
- Msgpack.PackDouble: takes the IEEE 754 bit pattern as a number. The reinterpretation of a `double` as 64 bits is floating-point and platform work. The ARM OABI word swap is the `swapWords` parameter, not a preprocessor test.
- Msgpack.PackNegative: requires a negative value. Its only caller, `pack_integer`, guarantees this. For nonnegative input, the fixint branch's `uint8_t` cast is not modelled.
- Msgpack.PackInteger: takes one mathematical integer in the 64-bit signed or unsigned range. The template parameter `T` and its implicit conversions are not modelled.
- Error message text: only `make_overflow_message` is modelled. The URL parser's errors carry only their code, not the message strings built at `src/datadog/http_client.cpp:13-16`, `26-35` and `51-59`.
- `Span` constructor assertions (`src/datadog/span.cpp:40-43`): a model handle always has its record, clock and generator, so the null checks have nothing to check.
- Spans.IsInternalTag: uses the corrected prefix test `Spans.StartsWith`, not the three-argument `std::mismatch` of `src/datadog/span.cpp:23-24`, so `LookupTag`, `SetTag` and `RemoveTag` describe the intended behaviour; names such as `_dd.` + NUL + `x`, which the source can misclassify, are treated as reserved (see Findings).
- Spans.CreateChild: requires a live handle. On a moved-from span the source dereferences a null segment.
- Msgpack.EncodeError.Message: gives the intended text, with the maximum in decimal, not the text the source throws. The as-written text is `OverflowMessages.OverflowMessageAsWritten`; see Findings.
- `Span`'s move constructor: its source is not part of this model. `SpanLifecycle.Move` models only the moved-from state that the destructor's guard (`src/datadog/span.cpp:46-50`) tests for.
- `Span::inject`, `Span::id`, `Span::trace_id`, `Span::trace_segment`: these only delegate to the segment or read a field. The segment's inject logic is not part of this model.
- Clock, span-id generator and `SpanData::apply_config`: their results are parameters (`now`, `generatedId`, `configured`). Their code is not part of this model.
- `src/datadog/trace_segment.h`: only the `register_span` / `span_finished` counters are modelled. Locking, sampling, propagation and flushing are not. Concurrency is not modelled; each operation is one atomic step.
- Time points: modelled as integer ticks of the steady clock. The wall-clock half of `TimePoint` is not used by the modelled code.
- `src/datadog/logger.h` and the vendored `has_minus_assign.hpp`: an interface with no behaviour and a compile-time trait, with nothing to model.
- `SpanData` fields that the modelled code does not touch are omitted from the record.

## Findings

| source | as written | input that shows it | evidently intended | confidence | as-written member | corrected member |
|---|---|---|---|---|---|---|
| src/msgpack.h:112 | `message += max;` converts the `size_t` maximum to a single `char`, its value mod 256 | type "string" with maximum 4294967295 gives the same message as maximum 255: one character 0xFF, not "4294967295" | the maximum spelled in decimal, like the actual size on line 110 | high, not executed | OverflowMessages.OverflowMessageAsWrittenLosesMaximum | OverflowMessages.OverflowMessageDeterminesSizes |
| src/datadog/span.cpp:23-24 | three-argument `std::mismatch` walks the whole subject and reads the prefix past its end; the result is compared with the prefix's end | tag name `_dd.` + NUL + `x`: the literal's terminator matches the NUL and the byte after it does not, so the mismatch lands past the prefix's end. The name is then not treated as internal, and `set_tag` writes into the reserved namespace | compare only the prefix's length, as four-argument `std::mismatch` does | medium, not executed | Spans.StartsWithAsWrittenMissesReservedName | Spans.StartsWith |

The corrected message is `OverflowMessages.OverflowMessage`, and `Msgpack.EncodeError.Message` uses it. The corrected prefix test `Spans.StartsWith` is the one the tag API uses.
