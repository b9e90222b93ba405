# HomeKit IP accessory protocol: characteristic codec

A Dafny model of the JSON codec that a HomeKit accessory uses to serve characteristics over IP
(HomeKit Accessory Protocol Specification, chapter 6, "HAP for IP Accessories"; JSON as in RFC 8259),
as declared in `HAP/HAPIPAccessoryProtocol.h`:

- the shared data model: the write-value tag, the tri-state event-notification request, the
  per-characteristic context (`aid`, `iid`, `status`, a value and a read-or-write sub-record) and the
  four batch-wide read flags (`characteristic_context.dfy`, `hap_types.dfy`);
- three request parsers (`request_parsers.dfy`): characteristic reads, `PUT /characteristic`
  writes with an optional prepared-write id (PID), and `PUT /prepare`. The two batch parsers fill a
  caller-supplied context array of fixed capacity in place and report how many leading entries are
  valid; every outcome is `None`, `InvalidData` or `OutOfResources`;
- the byte buffer the serializers append to (`byte_buffer.dfy`): fixed capacity, a write cursor,
  and an append that fails instead of overrunning;
- three size/serialize pairs (`response_codecs.dfy`, with the JSON text pieces in `json_text.dfy`):
  read responses, write responses and event notifications. Each response is defined once as the
  bytes it consists of. Each `GetNum…Bytes` sizer computes the count from widths without rendering
  and is proved equal to the length of those bytes. Each `Get…Bytes` serializer is proved to append
  exactly those bytes, or to report `OutOfResources` exactly when they do not fit;
- worked exchanges (`protocol_examples.dfy`): a prepare, a one-element write, a one-element read
  with its response and an event notification, each with its exact outcome.

The parsers work on an already-tokenised JSON tree (`json_tree.dfy`). A key the parser reads,
given twice in one object, makes that object malformed; other keys, repeated or not, are ignored. A boolean member accepts `true`/`false` and the integers `1`/`0`. An
integer `value` is an `int32` when negative and a `uint64` otherwise; a literal with a fraction or
exponent is a float.

Only the declarations of the codec are available, not the function bodies. Where the behaviour
is not fixed by the declarations, the model makes these choices:

- a batch with more elements than the capacity fails with `OutOfResources` as soon as element
  `max` is reached. Elements before it that are malformed fail with `InvalidData` first;
- member keys are the body keys of the protocol: `aid`, `iid`, `value`, `ev`, `remote`,
  `response` and `authData` in a write element (the last fills the context's `authorizationData`),
  `characteristics` and `pid` in a write request, `id`, `meta`, `perms`, `type` and `ev` in a read
  request, `ttl` and `pid` in a prepare;
- a boolean `value` in a write is stored as the unsigned integer 1 (`true`) or 0 (`false`), since
  the write tag has no boolean variant;
- a failed read answers with `aid`, `iid` and `status` only; a successful read answers with `aid`,
  `iid`, the value and the requested extra members, without a `status` member;
- a write appears in the write response when it failed or asked for `response`. The body is empty
  when no write appears;
- a write-response element always carries `aid`, `iid` and `status`, and also the value when the
  write succeeded and asked for `response`.

## Model

| member | source | states |
|---|---|---|
| CharacteristicContext.TypeOf | HAP/HAPIPAccessoryProtocol.h:24-30 | the write tag is None, Int, UInt, Float or String exactly when the value holds nothing, an `int32`, a `uint64`, a float or a string |
| JsonTree.BoolOf | HAP/HAPIPAccessoryProtocol.h:78-83 | a boolean member accepts exactly `true`, `false`, `1` and `0`, and reads true exactly for `true` and `1`; anything else is InvalidData |
| JsonTree.OptionalBool | HAP/HAPIPAccessoryProtocol.h:66-67 | an optional flag parses exactly when it is absent or a unique boolean, holds exactly when it is true, and is false when absent |
| JsonTree.OptionalString | HAP/HAPIPAccessoryProtocol.h:68-71 | an optional string parses exactly when it is absent or a unique string, is that string when present and empty when absent |
| RequestParsers.ParseReadContext | HAP/HAPIPAccessoryProtocol.h:38-46 | a read element parses exactly when it is an object with unique unsigned `aid` and `iid` members; the context holds those ids, no status, no value and `ev` off; anything else is InvalidData |
| RequestParsers.ParseReadContextComplete | HAP/HAPIPAccessoryProtocol.h:38-43 | an object with one unsigned `aid` and one unsigned `iid` is the fresh read of exactly that pair |
| RequestParsers.ParseWriteValue | HAP/HAPIPAccessoryProtocol.h:49-57 | a value is rejected (InvalidData) exactly when it is null, an array, an object or an integer outside `int32`/`uint64` range; otherwise its JSON literal is what was sent, an `int32` is chosen only for negative integers, and a boolean becomes the unsigned 1 or 0 |
| RequestParsers.ParseWriteChange | HAP/HAPIPAccessoryProtocol.h:64-65 | a write element parses exactly when it has a valid `value` and no `ev`, or a boolean `ev` and no `value`; the value is the parse of the `value` member with no `ev` change, and a boolean `ev` gives no value and Enabled when true, Disabled when false |
| RequestParsers.ParseWriteContext | HAP/HAPIPAccessoryProtocol.h:59-72 | a write element parses exactly when it is an object with unique unsigned `aid`/`iid`, valid options and one valid change; the context holds those ids, the parsed value and `ev` change, the parsed options, status 0 |
| RequestParsers.ParseWriteOptions | HAP/HAPIPAccessoryProtocol.h:66-71 | the options parse exactly when `remote` and `response` are absent or boolean and `authData` is absent or a string; each flag holds exactly when its member is true, and the authorization data is the `authData` string, empty when absent |
| RequestParsers.ParseWriteContextComplete | HAP/HAPIPAccessoryProtocol.h:59-72 | an object with unique unsigned `aid`/`iid`, well-typed options and exactly one valid change is a write of that pair |
| RequestParsers.ParseBounded | HAP/HAPIPAccessoryProtocol.h:114-122 | a successful batch has one context per element and no more than the capacity; a failure is OutOfResources or the error of one element |
| RequestParsers.ParseBoundedElement | HAP/HAPIPAccessoryProtocol.h:114-116 | context `k` of a successful batch is the parse of element `k` |
| RequestParsers.ParseBoundedOutOfResources | HAP/HAPIPAccessoryProtocol.h:122 | a batch runs out of contexts exactly when it has more elements than the capacity and all that fit are well formed |
| RequestParsers.ParseBoundedInvalidData | HAP/HAPIPAccessoryProtocol.h:121 | a batch is malformed exactly when one of the elements that fit is malformed |
| RequestParsers.ParseBoundedSucceeds | HAP/HAPIPAccessoryProtocol.h:114-122 | a batch whose elements fit and are all well formed succeeds |
| RequestParsers.FillContexts | HAP/HAPIPAccessoryProtocol.h:114-116 | the in-place fill reports success exactly when the batch parses, then the first `n` entries are the parsed contexts and the rest of the array is untouched; on failure it reports the batch's error and no valid entry |
| RequestParsers.ReadRequests | HAP/HAPIPAccessoryProtocol.h:86-92 | a parsed read request has no more contexts than the capacity, and its flags are those of the request's `meta`/`perms`/`type`/`ev` members |
| RequestParsers.ReadRequestParametersOf | HAP/HAPIPAccessoryProtocol.h:78-83 | the flags parse exactly when `meta`, `perms`, `type` and `ev` are each absent or boolean, and each flag holds exactly when its member is true |
| RequestParsers.ReadRequestsSucceed | HAP/HAPIPAccessoryProtocol.h:86-92 | a request whose `id` list fits, whose ids are all well formed and whose flags are boolean yields one context per id |
| RequestParsers.GetCharacteristicReadRequests | HAP/HAPIPAccessoryProtocol.h:86-92 | the parser's error, count, filled prefix and batch-wide flags are those of ReadRequests; on failure the count is 0 and the flags are all off |
| RequestParsers.ReadRequestsOutcomes | HAP/HAPIPAccessoryProtocol.h:78-92 | a read request fails only with InvalidData or OutOfResources, and OutOfResources only when it is a well-shaped request with more ids than the capacity, so a malformed envelope is InvalidData; on success it yields one context per element of `id`, context `k` being the parse of element `k`, a fresh read of that `aid`/`iid` pair |
| RequestParsers.ReadRequestsOutOfResources | HAP/HAPIPAccessoryProtocol.h:89-90 | a well-shaped read request runs out of contexts exactly when it names more characteristics than fit and all that fit are well formed |
| RequestParsers.OptionalPID | HAP/HAPIPAccessoryProtocol.h:117-118 | the `pid` is accepted exactly when it is absent or a unique unsigned integer; `hasPID` holds exactly when the request has a `pid` member, the PID is that member's value, and it is 0 when there is none |
| RequestParsers.WriteRequests | HAP/HAPIPAccessoryProtocol.h:114-118 | a parsed write request has no more contexts than the capacity, and its `hasPID` and PID are those of the request's `pid` member, the PID 0 when none was given |
| RequestParsers.GetCharacteristicWriteRequests | HAP/HAPIPAccessoryProtocol.h:109-132 | the parser's error, count, filled prefix, `hasPID` and `pid` are those of WriteRequests; on success the array past the count is untouched, and on failure nothing is reported valid |
| RequestParsers.WriteRequestsOutcomes | HAP/HAPIPAccessoryProtocol.h:114-122 | a write request fails only with InvalidData or OutOfResources, and OutOfResources only when it is a well-shaped request with more elements than the capacity, so a malformed envelope is InvalidData; on success it yields one context per element of `characteristics`, context `k` being the parse of element `k`, every one a well-formed write, and `hasPID` holds exactly when a `pid` member exists |
| RequestParsers.WriteRequestsOutOfResources | HAP/HAPIPAccessoryProtocol.h:122 | a well-shaped write request returns OutOfResources exactly when it names more characteristics than fit and all that fit are well formed |
| RequestParsers.WriteRequestsInvalidData | HAP/HAPIPAccessoryProtocol.h:121 | a well-shaped write request returns InvalidData exactly when an element that fits is malformed |
| RequestParsers.WriteRequestsMissingId | HAP/HAPIPAccessoryProtocol.h:121 | an element that fits and lacks `aid` or `iid` makes the whole request InvalidData |
| RequestParsers.WriteRequestsSucceed | HAP/HAPIPAccessoryProtocol.h:109-132 | a request whose `characteristics` fit, are all well-formed writes and whose `pid` is absent or unsigned yields one context per element |
| RequestParsers.ParseWriteValueLiteral | HAP/HAPIPAccessoryProtocol.h:49-57 | every value other than "no value", sent as its JSON literal, parses back to itself with its tag, provided an `int32` is negative (a non-negative integer literal is read as a `uint64`) |
| RequestParsers.WritePreparation | HAP/HAPIPAccessoryProtocol.h:160-170 | a preparation fails only with InvalidData; on success `ttl` and `pid` are the request's unique members of those names |
| RequestParsers.WritePreparationComplete | HAP/HAPIPAccessoryProtocol.h:164-168 | a request with exactly one unsigned `ttl` and one unsigned `pid` is a successful preparation with those values |
| RequestParsers.FindTtlAndPid | HAP/HAPIPAccessoryProtocol.h:172-176 | one pass over the members finds `ttl` and `pid` exactly as member lookup does, duplicates included |
| RequestParsers.GetCharacteristicWritePreparation | HAP/HAPIPAccessoryProtocol.h:160-176 | the parser returns None or InvalidData, never OutOfResources; None exactly when the request is a valid preparation, and then `ttl` and `pid` are its values |
| ByteBuffers.ByteBuffer.constructor | HAP/HAPIPAccessoryProtocol.h:107 | a new buffer has the requested capacity and is empty |
| ByteBuffers.ByteBuffer.Append | HAP/HAPIPAccessoryProtocol.h:107 | an append succeeds exactly when the bytes fit, then the contents grow by exactly those bytes; otherwise it returns OutOfResources and the contents are unchanged |
| JsonText.DecimalTextValue | HAP/HAPIPAccessoryProtocol.h:40-43 | reading back the decimal numeral of an id gives the id |
| JsonText.CanonicalIsDecimalText | HAP/HAPIPAccessoryProtocol.h:40-43 | every canonical numeral is the rendering of its value, so rendering and reading are inverse |
| JsonText.DecimalWidth | HAP/HAPIPAccessoryProtocol.h:95 | the computed width of a number is the length of its numeral |
| JsonText.DecimalWidthBound | HAP/HAPIPAccessoryProtocol.h:40-43 | a number below 10^k takes at most k digits |
| JsonText.DecimalWidthUInt64 | HAP/HAPIPAccessoryProtocol.h:40-43 | the numeral of a `uint64` id has at most 20 digits |
| JsonText.SignedWidth | HAP/HAPIPAccessoryProtocol.h:46 | the computed width of a signed status or value is the length of its numeral |
| JsonText.SignedWidthInt32 | HAP/HAPIPAccessoryProtocol.h:46 | the numeral of an `int32` status has at most 11 characters, sign included |
| JsonText.JoinPrefix | HAP/HAPIPAccessoryProtocol.h:102-107 | the elements written so far are a prefix of the whole comma-separated list |
| ResponseCodecs.ValueWidth | HAP/HAPIPAccessoryProtocol.h:49-57 | the computed width of a value is the length of its rendering, for every variant |
| ResponseCodecs.HeadWidth | HAP/HAPIPAccessoryProtocol.h:40-43 | the computed width of `{"aid":…,"iid":…` is its length |
| ResponseCodecs.HeadWidthBound | HAP/HAPIPAccessoryProtocol.h:40-43 | the `{"aid":…,"iid":…` head of any element takes at most 54 bytes |
| ResponseCodecs.JoinedWidthIsLength | HAP/HAPIPAccessoryProtocol.h:95-99 | summing element widths plus one per comma gives the length of the joined elements |
| ResponseCodecs.ReadFieldsWidth | HAP/HAPIPAccessoryProtocol.h:78-83 | the computed width of the members the `type`/`perms`/`ev`/`meta` flags add is their length |
| ResponseCodecs.ReadElementWidth | HAP/HAPIPAccessoryProtocol.h:95-99 | the computed width of a read-response element is its length |
| ResponseCodecs.NumReadResponseBytes | HAP/HAPIPAccessoryProtocol.h:94-99 | the read sizer returns the length of the read response |
| ResponseCodecs.GetCharacteristicReadResponseBytes | HAP/HAPIPAccessoryProtocol.h:101-107 | the read serializer appends exactly the read response, or returns OutOfResources exactly when it does not fit, having appended a prefix of it |
| ResponseCodecs.ReadFailureSuppressesValue | HAP/HAPIPAccessoryProtocol.h:45-46 | the element of a failed read does not depend on the flags, the server or the value |
| ResponseCodecs.FailureElementWidthBound | HAP/HAPIPAccessoryProtocol.h:45-46 | the `aid`/`iid`/`status` element of a failed characteristic takes at most 76 bytes |
| ResponseCodecs.WriteElementWidth | HAP/HAPIPAccessoryProtocol.h:134-138 | the computed width of a write-response element is its length |
| ResponseCodecs.NumWriteResponseBytes | HAP/HAPIPAccessoryProtocol.h:134-138 | the write sizer returns the length of the write response |
| ResponseCodecs.GetCharacteristicWriteResponseBytes | HAP/HAPIPAccessoryProtocol.h:140-145 | the write serializer appends exactly the write response in one pass that skips silent writes, or returns OutOfResources exactly when it does not fit |
| ResponseCodecs.WriteResponseInclusion | HAP/HAPIPAccessoryProtocol.h:64-67 | a write appears in the response exactly when it failed or asked for a response |
| ResponseCodecs.WriteResponseEmpty | HAP/HAPIPAccessoryProtocol.h:134-145 | the write response is empty exactly when every write succeeded and none asked for a response |
| ResponseCodecs.IncludedStep | HAP/HAPIPAccessoryProtocol.h:140-145 | scanning one more write adds it to the response exactly when it is included, as the next included element |
| ResponseCodecs.EventElementWidth | HAP/HAPIPAccessoryProtocol.h:147-151 | the computed width of an event element is its length |
| ResponseCodecs.NumEventNotificationBytes | HAP/HAPIPAccessoryProtocol.h:147-151 | the event sizer returns the length of the event notification |
| ResponseCodecs.GetEventNotificationBytes | HAP/HAPIPAccessoryProtocol.h:153-158 | the event serializer appends exactly the event notification, or returns OutOfResources exactly when it does not fit |
| ProtocolExamples.PrepareExample | HAP/HAPIPAccessoryProtocol.h:160-176 | `{"ttl":5000,"pid":12345}` prepares with TTL 5000 and PID 12345 |
| ProtocolExamples.PrepareRejections | HAP/HAPIPAccessoryProtocol.h:169 | a preparation without `pid`, or with a string `ttl`, is InvalidData |
| ProtocolExamples.WriteElementExample | HAP/HAPIPAccessoryProtocol.h:59-72 | the element `{"aid":1,"iid":2,"value":42}` is an unsigned write of 42 with no `ev` change, not remote, no response |
| ProtocolExamples.WriteRequestExample | HAP/HAPIPAccessoryProtocol.h:109-132 | a request with that one write and room for four yields that one context and no PID |
| ProtocolExamples.WriteRequestNoCapacity | HAP/HAPIPAccessoryProtocol.h:122 | the same request with no room is OutOfResources |
| ProtocolExamples.ReadRequestExample | HAP/HAPIPAccessoryProtocol.h:86-92 | `{"id":[{"aid":1,"iid":1}],"ev":1}` with room for one context is a read of characteristic 1.1 with only the `ev` flag on |
| ProtocolExamples.ReadElementExample | HAP/HAPIPAccessoryProtocol.h:94-107 | the successful read of 1.1 holding the `int32` 1, with `ev` requested and notifications on, is `{"aid":1,"iid":1,"value":1,"ev":true}` |
| ProtocolExamples.ReadResponseExample | HAP/HAPIPAccessoryProtocol.h:94-107 | its read response is `{"characteristics":[{"aid":1,"iid":1,"value":1,"ev":true}]}` |
| ProtocolExamples.EventElementExample | HAP/HAPIPAccessoryProtocol.h:147-158 | the event element of characteristic 1.2 holding 42 is `{"aid":1,"iid":2,"value":42}` |
| ProtocolExamples.EventExample | HAP/HAPIPAccessoryProtocol.h:147-158 | its event notification is `{"characteristics":[{"aid":1,"iid":2,"value":42}]}` |

## Left out

- The JSON tokenizer and the URL query parser of read requests are not part of this model. The
  parsers take an already-tokenised tree, and a read request is an object whose `id` member lists
  the `{"aid","iid"}` pairs and whose other members are the optional flags.
- Float formatting and string quoting/escaping are not part of this model. They are the injected
  `Renderer`, shared by the sizers and the serializers. Floats are opaque 32-bit patterns.
- The `authData` member is kept as the string sent; its base64 decoding is not modelled.
- GetCharacteristicWriteRequests, GetCharacteristicReadRequests: on failure, entries of the context
  array before the failing element may already have been overwritten; the model says only that no
  entry is reported valid.
- The accessory server is the injected `Server.describe`, which gives the rendered `type`, `perms`
  and metadata members of a characteristic. Reading live values and status happens between parse
  and serialize and is not modelled: the contexts arrive with `status` and `value` already set. The
  C write and event codecs take the server too (HAP/HAPIPAccessoryProtocol.h:135-158); the model's
  write and event codecs take no server, and any lookup they make through it is not modelled.
- The PID/TTL reservation table and its expiry are not modelled; the prepare parser only returns
  the two integers.
- HTTP/TLS framing, connections and sessions; the `HAP_STATIC_ASSERT` size check; the nullability
  pragmas and `extern "C"` guards.
- The `kHAPIPAccessoryProtocolAID_PrimaryAccessory` and `kHAPIPAccessoryProtocolIID_AccessoryInformation`
  constants (HAP/HAPIPAccessoryProtocol.h:20-22) are not used by any modelled operation.
- NumReadResponseBytes, NumWriteResponseBytes, NumEventNotificationBytes: return an unbounded `nat`,
  so a `size_t` overflow of the count is not modelled.
- NumReadResponseBytes, NumWriteResponseBytes, NumEventNotificationBytes: take the valid contexts
  as a sequence, where the C functions take an array and a count.
- The C value union (HAP/HAPIPAccessoryProtocol.h:49-57) is untagged and can be read through any
  member. Only a write context has a tag for it (:64); for a read or event context the C code takes
  the variant from outside the context. In the model every `Value` carries its variant, read and
  event contexts included, and can only be read through it.
- String values and authorization data are `char*` plus length in C (:54-55, :69-70). The read and
  write parsers take a mutable request buffer (:87, :126), so these likely point into it. The model
  copies them as character sequences; the aliasing into the request buffer and the byte-level
  representation are not modelled.
