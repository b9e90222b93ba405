/** The three size/serialize pairs of the IP accessory protocol: read responses, write responses and
    event notifications (HAP/HAPIPAccessoryProtocol.h:94-107, 134-145, 147-158). Each response is
    defined once as the bytes it consists of; each sizer computes the byte count from widths without
    rendering and is proved equal to the length of those bytes, and each serializer appends exactly
    those bytes to a buffer of fixed capacity, or reports OutOfResources. */
module ResponseCodecs {
  import opened HAPTypes
  import opened JsonTree
  import opened CharacteristicContext
  import opened JsonText
  import opened ByteBuffers

  /** What the accessory server knows about a characteristic besides its value, already rendered:
      the `type` UUID string, the `perms` array and the metadata members, which start with the
      `"format"` member every characteristic has. */
  datatype Description = Description(typeText: seq<byte>, permsText: seq<byte>, metaText: seq<byte>)

  /** The accessory server, reduced to the lookup the read codec makes. */
  datatype Server = Server(describe: (uint64, uint64) -> Description)

  /** Rendering of float and string values (number formatting, quoting and escaping), shared by the
      sizers and the serializers. */
  datatype Renderer = Renderer(floatText: Float32 -> seq<byte>, stringText: string -> seq<byte>)

  // ---------------------------------------------------------------------------------------------
  // Fragments

  const AidKey: seq<byte> := Ascii("{\"aid\":")
  const IidKey: seq<byte> := Ascii(",\"iid\":")
  const StatusKey: seq<byte> := Ascii(",\"status\":")
  const ValueKey: seq<byte> := Ascii(",\"value\":")
  const TypeKey: seq<byte> := Ascii(",\"type\":")
  const PermsKey: seq<byte> := Ascii(",\"perms\":")
  const EvKey: seq<byte> := Ascii(",\"ev\":")
  const EndObject: seq<byte> := Ascii("}")
  const NullText: seq<byte> := Ascii("null")
  const TrueText: seq<byte> := Ascii("true")
  const FalseText: seq<byte> := Ascii("false")

  function ValueText(renderer: Renderer, v: Value): seq<byte>
  {
    match v
    case NoValue => NullText
    case IntValue(i) => SignedText(i)
    case UnsignedIntValue(u) => DecimalText(u)
    case FloatValue(f) => renderer.floatText(f)
    case StringValue(s) => renderer.stringText(s)
  }

  /** The width of ValueText; float and string widths are those of the shared renderer. */
  function ValueWidth(renderer: Renderer, v: Value): (w: nat)
    ensures w == |ValueText(renderer, v)|
  {
    match v
    case NoValue => 4
    case IntValue(i) => SignedWidth(i)
    case UnsignedIntValue(u) => DecimalWidth(u)
    case FloatValue(f) => |renderer.floatText(f)|
    case StringValue(s) => |renderer.stringText(s)|
  }

  function BoolText(b: bool): seq<byte>
  {
    if b then TrueText else FalseText
  }

  /** `{"aid":<aid>,"iid":<iid>`, the head of every element. */
  function Head(c: Context): seq<byte>
  {
    AidKey + DecimalText(c.aid) + IidKey + DecimalText(c.iid)
  }

  function HeadWidth(c: Context): (w: nat)
    ensures w == |Head(c)|
  {
    |AidKey| + DecimalWidth(c.aid) + |IidKey| + DecimalWidth(c.iid)
  }

  /** The head of an element takes at most 54 bytes, whatever the ids. */
  lemma HeadWidthBound(c: Context)
    ensures HeadWidth(c) <= |AidKey| + 20 + |IidKey| + 20 == 54
  {
    DecimalWidthUInt64(c.aid);
    DecimalWidthUInt64(c.iid);
  }

  /** The element for a failed read or write takes at most 76 bytes: head, status and brace. */
  lemma FailureElementWidthBound(c: Context)
    ensures HeadWidth(c) + |StatusKey| + SignedWidth(c.status) + |EndObject| <= 76
  {
    HeadWidthBound(c);
    SignedWidthInt32(c.status);
  }

  // ---------------------------------------------------------------------------------------------
  // Lists of elements

  function Rendered(cs: seq<Context>, render: Context -> seq<byte>): (items: seq<seq<byte>>)
    ensures |items| == |cs|
    ensures forall k | 0 <= k < |cs| :: items[k] == render(cs[k])
  {
    seq(|cs|, k requires 0 <= k < |cs| => render(cs[k]))
  }

  /** The width of the comma-separated elements, summed element by element. */
  function JoinedWidth(cs: seq<Context>, width: Context -> nat): nat
  {
    if cs == [] then 0
    else JoinedWidth(cs[..|cs| - 1], width) + (if |cs| > 1 then 1 else 0) + width(cs[|cs| - 1])
  }

  lemma {:induction false} JoinedWidthIsLength(cs: seq<Context>, render: Context -> seq<byte>, width: Context -> nat)
    requires forall c :: width(c) == |render(c)|
    ensures JoinedWidth(cs, width) == |Join(Rendered(cs, render))|
  {
    if cs != [] {
      var init := cs[..|cs| - 1];
      JoinedWidthIsLength(init, render, width);
      assert Rendered(cs, render)[..|cs| - 1] == Rendered(init, render);
    }
  }

  /** The output up to element `j`, followed by its separator and then by the element itself, is
      still a prefix of the whole body. */
  lemma ItemWithinBody(items: seq<seq<byte>>, j: nat)
    requires j < |items|
    ensures Open + Join(items[..j]) + (if j == 0 then [] else [Comma]) <= Body(items)
    ensures Open + Join(items[..j]) + (if j == 0 then [] else [Comma]) + items[j] <= Body(items)
  {
    JoinStep(items, j);
    JoinPrefix(items, j + 1);
    var done := Join(items[..j + 1]);
    assert Body(items) == Open + done + (Join(items)[|done|..] + Close);
  }

  /** What a serializer promises: it either appends `out` whole, or reports OutOfResources, which
      it does exactly when `out` does not fit, having appended a prefix of `out`. */
  ghost predicate AppendedOrFailed(before: seq<byte>, after: seq<byte>, capacity: nat, out: seq<byte>, err: HAPError)
  {
    && (err == None || err == OutOfResources)
    && (err == None <==> |before| + |out| <= capacity)
    && (err == None ==> after == before + out)
    && before <= after <= before + out
  }

  /** Appends the next `fragment` of `out`, of which `done` has been written after `before`. */
  method AppendPart(buffer: ByteBuffer, fragment: seq<byte>, ghost before: seq<byte>, ghost done: seq<byte>,
                    ghost out: seq<byte>)
    returns (err: HAPError)
    requires buffer.Valid() && buffer.Contents() == before + done && done + fragment <= out
    modifies buffer, buffer.data
    ensures buffer.Valid()
    ensures err == None ==> buffer.Contents() == before + (done + fragment)
    ensures err != None ==> AppendedOrFailed(before, buffer.Contents(), buffer.data.Length, out, err)
  {
    err := buffer.Append(fragment);
    assert (done + fragment)[..|done|] == done;
    assert before + out == (before + done) + out[|done|..];
  }

  /** Finishes a serializer whose whole output has been appended. */
  lemma Appended(buffer: ByteBuffer, before: seq<byte>, out: seq<byte>)
    requires buffer.Valid() && buffer.Contents() == before + out
    ensures AppendedOrFailed(before, buffer.Contents(), buffer.data.Length, out, None)
  {
  }

  /** Appends element `i` of `items`, preceded by a comma unless it is the first. */
  method AppendItem(buffer: ByteBuffer, item: seq<byte>, ghost items: seq<seq<byte>>, i: nat, ghost before: seq<byte>)
    returns (err: HAPError)
    requires i < |items| && items[i] == item
    requires buffer.Valid() && buffer.Contents() == before + (Open + Join(items[..i]))
    modifies buffer, buffer.data
    ensures buffer.Valid()
    ensures err == None ==> buffer.Contents() == before + (Open + Join(items[..i + 1]))
    ensures err != None ==> AppendedOrFailed(before, buffer.Contents(), buffer.data.Length, Body(items), err)
  {
    ghost var done := Open + Join(items[..i]);
    ghost var separator: seq<byte> := if i == 0 then [] else [Comma];
    ItemWithinBody(items, i);
    JoinStep(items, i);
    assert Open + Join(items[..i + 1]) == done + separator + item;
    if i > 0 {
      err := AppendPart(buffer, [Comma], before, done, Body(items));
      if err != None {
        return;
      }
    } else {
      assert done + separator == done;
    }
    err := AppendPart(buffer, item, before, done + separator, Body(items));
  }

  /** Appends `{"characteristics":[e0,e1,...]}` with one element per context. */
  method AppendBody(contexts: array<Context>, n: nat, render: Context -> seq<byte>, buffer: ByteBuffer)
    returns (err: HAPError)
    requires n <= contexts.Length && buffer.Valid()
    modifies buffer, buffer.data
    ensures buffer.Valid()
    ensures AppendedOrFailed(old(buffer.Contents()), buffer.Contents(), buffer.data.Length,
                             Body(Rendered(contexts[..n], render)), err)
  {
    ghost var before := buffer.Contents();
    ghost var items := Rendered(contexts[..n], render);
    assert [] + Open <= Body(items);
    err := AppendPart(buffer, Open, before, [], Body(items));
    if err != None {
      return;
    }
    var i := 0;
    while i < n
      invariant i <= n && buffer.Valid()
      invariant buffer.Contents() == before + (Open + Join(items[..i]))
    {
      err := AppendItem(buffer, render(contexts[i]), items, i, before);
      if err != None {
        return;
      }
      i := i + 1;
    }
    assert items[..n] == items;
    err := AppendPart(buffer, Close, before, Open + Join(items), Body(items));
    if err == None {
      Appended(buffer, before, Body(items));
    }
  }

  // ---------------------------------------------------------------------------------------------
  // Read responses (HAP/HAPIPAccessoryProtocol.h:94-107)

  /** The members a successful read adds after its value, as the batch-wide flags select them. */
  function ReadFields(server: Server, parameters: ReadRequestParameters, c: Context): seq<byte>
  {
    var d := server.describe(c.aid, c.iid);
    (if parameters.typ then TypeKey + d.typeText else [])
    + (if parameters.perms then PermsKey + d.permsText else [])
    + (if parameters.ev then EvKey + BoolText(c.access.Read? && c.access.ev) else [])
    + (if parameters.meta then [Comma] + d.metaText else [])
  }

  function ReadFieldsWidth(server: Server, parameters: ReadRequestParameters, c: Context): (w: nat)
    ensures w == |ReadFields(server, parameters, c)|
  {
    var d := server.describe(c.aid, c.iid);
    (if parameters.typ then |TypeKey| + |d.typeText| else 0)
    + (if parameters.perms then |PermsKey| + |d.permsText| else 0)
    + (if parameters.ev then |EvKey| + (if c.access.Read? && c.access.ev then 4 else 5) else 0)
    + (if parameters.meta then 1 + |d.metaText| else 0)
  }

  /** One element of a read response. A failed read carries only `aid`, `iid` and `status`; a
      successful one carries the value and the optional fields the batch-wide flags select. */
  function ReadElement(server: Server, renderer: Renderer, parameters: ReadRequestParameters, c: Context)
    : seq<byte>
  {
    if c.status != 0 then Head(c) + StatusKey + SignedText(c.status) + EndObject
    else Head(c) + ValueKey + ValueText(renderer, c.value) + ReadFields(server, parameters, c) + EndObject
  }

  function ReadElementWidth(server: Server, renderer: Renderer, parameters: ReadRequestParameters, c: Context)
    : (w: nat)
    ensures w == |ReadElement(server, renderer, parameters, c)|
  {
    if c.status != 0 then HeadWidth(c) + |StatusKey| + SignedWidth(c.status) + |EndObject|
    else HeadWidth(c) + |ValueKey| + ValueWidth(renderer, c.value) + ReadFieldsWidth(server, parameters, c) + |EndObject|
  }

  /** The read response body. */
  function ReadResponse(server: Server, renderer: Renderer, readContexts: seq<Context>,
                        parameters: ReadRequestParameters): seq<byte>
  {
    Body(Rendered(readContexts, c => ReadElement(server, renderer, parameters, c)))
  }

  /** `HAPIPAccessoryProtocolGetNumCharacteristicReadResponseBytes`. */
  function NumReadResponseBytes(server: Server, renderer: Renderer, readContexts: seq<Context>,
                                parameters: ReadRequestParameters): (n: nat)
    ensures n == |ReadResponse(server, renderer, readContexts, parameters)|
  {
    JoinedWidthIsLength(readContexts, c => ReadElement(server, renderer, parameters, c),
                        c => ReadElementWidth(server, renderer, parameters, c));
    |Open| + JoinedWidth(readContexts, c => ReadElementWidth(server, renderer, parameters, c)) + |Close|
  }

  /** `HAPIPAccessoryProtocolGetCharacteristicReadResponseBytes`. */
  method GetCharacteristicReadResponseBytes(server: Server, renderer: Renderer, readContexts: array<Context>,
                                            numReadContexts: nat, parameters: ReadRequestParameters,
                                            buffer: ByteBuffer)
    returns (err: HAPError)
    requires numReadContexts <= readContexts.Length && buffer.Valid()
    modifies buffer, buffer.data
    ensures buffer.Valid()
    ensures AppendedOrFailed(old(buffer.Contents()), buffer.Contents(), buffer.data.Length,
                             ReadResponse(server, renderer, readContexts[..numReadContexts], parameters), err)
  {
    err := AppendBody(readContexts, numReadContexts, c => ReadElement(server, renderer, parameters, c), buffer);
  }

  /** A failed read reports the same element whatever the flags, the server and the value say. */
  lemma ReadFailureSuppressesValue(server: Server, renderer: Renderer, parameters: ReadRequestParameters,
                                   server': Server, renderer': Renderer, parameters': ReadRequestParameters,
                                   c: Context, v: Value)
    requires c.status != 0
    ensures ReadElement(server, renderer, parameters, c) == ReadElement(server', renderer', parameters', c.(value := v))
  {
  }

  // ---------------------------------------------------------------------------------------------
  // Write responses (HAP/HAPIPAccessoryProtocol.h:134-145)

  /** A write appears in the response when it failed or when the controller asked for a response. */
  predicate Included(c: Context)
  {
    c.status != 0 || (c.access.Write? && c.access.response)
  }

  /** The writes that appear in the response, in order. */
  function IncludedContexts(cs: seq<Context>): (r: seq<Context>)
    ensures |r| <= |cs|
  {
    if cs == [] then []
    else
      var init := IncludedContexts(cs[..|cs| - 1]);
      if Included(cs[|cs| - 1]) then init + [cs[|cs| - 1]] else init
  }

  lemma {:induction false} IncludedPrefix(cs: seq<Context>, i: nat)
    requires i <= |cs|
    ensures IncludedContexts(cs[..i]) <= IncludedContexts(cs)
    decreases |cs|
  {
    if i < |cs| {
      var init := cs[..|cs| - 1];
      assert init[..i] == cs[..i];
      IncludedPrefix(init, i);
    } else {
      assert cs[..i] == cs;
    }
  }

  /** Scanning one more write adds it to the included ones exactly when it is included, and then it
      is the next of all the included writes. */
  lemma IncludedStep(cs: seq<Context>, i: nat)
    requires i < |cs|
    ensures |IncludedContexts(cs[..i + 1])| == |IncludedContexts(cs[..i])| + (if Included(cs[i]) then 1 else 0)
    ensures Included(cs[i]) ==>
      |IncludedContexts(cs[..i])| < |IncludedContexts(cs)| && IncludedContexts(cs)[|IncludedContexts(cs[..i])|] == cs[i]
  {
    assert cs[..i + 1][..i] == cs[..i];
    IncludedPrefix(cs, i + 1);
  }

  /** One element of a write response: the status, and the value read back when a successful write
      asked for a response. */
  function WriteElement(renderer: Renderer, c: Context): seq<byte>
  {
    Head(c) + StatusKey + SignedText(c.status)
    + (if c.status == 0 && c.access.Write? && c.access.response then ValueKey + ValueText(renderer, c.value)
       else [])
    + EndObject
  }

  function WriteElementWidth(renderer: Renderer, c: Context): (w: nat)
    ensures w == |WriteElement(renderer, c)|
  {
    HeadWidth(c) + |StatusKey| + SignedWidth(c.status)
    + (if c.status == 0 && c.access.Write? && c.access.response then |ValueKey| + ValueWidth(renderer, c.value)
       else 0)
    + |EndObject|
  }

  /** The write response body: empty when every write succeeded without asking for a response. */
  function WriteResponse(renderer: Renderer, writeContexts: seq<Context>): seq<byte>
  {
    var included := IncludedContexts(writeContexts);
    if included == [] then [] else Body(Rendered(included, c => WriteElement(renderer, c)))
  }

  /** `HAPIPAccessoryProtocolGetNumCharacteristicWriteResponseBytes`. */
  function NumWriteResponseBytes(renderer: Renderer, writeContexts: seq<Context>): (n: nat)
    ensures n == |WriteResponse(renderer, writeContexts)|
  {
    var included := IncludedContexts(writeContexts);
    if included == [] then 0
    else
      JoinedWidthIsLength(included, c => WriteElement(renderer, c), c => WriteElementWidth(renderer, c));
      |Open| + JoinedWidth(included, c => WriteElementWidth(renderer, c)) + |Close|
  }

  /** Appends the next included write: the envelope's opening before the first one, a comma before
      any other. */
  method AppendIncluded(buffer: ByteBuffer, item: seq<byte>, ghost all: seq<seq<byte>>, count: nat,
                        ghost before: seq<byte>)
    returns (err: HAPError)
    requires count < |all| && all[count] == item
    requires buffer.Valid() && buffer.Contents() == before + WrittenSoFar(all, count)
    modifies buffer, buffer.data
    ensures buffer.Valid()
    ensures err == None ==> buffer.Contents() == before + WrittenSoFar(all, count + 1)
    ensures err != None ==> AppendedOrFailed(before, buffer.Contents(), buffer.data.Length, Body(all), err)
  {
    if count == 0 {
      ItemWithinBody(all, 0);
      assert [] + Open <= Body(all);
      err := AppendPart(buffer, Open, before, [], Body(all));
      if err != None {
        return;
      }
      assert all[..0] == [];
    }
    err := AppendItem(buffer, item, all, count, before);
  }

  /** What the write codec has appended once `count` writes were found to be included. */
  function WrittenSoFar(all: seq<seq<byte>>, count: nat): seq<byte>
    requires count <= |all|
  {
    if count == 0 then [] else Open + Join(all[..count])
  }

  /** One step of the scan: appends `cs[i]` when it is included. */
  method ScanWrite(renderer: Renderer, c: Context, ghost cs: seq<Context>, i: nat, count: nat,
                   ghost all: seq<seq<byte>>, buffer: ByteBuffer, ghost before: seq<byte>)
    returns (err: HAPError, count': nat)
    requires i < |cs| && cs[i] == c
    requires all == Rendered(IncludedContexts(cs), c => WriteElement(renderer, c))
    requires count == |IncludedContexts(cs[..i])| <= |all|
    requires buffer.Valid() && buffer.Contents() == before + WrittenSoFar(all, count)
    modifies buffer, buffer.data
    ensures buffer.Valid()
    ensures err == None ==> count' == |IncludedContexts(cs[..i + 1])| <= |all|
    ensures err == None ==> buffer.Contents() == before + WrittenSoFar(all, count')
    ensures err != None ==> all != [] && AppendedOrFailed(before, buffer.Contents(), buffer.data.Length, Body(all), err)
  {
    IncludedStep(cs, i);
    count' := count;
    err := None;
    if Included(c) {
      err := AppendIncluded(buffer, WriteElement(renderer, c), all, count, before);
      if err != None {
        return;
      }
      count' := count + 1;
    }
  }

  /** `HAPIPAccessoryProtocolGetCharacteristicWriteResponseBytes`: one pass over the writes, skipping
      the ones that do not appear. */
  method GetCharacteristicWriteResponseBytes(renderer: Renderer, writeContexts: array<Context>,
                                             numWriteContexts: nat, buffer: ByteBuffer)
    returns (err: HAPError)
    requires numWriteContexts <= writeContexts.Length && buffer.Valid()
    modifies buffer, buffer.data
    ensures buffer.Valid()
    ensures AppendedOrFailed(old(buffer.Contents()), buffer.Contents(), buffer.data.Length,
                             WriteResponse(renderer, writeContexts[..numWriteContexts]), err)
  {
    ghost var before := buffer.Contents();
    ghost var cs := writeContexts[..numWriteContexts];
    ghost var all := Rendered(IncludedContexts(cs), c => WriteElement(renderer, c));
    var count := 0;
    var i := 0;
    while i < numWriteContexts
      invariant i <= numWriteContexts && buffer.Valid()
      invariant count == |IncludedContexts(cs[..i])| <= |all|
      invariant buffer.Contents() == before + WrittenSoFar(all, count)
    {
      err, count := ScanWrite(renderer, writeContexts[i], cs, i, count, all, buffer, before);
      if err != None {
        return;
      }
      i := i + 1;
    }
    assert cs[..i] == cs;
    err := FinishWrites(renderer, cs, count, all, buffer, before);
  }

  /** Closes the envelope after the scan, when anything was included. */
  method FinishWrites(renderer: Renderer, ghost cs: seq<Context>, count: nat, ghost all: seq<seq<byte>>,
                      buffer: ByteBuffer, ghost before: seq<byte>)
    returns (err: HAPError)
    requires all == Rendered(IncludedContexts(cs), c => WriteElement(renderer, c))
    requires count == |IncludedContexts(cs)| == |all|
    requires buffer.Valid() && buffer.Contents() == before + WrittenSoFar(all, count)
    modifies buffer, buffer.data
    ensures buffer.Valid()
    ensures AppendedOrFailed(before, buffer.Contents(), buffer.data.Length, WriteResponse(renderer, cs), err)
  {
    ghost var out := WriteResponse(renderer, cs);
    if count > 0 {
      assert all[..count] == all;
      err := AppendPart(buffer, Close, before, Open + Join(all), out);
      if err == None {
        Appended(buffer, before, out);
      }
    } else {
      err := None;
      Appended(buffer, before, out);
    }
  }

  /** A write is absent from the response exactly when it succeeded and asked for no response. */
  lemma {:induction false} WriteResponseInclusion(writeContexts: seq<Context>, c: Context)
    ensures c in IncludedContexts(writeContexts) <==>
      c in writeContexts && (c.status != 0 || (c.access.Write? && c.access.response))
  {
    if writeContexts != [] {
      var init := writeContexts[..|writeContexts| - 1];
      WriteResponseInclusion(init, c);
      assert writeContexts == init + [writeContexts[|writeContexts| - 1]];
    }
  }

  /** The body is empty exactly when every write succeeded silently. */
  lemma WriteResponseEmpty(renderer: Renderer, writeContexts: seq<Context>)
    ensures WriteResponse(renderer, writeContexts) == [] <==>
      forall k | 0 <= k < |writeContexts| :: writeContexts[k].status == 0 &&
        !(writeContexts[k].access.Write? && writeContexts[k].access.response)
  {
    var included := IncludedContexts(writeContexts);
    if included != [] {
      WriteResponseInclusion(writeContexts, included[0]);
      assert |Body(Rendered(included, c => WriteElement(renderer, c)))| > 0;
    } else {
      forall k | 0 <= k < |writeContexts|
        ensures writeContexts[k].status == 0 && !(writeContexts[k].access.Write? && writeContexts[k].access.response)
      {
        WriteResponseInclusion(writeContexts, writeContexts[k]);
      }
    }
  }

  // ---------------------------------------------------------------------------------------------
  // Event notifications (HAP/HAPIPAccessoryProtocol.h:147-158)

  /** One element of an event notification: always `aid`, `iid` and the value, nothing else. */
  function EventElement(renderer: Renderer, c: Context): seq<byte>
  {
    Head(c) + ValueKey + ValueText(renderer, c.value) + EndObject
  }

  function EventElementWidth(renderer: Renderer, c: Context): (w: nat)
    ensures w == |EventElement(renderer, c)|
  {
    HeadWidth(c) + |ValueKey| + ValueWidth(renderer, c.value) + |EndObject|
  }

  /** The event notification body. */
  function EventNotification(renderer: Renderer, readContexts: seq<Context>): seq<byte>
  {
    Body(Rendered(readContexts, c => EventElement(renderer, c)))
  }

  /** `HAPIPAccessoryProtocolGetNumEventNotificationBytes`. */
  function NumEventNotificationBytes(renderer: Renderer, readContexts: seq<Context>): (n: nat)
    ensures n == |EventNotification(renderer, readContexts)|
  {
    JoinedWidthIsLength(readContexts, c => EventElement(renderer, c), c => EventElementWidth(renderer, c));
    |Open| + JoinedWidth(readContexts, c => EventElementWidth(renderer, c)) + |Close|
  }

  /** `HAPIPAccessoryProtocolGetEventNotificationBytes`. */
  method GetEventNotificationBytes(renderer: Renderer, readContexts: array<Context>, numReadContexts: nat,
                                   buffer: ByteBuffer)
    returns (err: HAPError)
    requires numReadContexts <= readContexts.Length && buffer.Valid()
    modifies buffer, buffer.data
    ensures buffer.Valid()
    ensures AppendedOrFailed(old(buffer.Contents()), buffer.Contents(), buffer.data.Length,
                             EventNotification(renderer, readContexts[..numReadContexts]), err)
  {
    err := AppendBody(readContexts, numReadContexts, c => EventElement(renderer, c), buffer);
  }
}
