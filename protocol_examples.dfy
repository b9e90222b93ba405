/** Worked exchanges of the IP accessory protocol, stated as lemmas about the model. */
module ProtocolExamples {
  import opened HAPTypes
  import opened JsonTree
  import opened JsonText
  import opened CharacteristicContext
  import opened RequestParsers
  import opened ResponseCodecs

  /** `{"ttl":5000,"pid":12345}` prepares a timed write. */
  lemma PrepareExample()
    ensures WritePreparation(Object([Member("ttl", Number(Integer(5000))), Member("pid", Number(Integer(12345)))]))
      == Ok(Preparation(5000, 12345))
  {
    var m := [Member("ttl", Number(Integer(5000))), Member("pid", Number(Integer(12345)))];
    assert Find(m, "ttl") == Present(Number(Integer(5000)));
    assert Find(m, "pid") == Present(Number(Integer(12345)));
  }

  /** A preparation without `pid`, or with a `ttl` that is not a number, is malformed. */
  lemma PrepareRejections()
    ensures WritePreparation(Object([Member("ttl", Number(Integer(5000)))])) == Err(InvalidData)
    ensures WritePreparation(Object([Member("ttl", String("5000")), Member("pid", Number(Integer(1)))]))
      == Err(InvalidData)
  {
    assert Find([Member("ttl", Number(Integer(5000)))], "pid") == Absent;
  }

  /** The members of a write of 42 to characteristic 1.2 that asks for no response. */
  function WriteOf42(): seq<Member>
  {
    [Member("aid", Number(Integer(1))), Member("iid", Number(Integer(2))), Member("value", Number(Integer(42)))]
  }

  lemma WriteOf42Lookups()
    ensures Find(WriteOf42(), "aid") == Present(Number(Integer(1)))
    ensures Find(WriteOf42(), "iid") == Present(Number(Integer(2)))
    ensures Find(WriteOf42(), "value") == Present(Number(Integer(42)))
  {
    var m := WriteOf42();
    assert m[..1] == [m[0]] && m[..2] == [m[0], m[1]];
    FindStep(m, 0, "aid");
    FindStep(m, 1, "aid");
    FindStep(m, 0, "iid");
    FindStep(m, 1, "iid");
    FindStep(m, 0, "value");
    FindStep(m, 1, "value");
    assert m[..3] == m;
    FindStep(m, 2, "aid");
    FindStep(m, 2, "iid");
    FindStep(m, 2, "value");
  }

  /** No key of a length other than those of `aid`, `iid` and `value` occurs in the write. */
  lemma WriteOf42Absent(key: string)
    requires |key| != 3 && |key| != 5
    ensures Find(WriteOf42(), key) == Absent
  {
    var m := WriteOf42();
    assert |m[0].key| == 3 && |m[1].key| == 3 && |m[2].key| == 5;
  }

  lemma WriteOf42Fields()
    ensures RequiredUInt64(WriteOf42(), "aid") == Ok(1) && RequiredUInt64(WriteOf42(), "iid") == Ok(2)
    ensures ParseWriteChange(WriteOf42()) == Ok((UnsignedIntValue(42), Undefined))
  {
    WriteOf42Lookups();
    RequiredFromFind(WriteOf42(), "aid", 1);
    RequiredFromFind(WriteOf42(), "iid", 2);
    WriteOf42Change();
  }

  lemma WriteOf42Change()
    ensures ParseWriteChange(WriteOf42()) == Ok((UnsignedIntValue(42), Undefined))
  {
    WriteOf42Lookups();
    WriteOf42Absent("ev");
  }

  lemma WriteOf42Options()
    ensures ParseWriteOptions(WriteOf42()) == Ok((false, false, ""))
  {
    WriteOf42Absent("remote");
    WriteOf42Absent("response");
    WriteOf42Absent("authData");
  }

  lemma WriteElementExample()
    ensures ParseWriteContext(Object(WriteOf42())) == Ok(Context(1, 2, 0, UnsignedIntValue(42), Write(Undefined, false, false, "")))
  {
    WriteOf42Fields();
    WriteOf42Options();
  }

  /** The whole PUT /characteristic request around that write. */
  lemma WriteRequestExample()
    ensures WriteRequests(Object([Member("characteristics", Array([Object(WriteOf42())]))]), 4)
      == Ok(WriteBatch([Context(1, 2, 0, UnsignedIntValue(42), Write(Undefined, false, false, ""))], false, 0))
  {
    WriteElementExample();
    SingleElement(Object(WriteOf42()), 4, ParseWriteContext,
                  Context(1, 2, 0, UnsignedIntValue(42), Write(Undefined, false, false, "")));
    WriteOf42Request();
  }

  lemma WriteOf42Request()
    ensures RequiredArray([Member("characteristics", Array([Object(WriteOf42())]))], "characteristics")
      == Ok([Object(WriteOf42())])
    ensures OptionalPID([Member("characteristics", Array([Object(WriteOf42())]))]) == Ok((false, 0))
  {
    var request := [Member("characteristics", Array([Object(WriteOf42())]))];
    assert Find(request, "characteristics") == Present(Array([Object(WriteOf42())]));
    assert Find(request, "pid") == Absent;
  }

  /** The same request, with no context to hold the write. */
  lemma WriteRequestNoCapacity()
    ensures WriteRequests(Object([Member("characteristics", Array([Object(WriteOf42())]))]), 0) == Err(OutOfResources)
  {
    WriteOf42Request();
  }

  /** The element for characteristic 1.2 holding 42. */
  lemma EventElementExample(renderer: Renderer)
    ensures EventElement(renderer, Context(1, 2, 0, IntValue(42), Read(true)))
      == Ascii("{\"aid\":1,\"iid\":2") + Ascii(",\"value\":42}")
  {
    assert DecimalText(42) == DecimalText(4) + [Zero + 2];
    assert Ascii("{\"aid\":1,\"iid\":2") == AidKey + [Zero + 1] + IidKey + [Zero + 2];
    assert Ascii(",\"value\":42}") == ValueKey + [Zero + 4, Zero + 2] + EndObject;
  }

  /** The event notification for characteristic 1.2 holding 42. */
  lemma EventExample(renderer: Renderer)
    ensures EventNotification(renderer, [Context(1, 2, 0, IntValue(42), Read(true))])
      == Ascii("{\"characteristics\":[") + Ascii("{\"aid\":1,\"iid\":2") + Ascii(",\"value\":42}") + Ascii("]}")
  {
    var c := Context(1, 2, 0, IntValue(42), Read(true));
    var item := EventElement(renderer, c);
    EventElementExample(renderer);
    assert Rendered([c], x => EventElement(renderer, x)) == [item];
    assert Join([item]) == item;
  }

  /** The read request `id=1.1&ev=1`, tokenised. */
  function ReadOf11(): Json
  {
    Object([Member("id", Array([Object([Member("aid", Number(Integer(1))), Member("iid", Number(Integer(1)))])])),
            Member("ev", Number(Integer(1)))])
  }

  lemma ReadRequestExample()
    ensures ReadRequests(ReadOf11(), 1)
      == Ok(ReadBatch([Context(1, 1, 0, NoValue, Read(false))], ReadRequestParameters(false, false, false, true)))
  {
    var element := Object([Member("aid", Number(Integer(1))), Member("iid", Number(Integer(1)))]);
    ParseReadContextComplete(element, 1, 1);
    SingleElement(element, 1, ParseReadContext, Context(1, 1, 0, NoValue, Read(false)));
    ReadOf11Flags();
    assert Find(ReadOf11().members, "id") == Present(Array([element]));
  }

  lemma ReadOf11Flags()
    ensures ReadRequestParametersOf(ReadOf11().members) == Ok(ReadRequestParameters(false, false, false, true))
  {
    var m := ReadOf11().members;
    assert |m[0].key| == 2 && |m[1].key| == 2;
  }

  /** A batch of one well-formed element, with room for it. */
  lemma SingleElement(element: Json, max: nat, parse: Json -> Result<Context>, c: Context)
    requires max >= 1 && parse(element) == Ok(c)
    ensures ParseBounded([element], max, parse) == Ok([c])
  {
    assert [element][1..] == [];
    assert ParseBounded([], max - 1, parse) == Ok([]);
    assert [c] + [] == [c];
  }

  /** The element for characteristic 1.1 holding 1 with notifications enabled, when `ev` is asked. */
  lemma ReadElementExample(server: Server, renderer: Renderer)
    ensures ReadElement(server, renderer, ReadRequestParameters(false, false, false, true), Context(1, 1, 0, IntValue(1), Read(true)))
      == Ascii("{\"aid\":1,\"iid\":1") + Ascii(",\"value\":1,\"ev\":true}")
  {
    var c := Context(1, 1, 0, IntValue(1), Read(true));
    var parameters := ReadRequestParameters(false, false, false, true);
    assert ReadFields(server, parameters, c) == EvKey + TrueText;
    assert ValueText(renderer, c.value) == [Zero + 1];
    assert Head(c) == AidKey + [Zero + 1] + IidKey + [Zero + 1];
    ReadElementText();
  }

  lemma ReadElementText()
    ensures Ascii("{\"aid\":1,\"iid\":1") == AidKey + [Zero + 1] + IidKey + [Zero + 1]
    ensures Ascii(",\"value\":1,\"ev\":true}") == ValueKey + [Zero + 1] + (EvKey + TrueText) + EndObject
  {
  }

  /** The read response for that characteristic. */
  lemma ReadResponseExample(server: Server, renderer: Renderer)
    ensures ReadResponse(server, renderer, [Context(1, 1, 0, IntValue(1), Read(true))], ReadRequestParameters(false, false, false, true))
      == Ascii("{\"characteristics\":[") + Ascii("{\"aid\":1,\"iid\":1") + Ascii(",\"value\":1,\"ev\":true}") + Ascii("]}")
  {
    var c := Context(1, 1, 0, IntValue(1), Read(true));
    var parameters := ReadRequestParameters(false, false, false, true);
    var item := ReadElement(server, renderer, parameters, c);
    ReadElementExample(server, renderer);
    assert Rendered([c], x => ReadElement(server, renderer, parameters, x)) == [item];
    assert Join([item]) == item;
  }
}
