/** The three request parsers of the IP accessory protocol: characteristic reads, PUT /characteristic
    writes and PUT /prepare (HAP/HAPIPAccessoryProtocol.h:85-92, 109-132, 160-176). Each parser walks an
    already-tokenised JSON tree; the two batch parsers fill a caller-supplied array of fixed capacity
    in place and report how many of its leading entries are valid. */
module RequestParsers {
  import opened HAPTypes
  import opened JsonTree
  import opened CharacteristicContext

  // ---------------------------------------------------------------------------------------------
  // Batch elements

  /** One element of a read batch: `{"aid": <uint64>, "iid": <uint64>}`. Value, status and the
      notification state are filled in later by the accessory server. */
  function ParseReadContext(j: Json): (r: Result<Context>)
    ensures r.Err? ==> r.error == InvalidData
    ensures r.Ok? <==> j.Object? && RequiredUInt64(j.members, "aid").Ok? && RequiredUInt64(j.members, "iid").Ok?
    ensures r.Ok? ==> FreshRead(r.value)
    ensures r.Ok? ==> j.Object? && Find(j.members, "aid") == Present(Number(Integer(r.value.aid)))
    ensures r.Ok? ==> j.Object? && Find(j.members, "iid") == Present(Number(Integer(r.value.iid)))
  {
    if !j.Object? then Err(InvalidData)
    else
      var aid :- RequiredUInt64(j.members, "aid");
      var iid :- RequiredUInt64(j.members, "iid");
      Ok(Context(aid, iid, 0, NoValue, Read(false)))
  }

  lemma RequiredFromFind(members: seq<Member>, key: string, v: uint64)
    requires Find(members, key) == Present(Number(Integer(v)))
    ensures RequiredUInt64(members, key) == Ok(v)
  {
  }

  /** An object with one unsigned `aid` and one unsigned `iid` is a read element. */
  lemma ParseReadContextComplete(j: Json, aid: uint64, iid: uint64)
    requires j.Object?
    requires Find(j.members, "aid") == Present(Number(Integer(aid)))
    requires Find(j.members, "iid") == Present(Number(Integer(iid)))
    ensures ParseReadContext(j) == Ok(Context(aid, iid, 0, NoValue, Read(false)))
  {
    RequiredFromFind(j.members, "aid", aid);
    RequiredFromFind(j.members, "iid", iid);
  }

  /** The literal of a `value` member. Integers take their tag from their sign: a negative one is an
      `int32`, any other a `uint64`; a literal with a fractional part or exponent is a float; a
      boolean is the unsigned integer 1 or 0. */
  function ParseWriteValue(j: Json): (r: Result<Value>)
    ensures r.Err? ==> r.error == InvalidData
    ensures r.Err? <==>
      || j.Null? || j.Array? || j.Object?
      || (j.Number? && j.n.Integer? && !(-0x8000_0000 <= j.n.i < 0x1_0000_0000_0000_0000))
    ensures r.Ok? ==> !r.value.NoValue?
    ensures r.Ok? && r.value.IntValue? ==> r.value.i < 0
    ensures r.Ok? && !j.Bool? ==> ValueLiteral(r.value) == j
    ensures j.Bool? ==> r == Ok(UnsignedIntValue(if j.b then 1 else 0))
  {
    match j
    case Number(Integer(i)) =>
      if i < 0 then
        if -0x8000_0000 <= i then Ok(IntValue(i)) else Err(InvalidData)
      else if i < 0x1_0000_0000_0000_0000 then Ok(UnsignedIntValue(i))
      else Err(InvalidData)
    case Number(Fraction(f)) => Ok(FloatValue(f))
    case String(s) => Ok(StringValue(s))
    case Bool(b) => Ok(UnsignedIntValue(if b then 1 else 0))
    case _ => Err(InvalidData)
  }

  /** The JSON literal a controller sends for a value: the inverse of ParseWriteValue. */
  function ValueLiteral(v: Value): Json
  {
    match v
    case NoValue => Null
    case IntValue(i) => Number(Integer(i))
    case UnsignedIntValue(u) => Number(Integer(u))
    case FloatValue(f) => Number(Fraction(f))
    case StringValue(s) => String(s)
  }

  /** The change a write element asks for: exactly one of a `value` and an `ev` request. */
  function ParseWriteChange(m: seq<Member>): (r: Result<(Value, EventNotificationState)>)
    ensures r.Err? ==> r.error == InvalidData
    ensures r.Ok? <==>
      || (Find(m, "value").Present? && Find(m, "ev").Absent? && ParseWriteValue(Find(m, "value").value).Ok?)
      || (Find(m, "value").Absent? && Find(m, "ev").Present? && BoolOf(Find(m, "ev").value).Ok?)
    ensures r.Ok? ==> (r.value.0.NoValue? <==> r.value.1 != Undefined)
    ensures r.Ok? && Find(m, "value").Present? ==> ParseWriteValue(Find(m, "value").value) == Ok(r.value.0)
    ensures r.Ok? && Find(m, "ev").Present? ==> (r.value.1 == Enabled <==> BoolOf(Find(m, "ev").value) == Ok(true))
    ensures r.Ok? && Find(m, "ev").Present? ==>
      r.value == (NoValue, if BoolOf(Find(m, "ev").value) == Ok(true) then Enabled else Disabled)
  {
    match (Find(m, "value"), Find(m, "ev"))
    case (Present(v), Absent) =>
      var value :- ParseWriteValue(v);
      Ok((value, Undefined))
    case (Absent, Present(e)) =>
      var ev :- BoolOf(e);
      Ok((NoValue, if ev then Enabled else Disabled))
    case _ => Err(InvalidData)
  }

  /** The optional members of a write element: `remote`, `response` and `authData`, the
      authorization data. */
  function ParseWriteOptions(m: seq<Member>): (r: Result<(bool, bool, string)>)
    ensures r.Err? ==> r.error == InvalidData
    ensures r.Ok? <==> BoolMember(m, "remote") && BoolMember(m, "response") && StringMember(m, "authData")
    ensures r.Ok? ==> (r.value.0 <==> TrueMember(m, "remote")) && (r.value.1 <==> TrueMember(m, "response"))
    ensures r.Ok? && Find(m, "authData").Present? ==> Find(m, "authData") == Present(String(r.value.2))
    ensures r.Ok? && Find(m, "authData").Absent? ==> r.value.2 == ""
  {
    var remote :- OptionalBool(m, "remote");
    var response :- OptionalBool(m, "response");
    var authorizationData :- OptionalString(m, "authData");
    Ok((remote, response, authorizationData))
  }

  /** One element of a write batch: `aid`, `iid`, exactly one of `value` and `ev`, and the optional
      `remote`, `response` and `authData`. */
  function ParseWriteContext(j: Json): (r: Result<Context>)
    ensures r.Err? ==> r.error == InvalidData
    ensures r.Ok? <==>
      && j.Object?
      && RequiredUInt64(j.members, "aid").Ok? && RequiredUInt64(j.members, "iid").Ok?
      && ParseWriteOptions(j.members).Ok? && ParseWriteChange(j.members).Ok?
    ensures r.Ok? ==> WellFormedWrite(r.value)
    ensures r.Ok? ==> j.Object? && Find(j.members, "aid") == Present(Number(Integer(r.value.aid)))
    ensures r.Ok? ==> j.Object? && Find(j.members, "iid") == Present(Number(Integer(r.value.iid)))
    ensures r.Ok? ==> j.Object? && ParseWriteChange(j.members) == Ok((r.value.value, r.value.access.evChange))
    ensures r.Ok? ==> (
      && j.Object?
      && ParseWriteOptions(j.members) == Ok((r.value.access.remote, r.value.access.response, r.value.access.authorizationData)))
  {
    if !j.Object? then Err(InvalidData)
    else
      var m := j.members;
      var aid :- RequiredUInt64(m, "aid");
      var iid :- RequiredUInt64(m, "iid");
      var options :- ParseWriteOptions(m);
      var change :- ParseWriteChange(m);
      Ok(Context(aid, iid, 0, change.0, Write(change.1, options.0, options.1, options.2)))
  }

  /** An object with one unsigned `aid` and `iid`, well-typed options and exactly one valid `value`
      or `ev` is a write element, and it keeps those ids. */
  lemma ParseWriteContextComplete(j: Json, aid: uint64, iid: uint64)
    requires j.Object?
    requires Find(j.members, "aid") == Present(Number(Integer(aid)))
    requires Find(j.members, "iid") == Present(Number(Integer(iid)))
    requires BoolMember(j.members, "remote") && BoolMember(j.members, "response") && StringMember(j.members, "authData")
    requires
      || (Find(j.members, "value").Present? && Find(j.members, "ev").Absent?
          && ParseWriteValue(Find(j.members, "value").value).Ok?)
      || (Find(j.members, "value").Absent? && Find(j.members, "ev").Present?
          && BoolOf(Find(j.members, "ev").value).Ok?)
    ensures ParseWriteContext(j).Ok?
    ensures ParseWriteContext(j).value.aid == aid && ParseWriteContext(j).value.iid == iid
  {
    RequiredFromFind(j.members, "aid", aid);
    RequiredFromFind(j.members, "iid", iid);
    assert ParseWriteOptions(j.members).Ok?;
    assert ParseWriteChange(j.members).Ok?;
  }

  // ---------------------------------------------------------------------------------------------
  // Bounded batches

  /** An element decoder that reports malformed input and nothing else. */
  ghost predicate OnlyInvalidData(parse: Json -> Result<Context>)
  {
    forall j :: parse(j).Err? ==> parse(j).error == InvalidData
  }

  /** Decodes the elements left to right into at most `max` contexts, stopping at the first element
      that is malformed or that has no context left for it. */
  function ParseBounded(elements: seq<Json>, max: nat, parse: Json -> Result<Context>)
    : (r: Result<seq<Context>>)
    ensures r.Ok? ==> |r.value| == |elements| <= max
    ensures r.Err? ==>
      || r.error == OutOfResources
      || exists k | 0 <= k < |elements| :: parse(elements[k]) == Err(r.error)
    decreases |elements|
  {
    if elements == [] then Ok([])
    else if max == 0 then Err(OutOfResources)
    else
      var c :- parse(elements[0]);
      var cs :- ParseBounded(elements[1..], max - 1, parse);
      Ok([c] + cs)
  }

  /** Puts already-decoded contexts in front of the outcome for the remaining elements. */
  function Prepend(cs: seq<Context>, r: Result<seq<Context>>): Result<seq<Context>>
  {
    match r
    case Ok(rest) => Ok(cs + rest)
    case Err(e) => Err(e)
  }

  lemma {:induction false} ParseBoundedElement(elements: seq<Json>, max: nat, parse: Json -> Result<Context>, k: nat)
    requires ParseBounded(elements, max, parse).Ok?
    requires k < |elements|
    ensures parse(elements[k]) == Ok(ParseBounded(elements, max, parse).value[k])
    decreases k
  {
    if k > 0 {
      ParseBoundedElement(elements[1..], max - 1, parse, k - 1);
    }
  }

  lemma {:induction false} ParseBoundedOutOfResources(elements: seq<Json>, max: nat, parse: Json -> Result<Context>)
    requires OnlyInvalidData(parse)
    ensures ParseBounded(elements, max, parse) == Err(OutOfResources) <==>
      |elements| > max && forall k | 0 <= k < max :: parse(elements[k]).Ok?
    decreases |elements|
  {
    if elements != [] && max != 0 {
      ParseBoundedOutOfResources(elements[1..], max - 1, parse);
      assert forall k | 1 <= k < |elements| :: elements[1..][k - 1] == elements[k];
    }
  }

  lemma {:induction false} ParseBoundedInvalidData(elements: seq<Json>, max: nat, parse: Json -> Result<Context>)
    requires OnlyInvalidData(parse)
    ensures ParseBounded(elements, max, parse) == Err(InvalidData) <==>
      exists k | 0 <= k < |elements| && k < max :: parse(elements[k]).Err?
    decreases |elements|
  {
    if elements != [] && max != 0 {
      ParseBoundedInvalidData(elements[1..], max - 1, parse);
      assert forall k | 1 <= k < |elements| :: elements[1..][k - 1] == elements[k];
      if exists k | 0 <= k < |elements| && k < max :: parse(elements[k]).Err? {
        var k :| 0 <= k < |elements| && k < max && parse(elements[k]).Err?;
        if k > 0 {
          assert parse(elements[1..][k - 1]).Err?;
        }
      }
    }
  }

  /** A batch that fits and whose elements are all well formed decodes. */
  lemma ParseBoundedSucceeds(elements: seq<Json>, max: nat, parse: Json -> Result<Context>)
    requires OnlyInvalidData(parse)
    requires |elements| <= max && forall k | 0 <= k < |elements| :: parse(elements[k]).Ok?
    ensures ParseBounded(elements, max, parse).Ok?
  {
    ParseBoundedOutOfResources(elements, max, parse);
    ParseBoundedInvalidData(elements, max, parse);
  }

  /** One step of ParseBounded on the elements from index `i` on. */
  lemma ParseBoundedStep(elements: seq<Json>, max: nat, parse: Json -> Result<Context>, i: nat)
    requires i < |elements| && i < max
    ensures ParseBounded(elements[i..], max - i, parse) ==
      match parse(elements[i])
      case Err(e) => Err(e)
      case Ok(c) => Prepend([c], ParseBounded(elements[i + 1..], max - i - 1, parse))
  {
    assert elements[i..][0] == elements[i] && elements[i..][1..] == elements[i + 1..];
  }

  lemma PrependAppend(cs: seq<Context>, c: Context, r: Result<seq<Context>>)
    ensures Prepend(cs + [c], r) == Prepend(cs, Prepend([c], r))
  {
    if r.Ok? {
      assert cs + [c] + r.value == cs + ([c] + r.value);
    }
  }

  /** Decoding element `i` successfully moves it from the outcome of the rest to the decoded ones. */
  lemma FillStep(elements: seq<Json>, max: nat, parse: Json -> Result<Context>, cs: seq<Context>, c: Context, i: nat)
    requires i < |elements| && i < max && parse(elements[i]) == Ok(c)
    requires ParseBounded(elements, max, parse) == Prepend(cs, ParseBounded(elements[i..], max - i, parse))
    ensures ParseBounded(elements, max, parse) == Prepend(cs + [c], ParseBounded(elements[i + 1..], max - i - 1, parse))
  {
    ParseBoundedStep(elements, max, parse, i);
    PrependAppend(cs, c, ParseBounded(elements[i + 1..], max - i - 1, parse));
  }

  /** Reaching element `max` with elements left means the batch runs out of contexts. */
  lemma FillStop(elements: seq<Json>, max: nat, parse: Json -> Result<Context>, cs: seq<Context>, i: nat)
    requires i == max < |elements|
    requires ParseBounded(elements, max, parse) == Prepend(cs, ParseBounded(elements[i..], max - i, parse))
    ensures ParseBounded(elements, max, parse) == Err(OutOfResources)
  {
  }

  /** A malformed element `i` is the batch's error. */
  lemma FillFail(elements: seq<Json>, max: nat, parse: Json -> Result<Context>, cs: seq<Context>, i: nat)
    requires i < |elements| && i < max && parse(elements[i]).Err?
    requires ParseBounded(elements, max, parse) == Prepend(cs, ParseBounded(elements[i..], max - i, parse))
    ensures ParseBounded(elements, max, parse) == Err(parse(elements[i]).error)
  {
    ParseBoundedStep(elements, max, parse, i);
  }

  /** Having decoded every element, the decoded ones are the batch. */
  lemma FillDone(elements: seq<Json>, max: nat, parse: Json -> Result<Context>, cs: seq<Context>)
    requires |elements| <= max
    requires ParseBounded(elements, max, parse) == Prepend(cs, ParseBounded(elements[|elements|..], max - |elements|, parse))
    ensures ParseBounded(elements, max, parse) == Ok(cs)
  {
    assert elements[|elements|..] == [];
    assert cs + [] == cs;
  }

  /** Fills `contexts[..max]` in place from the elements, in order; on failure reports no valid
      context. */
  method FillContexts(elements: seq<Json>, max: nat, parse: Json -> Result<Context>, contexts: array<Context>)
    returns (err: HAPError, n: nat)
    requires OnlyInvalidData(parse)
    requires max <= contexts.Length
    modifies contexts
    ensures var r := ParseBounded(elements, max, parse);
      && (err == None <==> r.Ok?)
      && (r.Ok? ==> n == |r.value| && contexts[..n] == r.value && contexts[n..] == old(contexts[n..]))
      && (r.Err? ==> err == r.error && n == 0)
    ensures contexts[max..] == old(contexts[max..])
  {
    var i := 0;
    assert elements[0..] == elements;
    assert Prepend([], ParseBounded(elements, max, parse)) == ParseBounded(elements, max, parse) by {
      var r := ParseBounded(elements, max, parse);
      if r.Ok? {
        assert [] + r.value == r.value;
      }
    }
    while i < |elements|
      invariant i <= |elements| && i <= max
      invariant ParseBounded(elements, max, parse) == Prepend(contexts[..i], ParseBounded(elements[i..], max - i, parse))
      invariant forall k | i <= k < contexts.Length :: contexts[k] == old(contexts[k])
    {
      if i == max {
        FillStop(elements, max, parse, contexts[..i], i);
        return OutOfResources, 0;
      }
      var r := parse(elements[i]);
      if r.Err? {
        FillFail(elements, max, parse, contexts[..i], i);
        return r.error, 0;
      }
      ghost var before := contexts[..i];
      FillStep(elements, max, parse, before, r.value, i);
      contexts[i] := r.value;
      assert contexts[..i + 1] == before + [r.value];
      i := i + 1;
    }
    FillDone(elements, max, parse, contexts[..i]);
    return None, i;
  }

  // ---------------------------------------------------------------------------------------------
  // Read requests (HAP/HAPIPAccessoryProtocol.h:78-92)

  /** A parsed read request: the contexts to read and the batch-wide response flags. */
  datatype ReadBatch = ReadBatch(contexts: seq<Context>, parameters: ReadRequestParameters)

  /** The optional flags `meta`, `perms`, `type` and `ev`, each false when absent. */
  function ReadRequestParametersOf(members: seq<Member>): (r: Result<ReadRequestParameters>)
    ensures r.Err? ==> r.error == InvalidData
    ensures r.Ok? <==>
      BoolMember(members, "meta") && BoolMember(members, "perms") && BoolMember(members, "type") && BoolMember(members, "ev")
    ensures r.Ok? ==>
      && (r.value.meta <==> TrueMember(members, "meta"))
      && (r.value.perms <==> TrueMember(members, "perms"))
      && (r.value.typ <==> TrueMember(members, "type"))
      && (r.value.ev <==> TrueMember(members, "ev"))
  {
    var meta :- OptionalBool(members, "meta");
    var perms :- OptionalBool(members, "perms");
    var typ :- OptionalBool(members, "type");
    var ev :- OptionalBool(members, "ev");
    Ok(ReadRequestParameters(meta, perms, typ, ev))
  }

  /** The read request: the query `id=1.10,1.11&meta=1&ev=1` after tokenisation, i.e. an object whose
      `id` member lists `{"aid", "iid"}` pairs and whose other members are the optional flags. */
  function ReadRequests(request: Json, maxReadContexts: nat): (r: Result<ReadBatch>)
    ensures r.Ok? ==> |r.value.contexts| <= maxReadContexts
    ensures r.Ok? ==> request.Object? && ReadRequestParametersOf(request.members) == Ok(r.value.parameters)
  {
    if !request.Object? then Err(InvalidData)
    else
      var ids :- RequiredArray(request.members, "id");
      var parameters :- ReadRequestParametersOf(request.members);
      var contexts :- ParseBounded(ids, maxReadContexts, ParseReadContext);
      Ok(ReadBatch(contexts, parameters))
  }

  /** `HAPIPAccessoryProtocolGetCharacteristicReadRequests`. */
  method GetCharacteristicReadRequests(request: Json, readContexts: array<Context>, maxReadContexts: nat)
    returns (err: HAPError, numReadContexts: nat, parameters: ReadRequestParameters)
    requires maxReadContexts <= readContexts.Length
    modifies readContexts
    ensures var r := ReadRequests(request, maxReadContexts);
      && (err == None <==> r.Ok?)
      && (r.Ok? ==> numReadContexts == |r.value.contexts| && readContexts[..numReadContexts] == r.value.contexts
                    && parameters == r.value.parameters)
      && (r.Err? ==> err == r.error && numReadContexts == 0 && parameters == NoReadRequestParameters)
    ensures err == None ==> readContexts[numReadContexts..] == old(readContexts[numReadContexts..])
  {
    numReadContexts, parameters := 0, NoReadRequestParameters;
    if !request.Object? {
      return InvalidData, 0, NoReadRequestParameters;
    }
    var ids := RequiredArray(request.members, "id");
    if ids.Err? {
      return ids.error, 0, NoReadRequestParameters;
    }
    var flags := ReadRequestParametersOf(request.members);
    if flags.Err? {
      return flags.error, 0, NoReadRequestParameters;
    }
    err, numReadContexts := FillContexts(ids.value, maxReadContexts, ParseReadContext, readContexts);
    if err == None {
      parameters := flags.value;
    }
  }

  lemma ReadRequestsOutcomes(request: Json, maxReadContexts: nat)
    ensures var r := ReadRequests(request, maxReadContexts);
      && (r.Err? ==> r.error == InvalidData || r.error == OutOfResources)
      && (r.Ok? ==> forall k | 0 <= k < |r.value.contexts| :: FreshRead(r.value.contexts[k]))
      && (r == Err(OutOfResources) ==>
            && request.Object? && RequiredArray(request.members, "id").Ok?
            && ReadRequestParametersOf(request.members).Ok?
            && |RequiredArray(request.members, "id").value| > maxReadContexts)
      && (r.Ok? ==> request.Object? && RequiredArray(request.members, "id").Ok?)
      && (r.Ok? ==> |RequiredArray(request.members, "id").value| == |r.value.contexts|)
      && (r.Ok? ==> forall k | 0 <= k < |r.value.contexts| ::
            ParseReadContext(RequiredArray(request.members, "id").value[k]) == Ok(r.value.contexts[k]))
  {
    var r := ReadRequests(request, maxReadContexts);
    if r == Err(OutOfResources) {
      ParseBoundedOutOfResources(RequiredArray(request.members, "id").value, maxReadContexts, ParseReadContext);
    }
    if r.Ok? {
      var ids := RequiredArray(request.members, "id").value;
      forall k | 0 <= k < |r.value.contexts|
        ensures FreshRead(r.value.contexts[k]) && ParseReadContext(ids[k]) == Ok(r.value.contexts[k])
      {
        ParseBoundedElement(ids, maxReadContexts, ParseReadContext, k);
      }
    }
  }

  lemma ReadRequestsOutOfResources(request: Json, maxReadContexts: nat, ids: seq<Json>)
    requires request.Object? && Find(request.members, "id") == Present(Array(ids))
    requires ReadRequestParametersOf(request.members).Ok?
    ensures ReadRequests(request, maxReadContexts) == Err(OutOfResources) <==>
      |ids| > maxReadContexts && forall k | 0 <= k < maxReadContexts :: ParseReadContext(ids[k]).Ok?
  {
    ParseBoundedOutOfResources(ids, maxReadContexts, ParseReadContext);
  }

  /** A read request whose ids all fit and are well formed, and whose flags are booleans, parses,
      with one context per id. */
  lemma ReadRequestsSucceed(request: Json, maxReadContexts: nat, ids: seq<Json>)
    requires request.Object? && Find(request.members, "id") == Present(Array(ids))
    requires BoolMember(request.members, "meta") && BoolMember(request.members, "perms")
    requires BoolMember(request.members, "type") && BoolMember(request.members, "ev")
    requires |ids| <= maxReadContexts && forall k | 0 <= k < |ids| :: ParseReadContext(ids[k]).Ok?
    ensures ReadRequests(request, maxReadContexts).Ok?
    ensures |ReadRequests(request, maxReadContexts).value.contexts| == |ids|
  {
    ParseBoundedSucceeds(ids, maxReadContexts, ParseReadContext);
  }

  // ---------------------------------------------------------------------------------------------
  // Write requests (HAP/HAPIPAccessoryProtocol.h:109-132)

  /** A parsed PUT /characteristic request: the writes and the optional prepared-write id. */
  datatype WriteBatch = WriteBatch(contexts: seq<Context>, hasPID: bool, pid: uint64)

  /** The optional top-level `pid`; 0 stands in for the id when none was given. */
  function OptionalPID(members: seq<Member>): (r: Result<(bool, uint64)>)
    ensures r.Err? ==> r.error == InvalidData
    ensures r.Ok? <==>
      Find(members, "pid").Absent? || (Find(members, "pid").Present? && UInt64Of(Find(members, "pid").value).Ok?)
    ensures r.Ok? ==> (r.value.0 <==> exists i | 0 <= i < |members| :: members[i].key == "pid")
    ensures r.Ok? && r.value.0 ==> Find(members, "pid") == Present(Number(Integer(r.value.1)))
    ensures r.Ok? && !r.value.0 ==> r.value.1 == 0
  {
    match Find(members, "pid")
    case Absent => Ok((false, 0))
    case Present(p) =>
      var pid :- UInt64Of(p);
      Ok((true, pid))
    case Duplicate => Err(InvalidData)
  }

  /** The write request `{"characteristics": [...], "pid": <uint64>}`. */
  function WriteRequests(request: Json, maxWriteContexts: nat): (r: Result<WriteBatch>)
    ensures r.Ok? ==> |r.value.contexts| <= maxWriteContexts
    ensures r.Ok? && !r.value.hasPID ==> r.value.pid == 0
    ensures r.Ok? ==> request.Object? && OptionalPID(request.members) == Ok((r.value.hasPID, r.value.pid))
  {
    if !request.Object? then Err(InvalidData)
    else
      var elements :- RequiredArray(request.members, "characteristics");
      var pid :- OptionalPID(request.members);
      var contexts :- ParseBounded(elements, maxWriteContexts, ParseWriteContext);
      Ok(WriteBatch(contexts, pid.0, pid.1))
  }

  /** `HAPIPAccessoryProtocolGetCharacteristicWriteRequests`. */
  method GetCharacteristicWriteRequests(request: Json, writeContexts: array<Context>, maxWriteContexts: nat)
    returns (err: HAPError, numWriteContexts: nat, hasPID: bool, pid: uint64)
    requires maxWriteContexts <= writeContexts.Length
    modifies writeContexts
    ensures var r := WriteRequests(request, maxWriteContexts);
      && (err == None <==> r.Ok?)
      && (r.Ok? ==> numWriteContexts == |r.value.contexts| && writeContexts[..numWriteContexts] == r.value.contexts
                    && hasPID == r.value.hasPID && pid == r.value.pid)
      && (r.Err? ==> err == r.error && numWriteContexts == 0 && !hasPID && pid == 0)
    ensures err == None ==> writeContexts[numWriteContexts..] == old(writeContexts[numWriteContexts..])
  {
    numWriteContexts, hasPID, pid := 0, false, 0;
    if !request.Object? {
      return InvalidData, 0, false, 0;
    }
    var elements := RequiredArray(request.members, "characteristics");
    if elements.Err? {
      return elements.error, 0, false, 0;
    }
    var given := OptionalPID(request.members);
    if given.Err? {
      return given.error, 0, false, 0;
    }
    err, numWriteContexts := FillContexts(elements.value, maxWriteContexts, ParseWriteContext, writeContexts);
    if err == None {
      hasPID, pid := given.value.0, given.value.1;
    }
  }

  /** What a successful parse promises: at most `maxWriteContexts` well-formed writes, and a PID
      exactly when the request names one. */
  lemma WriteRequestsOutcomes(request: Json, maxWriteContexts: nat)
    ensures var r := WriteRequests(request, maxWriteContexts);
      && (r.Err? ==> r.error == InvalidData || r.error == OutOfResources)
      && (r.Ok? ==> forall k | 0 <= k < |r.value.contexts| :: WellFormedWrite(r.value.contexts[k]))
      && (r.Ok? ==> request.Object?)
      && (r.Ok? ==> (r.value.hasPID <==> exists i | 0 <= i < |request.members| :: request.members[i].key == "pid"))
      && (r.Ok? ==> RequiredArray(request.members, "characteristics").Ok?)
      && (r == Err(OutOfResources) ==>
            && request.Object? && RequiredArray(request.members, "characteristics").Ok?
            && OptionalPID(request.members).Ok?
            && |RequiredArray(request.members, "characteristics").value| > maxWriteContexts)
      && (r.Ok? ==> |RequiredArray(request.members, "characteristics").value| == |r.value.contexts|)
      && (r.Ok? ==> forall k | 0 <= k < |r.value.contexts| ::
            ParseWriteContext(RequiredArray(request.members, "characteristics").value[k]) == Ok(r.value.contexts[k]))
  {
    var r := WriteRequests(request, maxWriteContexts);
    if r == Err(OutOfResources) {
      ParseBoundedOutOfResources(RequiredArray(request.members, "characteristics").value, maxWriteContexts, ParseWriteContext);
    }
    if r.Ok? {
      var elements := RequiredArray(request.members, "characteristics").value;
      forall k | 0 <= k < |r.value.contexts|
        ensures WellFormedWrite(r.value.contexts[k]) && ParseWriteContext(elements[k]) == Ok(r.value.contexts[k])
      {
        ParseBoundedElement(elements, maxWriteContexts, ParseWriteContext, k);
      }
    }
  }

  /** A well-shaped request runs out of contexts exactly when it names more characteristics than fit
      and every one that fits is well formed. */
  lemma WriteRequestsOutOfResources(request: Json, maxWriteContexts: nat, elements: seq<Json>)
    requires request.Object? && Find(request.members, "characteristics") == Present(Array(elements))
    requires OptionalPID(request.members).Ok?
    ensures WriteRequests(request, maxWriteContexts) == Err(OutOfResources) <==>
      |elements| > maxWriteContexts && forall k | 0 <= k < maxWriteContexts :: ParseWriteContext(elements[k]).Ok?
  {
    ParseBoundedOutOfResources(elements, maxWriteContexts, ParseWriteContext);
  }

  /** A well-shaped request is malformed exactly when one of the elements that fit is malformed. */
  lemma WriteRequestsInvalidData(request: Json, maxWriteContexts: nat, elements: seq<Json>)
    requires request.Object? && Find(request.members, "characteristics") == Present(Array(elements))
    requires OptionalPID(request.members).Ok?
    ensures WriteRequests(request, maxWriteContexts) == Err(InvalidData) <==>
      exists k | 0 <= k < |elements| && k < maxWriteContexts :: ParseWriteContext(elements[k]).Err?
  {
    ParseBoundedInvalidData(elements, maxWriteContexts, ParseWriteContext);
  }

  /** A write request whose elements all fit and are well formed, and whose `pid` is absent or an
      unsigned integer, parses, with one context per element. */
  lemma WriteRequestsSucceed(request: Json, maxWriteContexts: nat, elements: seq<Json>)
    requires request.Object? && Find(request.members, "characteristics") == Present(Array(elements))
    requires OptionalPID(request.members).Ok?
    requires |elements| <= maxWriteContexts && forall k | 0 <= k < |elements| :: ParseWriteContext(elements[k]).Ok?
    ensures WriteRequests(request, maxWriteContexts).Ok?
    ensures |WriteRequests(request, maxWriteContexts).value.contexts| == |elements|
  {
    ParseBoundedSucceeds(elements, maxWriteContexts, ParseWriteContext);
  }

  /** An element without `aid` or without `iid` rejects the whole batch when it fits. */
  lemma WriteRequestsMissingId(request: Json, maxWriteContexts: nat, elements: seq<Json>, k: nat, key: string)
    requires request.Object? && Find(request.members, "characteristics") == Present(Array(elements))
    requires OptionalPID(request.members).Ok?
    requires k < |elements| && k < maxWriteContexts
    requires key == "aid" || key == "iid"
    requires elements[k].Object? && forall i | 0 <= i < |elements[k].members| :: elements[k].members[i].key != key
    ensures WriteRequests(request, maxWriteContexts) == Err(InvalidData)
  {
    assert ParseWriteContext(elements[k]).Err?;
    ParseBoundedInvalidData(elements, maxWriteContexts, ParseWriteContext);
  }

  /** Every value a controller can send survives the write parser with its tag, provided the tag is
      the one its literal's sign selects. */
  lemma ParseWriteValueLiteral(v: Value)
    requires !v.NoValue?
    requires v.IntValue? ==> v.i < 0
    ensures ParseWriteValue(ValueLiteral(v)) == Ok(v)
  {
  }

  // ---------------------------------------------------------------------------------------------
  // Write preparation (HAP/HAPIPAccessoryProtocol.h:160-176)

  /** A parsed PUT /prepare request. */
  datatype Preparation = Preparation(ttl: uint64, pid: uint64)

  /** The request `{"ttl": <uint64>, "pid": <uint64>}`; both members are required. */
  function WritePreparation(request: Json): (r: Result<Preparation>)
    ensures r.Err? ==> r.error == InvalidData
    ensures r.Ok? ==> request.Object? && Find(request.members, "ttl") == Present(Number(Integer(r.value.ttl)))
    ensures r.Ok? ==> request.Object? && Find(request.members, "pid") == Present(Number(Integer(r.value.pid)))
  {
    if !request.Object? then Err(InvalidData)
    else
      var ttl :- RequiredUInt64(request.members, "ttl");
      var pid :- RequiredUInt64(request.members, "pid");
      Ok(Preparation(ttl, pid))
  }

  /** Both members given once, as unsigned 64-bit integers, is all a preparation needs. */
  lemma WritePreparationComplete(request: Json, ttl: uint64, pid: uint64)
    requires request.Object?
    requires Find(request.members, "ttl") == Present(Number(Integer(ttl)))
    requires Find(request.members, "pid") == Present(Number(Integer(pid)))
    ensures WritePreparation(request) == Ok(Preparation(ttl, pid))
  {
  }

  /** The `ttl` and `pid` members, found in one pass over the members. */
  method FindTtlAndPid(members: seq<Member>) returns (ttlField: Lookup, pidField: Lookup)
    ensures ttlField == Find(members, "ttl") && pidField == Find(members, "pid")
  {
    ttlField, pidField := Absent, Absent;
    var i := 0;
    while i < |members|
      invariant i <= |members|
      invariant ttlField == Find(members[..i], "ttl") && pidField == Find(members[..i], "pid")
    {
      FindStep(members, i, "ttl");
      FindStep(members, i, "pid");
      var key := members[i].key;
      if key == "ttl" {
        ttlField := if ttlField.Absent? then Present(members[i].value) else Duplicate;
      } else if key == "pid" {
        pidField := if pidField.Absent? then Present(members[i].value) else Duplicate;
      }
      i := i + 1;
    }
    assert members[..i] == members;
  }

  /** `HAPIPAccessoryProtocolGetCharacteristicWritePreparation`. */
  method GetCharacteristicWritePreparation(request: Json) returns (err: HAPError, ttl: uint64, pid: uint64)
    ensures err == None || err == InvalidData
    ensures err == None <==> WritePreparation(request).Ok?
    ensures err == None ==> WritePreparation(request).value == Preparation(ttl, pid)
  {
    ttl, pid := 0, 0;
    if !request.Object? {
      return InvalidData, 0, 0;
    }
    var ttlField, pidField := FindTtlAndPid(request.members);
    if !ttlField.Present? || !pidField.Present? {
      return InvalidData, 0, 0;
    }
    var t := UInt64Of(ttlField.value);
    var p := UInt64Of(pidField.value);
    if t.Err? || p.Err? {
      return InvalidData, 0, 0;
    }
    return None, t.value, p.value;
  }
}
