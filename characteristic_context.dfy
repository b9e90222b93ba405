/** The per-characteristic context shared by the request parsers and the response codecs, and the
    batch-wide read-request flags (HAP/HAPIPAccessoryProtocol.h:24-83). */
module CharacteristicContext {
  import opened HAPTypes

  /** The tag of a written value (`HAPIPWriteValueType`). */
  datatype WriteValueType = NoneType | IntType | UIntType | FloatType | StringType

  /** The requested change of event notifications (`HAPIPEventNotificationState`). */
  datatype EventNotificationState = Undefined | Disabled | Enabled

  /** A characteristic value. The C code keeps an untagged union plus a separate tag; here the
      constructor is the tag, so a value can only be read through the variant it holds. */
  datatype Value =
    | NoValue
    | IntValue(i: int32)
    | UnsignedIntValue(u: uint64)
    | FloatValue(f: Float32)
    | StringValue(s: string)

  /** The read-or-write sub-record of a context; a batch is all reads or all writes. */
  datatype Access =
    | Read(ev: bool)
    | Write(evChange: EventNotificationState, remote: bool, response: bool, authorizationData: string)

  /** `HAPIPCharacteristicContext`. */
  datatype Context = Context(aid: uint64, iid: uint64, status: int32, value: Value, access: Access)

  /** `HAPIPReadRequestParameters`; `typ` is the `type` flag (`type` is a reserved word here). */
  datatype ReadRequestParameters = ReadRequestParameters(meta: bool, perms: bool, typ: bool, ev: bool)

  const NoReadRequestParameters := ReadRequestParameters(false, false, false, false)

  /** The `type` field of a write sub-record: the tag of the value being written. */
  function TypeOf(v: Value): (t: WriteValueType)
    ensures t == NoneType <==> v.NoValue?
    ensures t == IntType <==> v.IntValue?
    ensures t == UIntType <==> v.UnsignedIntValue?
    ensures t == FloatType <==> v.FloatValue?
    ensures t == StringType <==> v.StringValue?
  {
    match v
    case NoValue => NoneType
    case IntValue(_) => IntType
    case UnsignedIntValue(_) => UIntType
    case FloatValue(_) => FloatType
    case StringValue(_) => StringType
  }

  /** A write context as the write-request parser leaves it: a write sub-record, no status yet, and
      exactly one of a value (tag other than None) or an event-notification change (not Undefined). */
  ghost predicate WellFormedWrite(c: Context)
  {
    && c.access.Write?
    && c.status == 0
    && (TypeOf(c.value) == NoneType <==> c.access.evChange != Undefined)
  }

  /** A read context as the read-request parser leaves it: only `aid` and `iid` are set. */
  ghost predicate FreshRead(c: Context)
  {
    && c.access == Read(false)
    && c.status == 0
    && c.value == NoValue
  }
}
