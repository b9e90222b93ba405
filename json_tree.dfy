/** The already-tokenised JSON tree (RFC 8259) that the request parsers walk, and member lookup in
    a JSON object. The tokenizer that produces the tree is not part of this model. */
module JsonTree {
  import opened HAPTypes

  /** A JSON number as the tokenizer classifies it: a literal without fractional part or exponent is an
      exact integer; any other literal has been converted to a single-precision float. */
  datatype Number = Integer(i: int) | Fraction(f: Float32)

  datatype Json =
    | Null
    | Bool(b: bool)
    | Number(n: Number)
    | String(s: string)
    | Array(elements: seq<Json>)
    | Object(members: seq<Member>)

  datatype Member = Member(key: string, value: Json)

  /** What a search for one key in an object's members finds. */
  datatype Lookup = Absent | Present(value: Json) | Duplicate

  /** The member `key` is the one at index `i` and no other member has that key. */
  ghost predicate OnlyAt(members: seq<Member>, key: string, i: int)
  {
    && 0 <= i < |members|
    && members[i].key == key
    && forall j | 0 <= j < |members| && j != i :: members[j].key != key
  }

  /** Looks `key` up among `members`; a key given twice makes the object malformed. */
  function Find(members: seq<Member>, key: string): (r: Lookup)
    ensures r.Absent? <==> forall i | 0 <= i < |members| :: members[i].key != key
    ensures r.Present? ==> exists i :: OnlyAt(members, key, i) && members[i].value == r.value
    ensures r.Duplicate? <==>
      exists i, j | 0 <= i < j < |members| :: members[i].key == key && members[j].key == key
  {
    if members == [] then Absent
    else
      var init := members[..|members| - 1];
      var last := members[|members| - 1];
      var r := Find(init, key);
      assert forall i | 0 <= i < |init| :: init[i] == members[i];
      if last.key != key then
        assert forall i | OnlyAt(init, key, i) :: OnlyAt(members, key, i);
        r
      else if r.Absent? then
        assert OnlyAt(members, key, |members| - 1);
        Present(last.value)
      else
        assert forall i | OnlyAt(init, key, i) :: members[i].key == key && i < |members| - 1;
        Duplicate
  }

  /** An unsigned 64-bit integer literal, or nothing. */
  function UInt64Of(j: Json): Result<uint64>
  {
    if j.Number? && j.n.Integer? && 0 <= j.n.i < 0x1_0000_0000_0000_0000 then Ok(j.n.i)
    else Err(InvalidData)
  }

  /** A boolean: `true`/`false`, or the integers 1/0 that HAP controllers also send. */
  function BoolOf(j: Json): (r: Result<bool>)
    ensures r.Err? ==> r.error == InvalidData
    ensures r.Ok? <==> j.Bool? || j == Number(Integer(0)) || j == Number(Integer(1))
    ensures r.Ok? ==> (r.value <==> j == Bool(true) || j == Number(Integer(1)))
  {
    match j
    case Bool(b) => Ok(b)
    case Number(Integer(i)) => if i == 0 then Ok(false) else if i == 1 then Ok(true) else Err(InvalidData)
    case _ => Err(InvalidData)
  }

  /** A required unsigned 64-bit member. */
  function RequiredUInt64(members: seq<Member>, key: string): (r: Result<uint64>)
    ensures r.Ok? <==> exists i :: OnlyAt(members, key, i) && UInt64Of(members[i].value).Ok?
    ensures r.Ok? ==> exists i :: OnlyAt(members, key, i) && UInt64Of(members[i].value) == r
    ensures r.Err? ==> r.error == InvalidData
  {
    match Find(members, key)
    case Present(v) =>
      assert forall i, k | OnlyAt(members, key, i) && OnlyAt(members, key, k) :: i == k;
      UInt64Of(v)
    case _ => Err(InvalidData)
  }

  /** The member `key` is absent, or given once as a boolean. */
  ghost predicate BoolMember(members: seq<Member>, key: string)
  {
    Find(members, key).Absent? || (Find(members, key).Present? && BoolOf(Find(members, key).value).Ok?)
  }

  /** The member `key` is given once, as `true` or `1`. */
  ghost predicate TrueMember(members: seq<Member>, key: string)
  {
    Find(members, key) == Present(Bool(true)) || Find(members, key) == Present(Number(Integer(1)))
  }

  /** The member `key` is absent, or given once as a string. */
  ghost predicate StringMember(members: seq<Member>, key: string)
  {
    Find(members, key).Absent? || (Find(members, key).Present? && Find(members, key).value.String?)
  }

  /** An optional boolean member, false when absent. */
  function OptionalBool(members: seq<Member>, key: string): (r: Result<bool>)
    ensures r.Err? ==> r.error == InvalidData
    ensures r.Ok? <==> BoolMember(members, key)
    ensures r.Ok? ==> (r.value <==> TrueMember(members, key))
    ensures (forall i | 0 <= i < |members| :: members[i].key != key) ==> r == Ok(false)
  {
    match Find(members, key)
    case Absent => Ok(false)
    case Present(v) => BoolOf(v)
    case Duplicate => Err(InvalidData)
  }

  /** An optional string member, empty when absent. */
  function OptionalString(members: seq<Member>, key: string): (r: Result<string>)
    ensures r.Err? ==> r.error == InvalidData
    ensures r.Ok? <==> StringMember(members, key)
    ensures r.Ok? && Find(members, key).Present? ==> Find(members, key) == Present(String(r.value))
    ensures (forall i | 0 <= i < |members| :: members[i].key != key) ==> r == Ok("")
  {
    match Find(members, key)
    case Absent => Ok("")
    case Present(String(s)) => Ok(s)
    case _ => Err(InvalidData)
  }

  /** A required array member. */
  function RequiredArray(members: seq<Member>, key: string): (r: Result<seq<Json>>)
    ensures r.Err? ==> r.error == InvalidData
    ensures r.Ok? ==> Find(members, key) == Present(Array(r.value))
  {
    match Find(members, key)
    case Present(Array(elements)) => Ok(elements)
    case _ => Err(InvalidData)
  }

  /** Lookup in a longer prefix of the members extends lookup in the shorter one by one step. */
  lemma FindStep(members: seq<Member>, i: nat, key: string)
    requires i < |members|
    ensures Find(members[..i + 1], key) ==
      if members[i].key != key then Find(members[..i], key)
      else if Find(members[..i], key).Absent? then Present(members[i].value)
      else Duplicate
  {
    assert members[..i + 1][..i] == members[..i];
  }
}
