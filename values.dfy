/** The document model: one recursive tagged union and its typed accessors.

    `LightStruct` in the original is a copyable value wrapping a
    `std::variant<bool, int, double, std::string, Array, Object>`; here it is
    the datatype `Value`, and every accessor that can throw returns a
    `Result` whose failure names the exception it replaces. */
module Values {
  import opened Wrappers

  const INT32_MIN: int := -0x8000_0000
  const INT32_MAX: int := 0x7FFF_FFFF

  /** The payload of the `int` alternative: a 32-bit signed integer. */
  type Int32 = i: int | INT32_MIN <= i <= INT32_MAX

  /** The payload of the `double` alternative, kept opaque: an IEEE-754 bit
      pattern. Conversions to and from text are parameters of the serializer
      and the parser. */
  type Float = bv64

  datatype Value =
    | Bool(b: bool)
    | Int(i: Int32)
    | Double(d: Float)
    | Str(s: string)
    | Array(elems: seq<Value>)
    | Object(fields: map<string, Value>)

  /** The alternatives of the variant, standing for the template argument
      `T` of `getValue<T>`. */
  datatype Kind = BoolKind | IntKind | DoubleKind | StringKind | ArrayKind | ObjectKind

  /** The exceptions an accessor can raise. */
  datatype AccessError =
    | TypeMismatchOrMissingKey(key: string)  // runtime_error thrown by getValue
    | BadVariantAccess                       // std::get on an inactive alternative
    | KeyOutOfRange(key: string)             // unordered_map::at on an absent key

  function KindOf(v: Value): Kind {
    match v
    case Bool(_) => BoolKind
    case Int(_) => IntKind
    case Double(_) => DoubleKind
    case Str(_) => StringKind
    case Array(_) => ArrayKind
    case Object(_) => ObjectKind
  }

  /** The tree holds no `double` anywhere. */
  predicate NoDoubles(v: Value) {
    match v
    case Double(_) => false
    case Array(elems) => forall i | 0 <= i < |elems| :: NoDoubles(elems[i])
    case Object(fields) => forall k | k in fields :: NoDoubles(fields[k])
    case _ => true
  }

  /** `LightStruct() = default`: a default-constructed variant holds its first
      alternative, value-initialised. */
  function Default(): (v: Value)
    ensures AsBool(v) == Success(false)
  {
    Bool(false)
  }

  // ---------------------------------------------------------------------
  // Keyed extraction: getValue<T> and its getBool ... getObject wrappers
  // ---------------------------------------------------------------------

  /** `getValue<T>(key)`: the child stored under `key`, provided `v` is an
      object, the key is present and the child holds alternative `kind`. The
      three ways to fail raise one and the same error. */
  function GetValue(v: Value, key: string, kind: Kind): (r: Result<Value, AccessError>)
    ensures r.Success? <==> v.Object? && key in v.fields && KindOf(v.fields[key]) == kind
    ensures r.Success? ==> r.value == v.fields[key] && KindOf(r.value) == kind
    ensures r.Failure? ==> r.error == TypeMismatchOrMissingKey(key)
  {
    match v
    case Object(fields) =>
      if key in fields && KindOf(fields[key]) == kind then Success(fields[key])
      else Failure(TypeMismatchOrMissingKey(key))
    case _ => Failure(TypeMismatchOrMissingKey(key))
  }

  function GetBool(v: Value, key: string): (r: Result<bool, AccessError>)
    ensures r.Success? <==> v.Object? && key in v.fields && v.fields[key].Bool?
    ensures r.Success? ==> v.fields[key] == Bool(r.value)
    ensures r.Failure? ==> r.error == TypeMismatchOrMissingKey(key)
  {
    var child :- GetValue(v, key, BoolKind);
    Success(child.b)
  }

  function GetInt(v: Value, key: string): (r: Result<Int32, AccessError>)
    ensures r.Success? <==> v.Object? && key in v.fields && v.fields[key].Int?
    ensures r.Success? ==> v.fields[key] == Int(r.value)
    ensures r.Failure? ==> r.error == TypeMismatchOrMissingKey(key)
  {
    var child :- GetValue(v, key, IntKind);
    Success(child.i)
  }

  function GetDouble(v: Value, key: string): (r: Result<Float, AccessError>)
    ensures r.Success? <==> v.Object? && key in v.fields && v.fields[key].Double?
    ensures r.Success? ==> v.fields[key] == Double(r.value)
    ensures r.Failure? ==> r.error == TypeMismatchOrMissingKey(key)
  {
    var child :- GetValue(v, key, DoubleKind);
    Success(child.d)
  }

  function GetString(v: Value, key: string): (r: Result<string, AccessError>)
    ensures r.Success? <==> v.Object? && key in v.fields && v.fields[key].Str?
    ensures r.Success? ==> v.fields[key] == Str(r.value)
    ensures r.Failure? ==> r.error == TypeMismatchOrMissingKey(key)
  {
    var child :- GetValue(v, key, StringKind);
    Success(child.s)
  }

  function GetArray(v: Value, key: string): (r: Result<seq<Value>, AccessError>)
    ensures r.Success? <==> v.Object? && key in v.fields && v.fields[key].Array?
    ensures r.Success? ==> v.fields[key] == Array(r.value)
    ensures r.Failure? ==> r.error == TypeMismatchOrMissingKey(key)
  {
    var child :- GetValue(v, key, ArrayKind);
    Success(child.elems)
  }

  function GetObject(v: Value, key: string): (r: Result<map<string, Value>, AccessError>)
    ensures r.Success? <==> v.Object? && key in v.fields && v.fields[key].Object?
    ensures r.Success? ==> v.fields[key] == Object(r.value)
    ensures r.Failure? ==> r.error == TypeMismatchOrMissingKey(key)
  {
    var child :- GetValue(v, key, ObjectKind);
    Success(child.fields)
  }

  // ---------------------------------------------------------------------
  // Extraction of the active alternative: asBool ... asObject
  // ---------------------------------------------------------------------

  function AsBool(v: Value): (r: Result<bool, AccessError>)
    ensures r.Success? <==> v.Bool?
    ensures r.Success? ==> v == Bool(r.value)
    ensures r.Failure? ==> r.error == BadVariantAccess
  {
    match v
    case Bool(b) => Success(b)
    case _ => Failure(BadVariantAccess)
  }

  function AsInt(v: Value): (r: Result<Int32, AccessError>)
    ensures r.Success? <==> v.Int?
    ensures r.Success? ==> v == Int(r.value)
    ensures r.Failure? ==> r.error == BadVariantAccess
  {
    match v
    case Int(i) => Success(i)
    case _ => Failure(BadVariantAccess)
  }

  function AsDouble(v: Value): (r: Result<Float, AccessError>)
    ensures r.Success? <==> v.Double?
    ensures r.Success? ==> v == Double(r.value)
    ensures r.Failure? ==> r.error == BadVariantAccess
  {
    match v
    case Double(d) => Success(d)
    case _ => Failure(BadVariantAccess)
  }

  function AsStr(v: Value): (r: Result<string, AccessError>)
    ensures r.Success? <==> v.Str?
    ensures r.Success? ==> v == Str(r.value)
    ensures r.Failure? ==> r.error == BadVariantAccess
  {
    match v
    case Str(s) => Success(s)
    case _ => Failure(BadVariantAccess)
  }

  function AsArray(v: Value): (r: Result<seq<Value>, AccessError>)
    ensures r.Success? <==> v.Array?
    ensures r.Success? ==> v == Array(r.value)
    ensures r.Failure? ==> r.error == BadVariantAccess
  {
    match v
    case Array(elems) => Success(elems)
    case _ => Failure(BadVariantAccess)
  }

  function AsObject(v: Value): (r: Result<map<string, Value>, AccessError>)
    ensures r.Success? <==> v.Object?
    ensures r.Success? ==> v == Object(r.value)
    ensures r.Failure? ==> r.error == BadVariantAccess
  {
    match v
    case Object(fields) => Success(fields)
    case _ => Failure(BadVariantAccess)
  }

  // ---------------------------------------------------------------------
  // operator[]: a handle on one child of an object
  // ---------------------------------------------------------------------

  /** Reading through `operator[](key)`: `std::get<Object>` fails on a
      non-object, then `at(key)` fails on an absent key. */
  function Child(v: Value, key: string): (r: Result<Value, AccessError>)
    ensures r.Success? <==> v.Object? && key in v.fields
    ensures r.Success? ==> r.value == v.fields[key]
    ensures r.Failure? ==> r.error == if v.Object? then KeyOutOfRange(key) else BadVariantAccess
  {
    var fields :- AsObject(v);
    if key in fields then Success(fields[key]) else Failure(KeyOutOfRange(key))
  }

  /** Assigning through `operator[](key) = child`: the reference exists only
      for a key already present, and the assignment replaces that one entry. */
  function SetChild(v: Value, key: string, child: Value): (r: Result<Value, AccessError>)
    ensures r.Success? <==> v.Object? && key in v.fields
    ensures r.Success? ==> r.value.Object? && r.value.fields.Keys == v.fields.Keys
    ensures r.Success? ==> r.value.fields[key] == child
    ensures r.Success? ==> forall k | k in v.fields && k != key :: r.value.fields[k] == v.fields[k]
    ensures r.Failure? ==> r.error == if v.Object? then KeyOutOfRange(key) else BadVariantAccess
  {
    var _ :- Child(v, key);
    Success(Object(v.fields[key := child]))
  }

  /** Keyed extraction is navigation followed by extraction of the active
      alternative: `getValue<T>(key)` succeeds exactly when `operator[](key)`
      would and the child then passes the variant check. */
  lemma GetValueIsChildThenKind(v: Value, key: string, kind: Kind)
    ensures GetValue(v, key, kind).Success? <==> Child(v, key).Success? && KindOf(Child(v, key).value) == kind
    ensures GetValue(v, key, kind).Success? ==> GetValue(v, key, kind).value == Child(v, key).value
  {
  }

  /** After an assignment through the handle, keyed extraction of that key
      returns the new child and every other key reads as before. */
  lemma GetAfterSetChild(v: Value, key: string, child: Value, other: string, kind: Kind)
    requires SetChild(v, key, child).Success?
    ensures GetValue(SetChild(v, key, child).value, key, KindOf(child)) == Success(child)
    ensures other != key ==> GetValue(SetChild(v, key, child).value, other, kind) == GetValue(v, other, kind)
  {
  }
}
