/**
 * Shared vocabulary: Java's null as Option, exceptions as Result, the
 * identity of an instance field, a type object, and the run-time values
 * that end up in a command's fields.
 */
module Values {

  datatype Option<+T> = None | Some(value: T)

  datatype Result<+R, +E> = Success(value: R) | Failure(error: E)

  /** Identifies one declared field of a command class (the target of a reflective write). */
  type FieldId = nat

  /** A java.lang.Class (or other type object): what its toString() and getSimpleName() return. */
  datatype TypeTag = TypeTag(repr: string, simpleName: string)

  const StringType := TypeTag("class java.lang.String", "String")
  const BooleanPrimitive := TypeTag("boolean", "boolean")
  const BooleanBoxed := TypeTag("class java.lang.Boolean", "Boolean")

  /** The value of a field or of an accessor: null, a string, a boolean, a list, or a converted object. */
  datatype Value =
    | Null
    | Str(s: string)
    | Bool(b: bool)
    | List(items: seq<Value>)
    | Object(typ: TypeTag, repr: string)

  /** A Java String reference that may be null, seen as an Object. */
  function Raw(v: Option<string>): (r: Value)
    ensures r == Null <==> v.None?
  {
    match v
    case None => Null
    case Some(s) => Str(s)
  }

  /**
   * TypeHandler.createValue(value, type): a foreign conversion, left uninterpreted.
   * None stands for the ParseException it throws on malformed input.
   */
  type Converter = (Option<string>, TypeTag) -> Option<Value>
}
