/** Hessian values without references, as the Dubbo bridge builds and prints them. */
module Hessian {
  import opened Common

  /** Doubles are exact reals; a date is its millisecond count; binary data is its bytes as text. */
  datatype Value =
    | Null
    | Boolean(b: bool)
    | Integer(i: int32)
    | Long(l: int64)
    | Double(d: real)
    | Date(ms: int64)
    | Binary(bytes: string)
    | Str(s: string)
    | TypedList(elements: seq<Value>)
    | UntypedList(items: seq<Value>)
    | TypedMap(fields: map<string, Value>)
    | UntypedMap(entries: map<string, Value>)
    /** Of a class that has no converter of its own: the field names, if a definition came, and the values. */
    | Instance(names: Option<seq<string>>, data: seq<Value>)

  /** A class instance: the field names of its definition and the values that were sent. */
  datatype ClassInstance = ClassInstance(fieldNames: seq<string>, data: seq<Value>)

  /** One call on the JSON writer. */
  datatype Event =
    | WriteNull
    | WriteBool(b: bool)
    | WriteInt(n: int)
    | WriteDouble(d: real)
    | WriteString(s: string)
    | StartArray
    | EndArray
    | StartObject
    | EndObject
}
