/** Message types as the request decoders see them. */
module Schema {
  import opened Text

  /** A declared name, which protocol buffers never leave empty. */
  type Name = s: string | s != "" witness "x"

  datatype Shape = Singular | List | Map

  /** A field: its names, its shape, the type of the message it holds if it holds one, and the
      oneof it belongs to if it does. */
  datatype FieldDesc = FieldDesc(
    name: Name, jsonName: string, shape: Shape, msgType: Option<string>, oneof: Option<string>)

  /** The fields of each message type. */
  type Schema = map<string, seq<FieldDesc>>

  function ByName(fields: seq<FieldDesc>, name: string): Option<FieldDesc> {
    if fields == [] then None
    else if fields[0].name == name then Some(fields[0])
    else ByName(fields[1..], name)
  }

  function ByJsonName(fields: seq<FieldDesc>, name: string): Option<FieldDesc> {
    if fields == [] then None
    else if fields[0].jsonName == name then Some(fields[0])
    else ByJsonName(fields[1..], name)
  }

  function FieldsOf(schema: Schema, msg: string): seq<FieldDesc> {
    if msg in schema then schema[msg] else []
  }

  /** A field by its proto name or else by its JSON name. */
  function GetField(schema: Schema, msg: string, name: string): Option<FieldDesc> {
    var fields := FieldsOf(schema, msg);
    if ByName(fields, name).Some? then ByName(fields, name) else ByJsonName(fields, name)
  }

  lemma {:induction false} ByNameMeans(fields: seq<FieldDesc>, name: string)
    ensures match ByName(fields, name)
            case Some(fd) => fd in fields && fd.name == name
            case None => forall fd :: fd in fields ==> fd.name != name
    ensures match ByJsonName(fields, name)
            case Some(fd) => fd in fields && fd.jsonName == name
            case None => forall fd :: fd in fields ==> fd.jsonName != name
  {
    if fields != [] {
      ByNameMeans(fields[1..], name);
    }
  }

  /** A key stands for the field with that proto name; only if there is none, for one with that JSON
      name. */
  lemma {:induction false} GetFieldMeans(schema: Schema, msg: string, name: string)
    ensures
      var fields := FieldsOf(schema, msg);
      match GetField(schema, msg, name)
      case Some(fd) =>
        fd in fields && (fd.name == name || (fd.jsonName == name && forall gd :: gd in fields ==> gd.name != name))
      case None => forall fd :: fd in fields ==> fd.name != name && fd.jsonName != name
  {
    ByNameMeans(FieldsOf(schema, msg), name);
  }
}
