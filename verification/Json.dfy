/** JSON documents as the synchroniser sees them: objects are unordered maps of
    raw members. Numbers are kept as their literal text. */
module JsonDocs {

  datatype Json =
    | JNull
    | JBool(b: bool)
    | JNum(literal: string)
    | JStr(s: string)
    | JArr(items: seq<Json>)
    | JObj(members: map<string, Json>)

  type Object = map<string, Json>

  /** The members of an object; any other document reads as having none. */
  function Members(j: Json): Object {
    if j.JObj? then j.members else map[]
  }

  /** Decoding into a string variable with the error ignored: anything that is
      not a string leaves the variable empty. */
  function StringAt(o: Object, key: string): string {
    if key in o && o[key].JStr? then o[key].s else ""
  }

  /** Decoding into an object variable with the error ignored. */
  function ObjectAt(o: Object, key: string): Object {
    if key in o then Members(o[key]) else map[]
  }
}
