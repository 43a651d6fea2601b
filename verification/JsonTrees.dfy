/** JSON values as trees: the text level is the business of the JSON library. */
module JsonTrees {
  import opened Wrappers
  import opened Utf8

  /** A number that is not an integer literal is told apart, its value is not needed. */
  datatype Json =
    | JNull | JBool(b: bool) | JInteger(n: int) | JOtherNumber
    | JString(s: string) | JArray(items: seq<Json>) | JObject(members: map<string, Json>)

  /** encoding/json/v2 reads null into a string as "". */
  function StringOf(j: Json): Option<string> {
    match j
    case JString(s) => Some(s)
    case JNull => Some("")
    case _ => None
  }

  function At(m: map<string, Json>, name: string): Option<Json> {
    if name in m then Some(m[name]) else None
  }

  /** A struct field of type string; an absent member leaves it empty. */
  function StringMember(m: map<string, Json>, name: string): Option<string> {
    match At(m, name)
    case None => Some("")
    case Some(j) => StringOf(j)
  }

  /** A string member with "omitempty". */
  function OmitEmpty(s: string): Option<Json> {
    if s == "" then None else Some(JString(s))
  }

  /** The object with the given members, those without a value left out. */
  function Written(names: set<string>, member: string -> Option<Json>): (m: map<string, Json>)
    ensures forall name :: At(m, name) == if name in names then member(name) else None
  {
    map name | name in names && member(name).Some? :: member(name).value
  }

  // ---- Text in trees ---------------------------------------------------------------

  /** Strings, arrays and objects only, with ASCII member names. */
  predicate IsTextTree(j: Json) {
    match j
    case JString(_) => true
    case JArray(items) => forall i :: 0 <= i < |items| ==> IsTextTree(items[i])
    case JObject(members) => forall name :: name in members ==> Ascii(name) && IsTextTree(members[name])
    case _ => false
  }

  /** A text tree whose strings are ASCII too. */
  predicate IsAsciiTree(j: Json) {
    match j
    case JString(s) => Ascii(s)
    case JArray(items) => forall i :: 0 <= i < |items| ==> IsAsciiTree(items[i])
    case JObject(members) => forall name :: name in members ==> Ascii(name) && IsAsciiTree(members[name])
    case _ => false
  }

  /** The tree with its strings mended. */
  function MendedTree(j: Json): Json {
    match j
    case JString(s) => JString(Mended(s))
    case JArray(items) => JArray(seq(|items|, i requires 0 <= i < |items| => MendedTree(items[i])))
    case JObject(members) => JObject(map name | name in members :: MendedTree(members[name]))
    case _ => j
  }

  function MendedMembers(m: map<string, Json>): (r: map<string, Json>)
    ensures forall name :: At(r, name) == if name in m then Some(MendedTree(m[name])) else None
  {
    map name | name in m :: MendedTree(m[name])
  }

  lemma {:induction false} AsciiTreeIsMended(j: Json)
    requires IsAsciiTree(j)
    ensures IsTextTree(j) && MendedTree(j) == j
  {
    match j
    case JString(s) => AsciiIsValid(s);
    case JArray(items) =>
      forall i | 0 <= i < |items|
        ensures IsTextTree(items[i]) && MendedTree(items[i]) == items[i]
      {
        AsciiTreeIsMended(items[i]);
      }
    case JObject(members) =>
      forall name | name in members
        ensures IsTextTree(members[name]) && MendedTree(members[name]) == members[name]
      {
        AsciiTreeIsMended(members[name]);
      }
  }

  // ---- Fields ----------------------------------------------------------------------

  /** A string field takes a string, and null for the empty one. */
  lemma StringExactly(j: Json, s: string)
    ensures StringOf(j) == Some(s) <==> j == JString(s) || (j == JNull && s == "")
  {
  }

  /** An absent member is empty, and an empty one with "omitempty" is absent. */
  lemma FieldExactly(m: map<string, Json>, name: string, s: string)
    ensures StringMember(m, name) == Some(s) <==>
      if name in m then m[name] == JString(s) || (m[name] == JNull && s == "") else s == ""
    ensures OmitEmpty(s) == None <==> s == ""
    ensures s != "" ==> OmitEmpty(s) == Some(JString(s))
  {
  }
}
