/**
 Conceptual message wrappers (section 6 of RFC 9999) as JSON trees: validation, marshalling
 and parsing of nested collections, with one depth limit.
 */
module Cmws {
  import opened Wrappers
  import opened Bytes
  import opened JsonTrees
  import B64

  type U32 = x: int | 0 <= x < 0x1_0000_0000

  datatype Record = Record(mediaType: string, value: seq<byte>, indicator: Option<U32>)
  datatype Collection = Collection(kind: string, members: map<string, Cmw>)

  /** Meant to hold exactly one of the two. */
  datatype Cmw = Cmw(record: Option<Record>, collection: Option<Collection>)

  /** The media-type and collection-type checks, which are library regular expressions and URI parsing. */
  datatype Rules = Rules(mediaType: string -> bool, collectionType: string -> bool)

  const TYPE_KEY := "__cmwc_t"
  const MAX_DEPTH: nat := 16

  // ---- Validation ------------------------------------------------------------------

  predicate Valid(rules: Rules, c: Cmw, depth: nat)
    decreases c
  {
    && depth <= MAX_DEPTH
    && match (c.record, c.collection)
       case (Some(r), None) => rules.mediaType(r.mediaType)
       case (None, Some(col)) =>
         && (col.kind != "" ==> rules.collectionType(col.kind))
         && col.members != map[]
         && forall name | name in col.members :: name != TYPE_KEY && Valid(rules, col.members[name], depth + 1)
       case _ => false
  }

  /** What is valid inside a collection is valid on its own, as marshalling its members rechecks. */
  lemma {:induction false} ValidHigherUp(rules: Rules, c: Cmw, depth: nat, higher: nat)
    requires Valid(rules, c, depth) && higher <= depth
    ensures Valid(rules, c, higher)
    decreases c
  {
    if c.collection.Some? {
      var members := c.collection.value.members;
      forall name | name in members
        ensures Valid(rules, members[name], higher + 1)
      {
        ValidHigherUp(rules, members[name], depth + 1, higher + 1);
      }
    }
  }

  // ---- Marshalling -----------------------------------------------------------------

  function RecordTree(r: Record): Json {
    JArray([JString(r.mediaType), JString(B64.Encode(r.value))] +
           if r.indicator.Some? then [JInteger(r.indicator.value)] else [])
  }

  function CollectionTree(kind: string, trees: map<string, Json>): Json {
    JObject((if kind != "" then map[TYPE_KEY := JString(kind)] else map[]) + trees)
  }

  /** marshal, with MarshalJSON validating every member again from depth zero. */
  function Marshalled(rules: Rules, c: Cmw): Option<Json>
    decreases c
  {
    if !Valid(rules, c, 0) then None
    else if c.record.Some? then Some(RecordTree(c.record.value))
    else
      var col := c.collection.value;
      if exists name | name in col.members :: Marshalled(rules, col.members[name]).None? then None
      else Some(CollectionTree(col.kind, map name | name in col.members :: Marshalled(rules, col.members[name]).value))
  }

  /** The tree itself, without the checks; a value that holds neither alternative has none. */
  function Tree(c: Cmw): Json
    decreases c
  {
    if c.record.Some? then RecordTree(c.record.value)
    else if c.collection.Some? then
      var col := c.collection.value;
      CollectionTree(col.kind, map name | name in col.members :: Tree(col.members[name]))
    else JNull
  }

  /** The repeated validation never gets in the way. */
  lemma {:induction false} MarshallingSucceeds(rules: Rules, c: Cmw)
    requires Valid(rules, c, 0)
    ensures Marshalled(rules, c) == Some(Tree(c))
    decreases c
  {
    if c.collection.Some? {
      var members := c.collection.value.members;
      forall name | name in members
        ensures Marshalled(rules, members[name]) == Some(Tree(members[name]))
      {
        ValidHigherUp(rules, members[name], 1, 0);
        MarshallingSucceeds(rules, members[name]);
      }
      MembersMarshalled(rules, c);
    }
  }

  lemma MembersMarshalled(rules: Rules, c: Cmw)
    requires Valid(rules, c, 0) && c.collection.Some?
    requires forall name :: name in c.collection.value.members ==>
      Marshalled(rules, c.collection.value.members[name]) == Some(Tree(c.collection.value.members[name]))
    ensures Marshalled(rules, c) == Some(Tree(c))
  {
    var members := c.collection.value.members;
    var a := map name | name in members :: Marshalled(rules, members[name]).value;
    var b := map name | name in members :: Tree(members[name]);
    assert a == b;
  }

  // ---- Parsing ---------------------------------------------------------------------

  function U32Of(j: Json): Option<U32> {
    match j
    case JInteger(n) => if 0 <= n < 0x1_0000_0000 then Some(n) else None
    case JNull => Some(0)
    case _ => None
  }

  /** cmwBase64URL requires at least one character. */
  predicate IsEncodedValue(s: string) {
    s != "" && B64.AlphabetText(s)
  }

  function ParsedRecord(rules: Rules, items: seq<Json>): Option<Record> {
    if |items| < 2 || |items| > 3 then None
    else
      var mediaType, encoded := StringOf(items[0]), StringOf(items[1]);
      if mediaType.None? || !rules.mediaType(mediaType.value) then None
      else if encoded.None? || !IsEncodedValue(encoded.value) then None
      else
        var value := B64.StdDecode(false, encoded.value);
        var bits := if |items| == 3 then U32Of(items[2]) else None;
        if value.None? || (|items| == 3 && bits.None?) then None
        else Some(Record(mediaType.value, value.value, bits))
  }

  /** The "__cmwc_t" member, when present, must be a string that passes the check. */
  function ParsedKind(rules: Rules, members: map<string, Json>): Option<string> {
    if TYPE_KEY !in members then Some("")
    else
      match StringOf(members[TYPE_KEY])
      case None => None
      case Some(kind) => if rules.collectionType(kind) then Some(kind) else None
  }

  /** A collection of the members' results: all must have parsed, and there must be one. */
  function Assembled(kind: Option<string>, results: map<string, Option<Cmw>>): Option<Cmw> {
    if kind.None? || results == map[] || exists name | name in results :: results[name].None? then None
    else Some(Cmw(None, Some(Collection(kind.value, map name | name in results :: results[name].value))))
  }

  function Parsed(rules: Rules, j: Json, depth: nat): Option<Cmw>
    decreases j
  {
    if depth > MAX_DEPTH then None
    else
      match j
      case JArray(items) =>
        (match ParsedRecord(rules, items)
         case None => None
         case Some(r) => Some(Cmw(Some(r), None)))
      case JObject(members) =>
        Assembled(ParsedKind(rules, members),
                  map name | name in members && name != TYPE_KEY :: Parsed(rules, members[name], depth + 1))
      case _ => None
  }

  /** parseCMW, with parseCMWCollection's loop filling the member map name by name. */
  method ParseCmw(rules: Rules, j: Json, depth: nat) returns (r: Option<Cmw>)
    ensures r == Parsed(rules, j, depth)
    decreases j, 1
  {
    if depth > MAX_DEPTH {
      return None;
    }
    match j {
      case JArray(items) =>
        var record := ParsedRecord(rules, items);
        if record.None? {
          return None;
        }
        return Some(Cmw(record, None));
      case JObject(_) =>
        r := ParseCollection(rules, j, depth);
      case _ =>
        return None;
    }
  }

  method ParseCollection(rules: Rules, j: Json, depth: nat) returns (r: Option<Cmw>)
    requires j.JObject? && depth <= MAX_DEPTH
    ensures r == Parsed(rules, j, depth)
    decreases j, 0
  {
    var members := j.members;
    var kind := "";
    var filled: map<string, Cmw> := map[];
    var todo := members.Keys;
    while todo != {}
      invariant todo <= members.Keys
      invariant filled.Keys == members.Keys - todo - {TYPE_KEY}
      invariant forall name :: name in filled ==> Parsed(rules, members[name], depth + 1) == Some(filled[name])
      invariant TYPE_KEY in members && TYPE_KEY !in todo ==> ParsedKind(rules, members) == Some(kind)
      invariant TYPE_KEY !in members ==> kind == ""
      decreases todo
    {
      var name :| name in todo;
      todo := todo - {name};
      if name == TYPE_KEY {
        var text := StringOf(members[name]);
        if text.None? || !rules.collectionType(text.value) {
          return None;
        }
        kind := text.value;
        continue;
      }
      var member := ParseCmw(rules, members[name], depth + 1);
      if member.None? {
        MemberRefused(rules, j, depth, name);
        return None;
      }
      filled := filled[name := member.value];
    }
    CollectionParsed(rules, j, depth, kind, filled);
    if filled == map[] {
      return None;
    }
    r := Some(Cmw(None, Some(Collection(kind, filled))));
  }

  lemma CollectionParsed(rules: Rules, j: Json, depth: nat, kind: string, filled: map<string, Cmw>)
    requires j.JObject? && depth <= MAX_DEPTH && ParsedKind(rules, j.members) == Some(kind)
    requires filled.Keys == j.members.Keys - {TYPE_KEY}
    requires forall name :: name in filled ==> Parsed(rules, j.members[name], depth + 1) == Some(filled[name])
    ensures Parsed(rules, j, depth) == if filled == map[] then None else Some(Cmw(None, Some(Collection(kind, filled))))
  {
    var results := map name | name in filled :: Some(filled[name]);
    assert forall name :: name in filled <==> name in j.members && name != TYPE_KEY;
    assert (map name | name in j.members && name != TYPE_KEY :: Parsed(rules, j.members[name], depth + 1)) == results;
    AllParsed(kind, filled, results);
  }

  lemma AllParsed(kind: string, filled: map<string, Cmw>, results: map<string, Option<Cmw>>)
    requires results == map name | name in filled :: Some(filled[name])
    ensures Assembled(Some(kind), results) == if filled == map[] then None else Some(Cmw(None, Some(Collection(kind, filled))))
  {
    if filled != map[] {
      var name :| name in filled;
      assert name in results;
      assert (map name | name in results :: results[name].value) == filled;
    }
  }

  lemma MemberRefused(rules: Rules, j: Json, depth: nat, name: string)
    requires j.JObject? && name in j.members && name != TYPE_KEY && Parsed(rules, j.members[name], depth + 1).None?
    ensures Parsed(rules, j, depth) == None
  {
    var results := map name | name in j.members && name != TYPE_KEY :: Parsed(rules, j.members[name], depth + 1);
    assert name in results && results[name].None?;
  }

  // ---- Round trips -----------------------------------------------------------------

  /** No record anywhere in the tree has an empty value. */
  predicate ValuesGiven(c: Cmw)
    decreases c
  {
    && (c.record.Some? ==> c.record.value.value != [])
    && (c.collection.Some? ==>
          forall name | name in c.collection.value.members :: ValuesGiven(c.collection.value.members[name]))
  }

  lemma RecordRoundTrip(rules: Rules, r: Record)
    requires rules.mediaType(r.mediaType)
    ensures ParsedRecord(rules, RecordTree(r).items) == if r.value != [] then Some(r) else None
  {
    ValueRoundTrip(r.value);
  }

  lemma ValueRoundTrip(value: seq<byte>)
    ensures IsEncodedValue(B64.Encode(value)) <==> value != []
    ensures B64.StdDecode(false, B64.Encode(value)) == Some(value)
  {
    B64.DecodeTextOfEncode(false, value);
    B64.SextetCount(value);
    var s := B64.Encode(value);
    assert !B64.HasLineBreak(s);
    B64.NothingSkipped(s);
  }

  /** Parsing a valid value's tree gives it back, or refuses it when some record is empty. */
  lemma {:induction false} TreeRoundTrip(rules: Rules, c: Cmw, depth: nat)
    requires Valid(rules, c, depth)
    ensures Parsed(rules, Tree(c), depth) == if ValuesGiven(c) then Some(c) else None
    decreases c
  {
    if c.record.Some? {
      RecordRoundTrip(rules, c.record.value);
    } else {
      var members := c.collection.value.members;
      forall name | name in members
        ensures Parsed(rules, Tree(members[name]), depth + 1) == if ValuesGiven(members[name]) then Some(members[name]) else None
      {
        TreeRoundTrip(rules, members[name], depth + 1);
      }
      CollectionRoundTrip(rules, c, depth);
    }
  }

  lemma CollectionRoundTrip(rules: Rules, c: Cmw, depth: nat)
    requires Valid(rules, c, depth) && c.collection.Some?
    requires forall name :: name in c.collection.value.members ==>
      Parsed(rules, Tree(c.collection.value.members[name]), depth + 1) ==
        if ValuesGiven(c.collection.value.members[name]) then Some(c.collection.value.members[name]) else None
    ensures Parsed(rules, Tree(c), depth) == if ValuesGiven(c) then Some(c) else None
  {
    var col := c.collection.value;
    var trees := map name | name in col.members :: Tree(col.members[name]);
    var j := CollectionTree(col.kind, trees);
    CollectionTreeMembers(rules, col.kind, trees);
    if ValuesGiven(c) {
      CollectionParsed(rules, j, depth, col.kind, col.members);
    } else {
      var name :| name in col.members && !ValuesGiven(col.members[name]);
      MemberRefused(rules, j, depth, name);
    }
  }

  lemma CollectionTreeMembers(rules: Rules, kind: string, trees: map<string, Json>)
    requires TYPE_KEY !in trees && (kind != "" ==> rules.collectionType(kind))
    ensures
      var j := CollectionTree(kind, trees);
      && ParsedKind(rules, j.members) == Some(kind)
      && j.members.Keys - {TYPE_KEY} == trees.Keys
      && forall name :: name in trees ==> name in j.members && j.members[name] == trees[name]
  {
  }

  /**
   A CMW that marshals parses back to itself exactly when no record value is empty: validation
   takes an empty value, the parser refuses it.
   */
  lemma MarshalThenParse(rules: Rules, c: Cmw)
    requires Marshalled(rules, c).Some?
    ensures Parsed(rules, Marshalled(rules, c).value, 0) == Some(c) <==> ValuesGiven(c)
    ensures !ValuesGiven(c) ==> Parsed(rules, Marshalled(rules, c).value, 0) == None
  {
    MarshallingSucceeds(rules, c);
    TreeRoundTrip(rules, c, 0);
  }

  lemma DecodedIsGiven(s: string)
    requires IsEncodedValue(s) && B64.StdDecode(false, s).Some?
    ensures B64.StdDecode(false, s).value != []
  {
    assert !B64.HasLineBreak(s);
    B64.NothingSkipped(s);
  }

  /** Whatever parses at a depth validates at that depth, and has no empty record value. */
  lemma {:induction false} ParsedIsValid(rules: Rules, j: Json, depth: nat)
    requires Parsed(rules, j, depth).Some?
    ensures Valid(rules, Parsed(rules, j, depth).value, depth) && ValuesGiven(Parsed(rules, j, depth).value)
    decreases j
  {
    match j
    case JArray(items) =>
      DecodedIsGiven(StringOf(items[1]).value);
    case JObject(members) =>
      var c := Parsed(rules, j, depth).value;
      forall name | name in c.collection.value.members
        ensures Valid(rules, c.collection.value.members[name], depth + 1)
        ensures ValuesGiven(c.collection.value.members[name])
      {
        ParsedIsValid(rules, members[name], depth + 1);
      }
  }

  /** What was parsed can be sent on: it marshals, and that parses to the same value. */
  lemma ParseThenMarshal(rules: Rules, j: Json)
    requires Parsed(rules, j, 0).Some?
    ensures
      var c := Parsed(rules, j, 0).value;
      Marshalled(rules, c).Some? && Parsed(rules, Marshalled(rules, c).value, 0) == Some(c)
  {
    ParsedIsValid(rules, j, 0);
    MarshallingSucceeds(rules, Parsed(rules, j, 0).value);
    MarshalThenParse(rules, Parsed(rules, j, 0).value);
  }

  /** `n` single-member collections around a CMW. */
  function Nested(c: Cmw, name: string, n: nat): Cmw {
    if n == 0 then c else Cmw(None, Some(Collection("", map[name := Nested(c, name, n - 1)])))
  }

  lemma {:induction false} NestedValid(rules: Rules, c: Cmw, name: string, n: nat, depth: nat)
    requires name != TYPE_KEY && c.record.Some? && c.collection.None? && rules.mediaType(c.record.value.mediaType)
    ensures Valid(rules, Nested(c, name, n), depth) <==> depth + n <= MAX_DEPTH
    decreases n
  {
    if n > 0 {
      NestedValid(rules, c, name, n - 1, depth + 1);
      assert Nested(c, name, n).collection.value.members[name] == Nested(c, name, n - 1);
    }
  }

  /** The parser and the validator accept the same trees at every depth, empty record values aside. */
  lemma ParserAgreesWithValidator(rules: Rules, c: Cmw, depth: nat)
    ensures Parsed(rules, Tree(c), depth) == Some(c) <==> Valid(rules, c, depth) && ValuesGiven(c)
  {
    if Valid(rules, c, depth) {
      TreeRoundTrip(rules, c, depth);
    } else if Parsed(rules, Tree(c), depth) == Some(c) {
      ParsedIsValid(rules, Tree(c), depth);
    }
  }

  /** A record may sit in at most 16 collections, for the validator and for the parser alike. */
  lemma SameDepthLimit(rules: Rules, c: Cmw, name: string, n: nat)
    requires name != TYPE_KEY && c.record.Some? && c.collection.None? && rules.mediaType(c.record.value.mediaType)
    requires c.record.value.value != []
    ensures Valid(rules, Nested(c, name, n), 0) <==> n <= 16
    ensures Parsed(rules, Tree(Nested(c, name, n)), 0) == Some(Nested(c, name, n)) <==> n <= 16
  {
    NestedValid(rules, c, name, n, 0);
    NestedValues(c, name, n);
    ParserAgreesWithValidator(rules, Nested(c, name, n), 0);
  }

  lemma {:induction false} NestedValues(c: Cmw, name: string, n: nat)
    requires c.record.Some? && c.record.value.value != [] && c.collection.None?
    ensures ValuesGiven(Nested(c, name, n))
    decreases n
  {
    if n > 0 {
      NestedValues(c, name, n - 1);
    }
  }

  // ---- What is parsed --------------------------------------------------------------

  /** An indicator is a 32-bit unsigned integer; null reads as zero. */
  lemma IndicatorExactly(j: Json, n: U32)
    ensures U32Of(j) == Some(n) <==> (j == JInteger(n) || (j == JNull && n == 0))
  {
  }

  predicate IsBase64UrlChar(c: char) {
    'A' <= c <= 'Z' || 'a' <= c <= 'z' || '0' <= c <= '9' || c == '-' || c == '_'
  }

  lemma EncodedValueExactly(s: string)
    ensures IsEncodedValue(s) <==> s != "" && forall i :: 0 <= i < |s| ==> IsBase64UrlChar(s[i])
  {
  }

  /** A record is an array of a media type, a base64url value of at least one character, and perhaps an indicator. */
  lemma RecordExactly(rules: Rules, items: seq<Json>, r: Record)
    ensures ParsedRecord(rules, items) == Some(r) <==>
      && (|items| == 2 || |items| == 3)
      && StringOf(items[0]) == Some(r.mediaType) && rules.mediaType(r.mediaType)
      && StringOf(items[1]).Some? && IsEncodedValue(StringOf(items[1]).value)
      && B64.StdDecode(false, StringOf(items[1]).value) == Some(r.value)
      && r.indicator == (if |items| == 3 then U32Of(items[2]) else None) && (|items| == 3 ==> r.indicator.Some?)
  {
  }

  lemma AssembledExactly(kind: Option<string>, results: map<string, Option<Cmw>>, c: Cmw)
    ensures Assembled(kind, results) == Some(c) <==>
      && kind.Some? && c.record == None && c.collection.Some? && c.collection.value.kind == kind.value
      && results != map[] && c.collection.value.members.Keys == results.Keys
      && forall name :: name in results ==> results[name] == Some(c.collection.value.members[name])
  {
    if kind.Some? && forall name :: name in results ==> results[name].Some? {
      var members := map name | name in results :: results[name].value;
      if c.collection.Some? && c.collection.value.members.Keys == results.Keys &&
         forall name :: name in results ==> results[name] == Some(c.collection.value.members[name]) {
        assert members == c.collection.value.members;
      }
    }
  }

  /** A collection is an object of at least one value; "__cmwc_t", when present, is its type and passes the check. */
  lemma CollectionExactly(rules: Rules, members: map<string, Json>, depth: nat, c: Cmw)
    ensures Parsed(rules, JObject(members), depth) == Some(c) <==>
      && depth <= 16 && c.record == None && c.collection.Some?
      && (if "__cmwc_t" in members
          then StringOf(members["__cmwc_t"]) == Some(c.collection.value.kind) && rules.collectionType(c.collection.value.kind)
          else c.collection.value.kind == "")
      && c.collection.value.members != map[] && c.collection.value.members.Keys == members.Keys - {"__cmwc_t"}
      && forall name :: name in c.collection.value.members ==>
           Parsed(rules, members[name], depth + 1) == Some(c.collection.value.members[name])
  {
    var results := map name | name in members && name != TYPE_KEY :: Parsed(rules, members[name], depth + 1);
    AssembledExactly(ParsedKind(rules, members), results, c);
    assert results.Keys == members.Keys - {TYPE_KEY};
    assert results == map[] <==> results.Keys == {};
    if c.collection.Some? {
      assert c.collection.value.members == map[] <==> c.collection.value.members.Keys == {};
    }
  }

  /** Nothing but arrays and objects is a wrapper. */
  lemma ScalarsAreRefused(rules: Rules, j: Json, depth: nat)
    requires !j.JArray? && !j.JObject?
    ensures Parsed(rules, j, depth) == None
  {
  }

  /** A record's tree: its type, its value in base64url, and its indicator if it has one. */
  lemma RecordTreeExactly(rules: Rules, r: Record)
    requires rules.mediaType(r.mediaType)
    ensures Marshalled(rules, Cmw(Some(r), None)).Some?
    ensures
      var j := Marshalled(rules, Cmw(Some(r), None)).value;
      && j.JArray? && |j.items| == (if r.indicator.Some? then 3 else 2)
      && j.items[0] == JString(r.mediaType) && j.items[1].JString? && B64.Decode(j.items[1].s) == Some(r.value)
      && (r.indicator.Some? ==> j.items[2] == JInteger(r.indicator.value))
  {
    B64.DecodeIsExactlyInverse(B64.Encode(r.value), r.value);
  }

  lemma TreeMembers(kind: string, trees: map<string, Json>)
    requires TYPE_KEY !in trees
    ensures
      var j := CollectionTree(kind, trees);
      && (forall name :: name in trees ==> At(j.members, name) == Some(trees[name]))
      && At(j.members, "__cmwc_t") == (if kind == "" then None else Some(JString(kind)))
      && j.members.Keys - {"__cmwc_t"} == trees.Keys
  {
  }

  lemma MembersAreMarshalled(rules: Rules, c: Cmw, name: string)
    requires Valid(rules, c, 0) && c.collection.Some? && name in c.collection.value.members
    ensures
      var m := c.collection.value.members[name];
      Marshalled(rules, m) == Some(Tree(m))
  {
    ValidHigherUp(rules, c.collection.value.members[name], 1, 0);
    MarshallingSucceeds(rules, c.collection.value.members[name]);
  }

  /** A collection's tree: its members' trees, and its type under "__cmwc_t" if it has one. */
  lemma CollectionTreeExactly(rules: Rules, c: Cmw)
    requires Valid(rules, c, 0) && c.collection.Some?
    ensures Marshalled(rules, c).Some? && Marshalled(rules, c).value.JObject?
    ensures
      var members, col := Marshalled(rules, c).value.members, c.collection.value;
      && (forall name :: name in col.members ==> At(members, name) == Marshalled(rules, col.members[name]))
      && At(members, "__cmwc_t") == (if col.kind == "" then None else Some(JString(col.kind)))
      && members.Keys - {"__cmwc_t"} == col.members.Keys
  {
    var col := c.collection.value;
    var trees := map name | name in col.members :: Tree(col.members[name]);
    MarshallingSucceeds(rules, c);
    TreeMembers(col.kind, trees);
    forall name | name in col.members
      ensures Marshalled(rules, col.members[name]) == Some(trees[name])
    {
      MembersAreMarshalled(rules, c, name);
    }
  }
}
