/** The protected header of a JWE (section 4 of RFC 7516), written to and read from its members. */
module JweHeaders {
  import opened Wrappers
  import opened Keys
  import opened JsonTrees
  import opened Utf8
  import KeyJson

  datatype Header = Header(
    alg: string, enc: string, kid: string, typ: string, cty: string, epk: Option<Key>,
    apu: string, apv: string, apuPresent: bool, apvPresent: bool)

  const NAMES := {"alg", "enc", "kid", "typ", "cty", "epk", "apu", "apv"}

  function EpkMember(epk: Option<Key>): Option<Json> {
    if epk.Some? && KeyJson.KeyMembers(epk.value).Some? then Some(JObject(KeyJson.KeyMembers(epk.value).value)) else None
  }

  function TextField(h: Header, name: string): string {
    if name == "alg" then h.alg
    else if name == "enc" then h.enc
    else if name == "kid" then h.kid
    else if name == "typ" then h.typ
    else if name == "cty" then h.cty
    else if name == "apu" then h.apu
    else if name == "apv" then h.apv
    else ""
  }

  function MemberOf(h: Header, name: string): Option<Json> {
    if name == "epk" then EpkMember(h.epk)
    else if name == "alg" || name == "enc" then Some(JString(TextField(h, name)))
    else OmitEmpty(TextField(h, name))
  }

  /** json.Marshal of a header; a key that refuses to marshal makes it fail. */
  function HeaderMembers(h: Header): Option<map<string, Json>> {
    if h.epk.Some? && KeyJson.KeyMembers(h.epk.value).None? then None
    else Some(Written(NAMES, name => MemberOf(h, name)))
  }

  function EpkFrom(m: map<string, Json>): Option<Option<Key>> {
    match At(m, "epk")
    case None => Some(None)
    case Some(JNull) => Some(None)
    case Some(JObject(members)) =>
      (match KeyJson.KeyFrom(members)
       case None => None
       case Some(k) => Some(Some(k)))
    case _ => None
  }

  /** The typed decoding, with the presence of "apu" and "apv" noted as parseJWEProtected does. */
  function HeaderFrom(m: map<string, Json>): Option<Header> {
    var alg, enc, kid := StringMember(m, "alg"), StringMember(m, "enc"), StringMember(m, "kid");
    var typ, cty, apu, apv := StringMember(m, "typ"), StringMember(m, "cty"), StringMember(m, "apu"), StringMember(m, "apv");
    var epk := EpkFrom(m);
    if alg.None? || enc.None? || kid.None? || typ.None? || cty.None? || apu.None? || apv.None? || epk.None? then None
    else Some(Header(alg.value, enc.value, kid.value, typ.value, cty.value, epk.value, apu.value, apv.value, "apu" in m, "apv" in m))
  }

  const PRIVATE_NAMES := ["d", "k", "p", "q", "dp", "dq", "qi", "oth"]

  predicate NamesPrivatePart(members: map<string, Json>) {
    exists i :: 0 <= i < |PRIVATE_NAMES| && PRIVATE_NAMES[i] in members
  }

  /** The ephemeral key, when given, is an object without private members. */
  predicate EpkIsPublic(m: map<string, Json>) {
    match At(m, "epk")
    case None => true
    case Some(JObject(members)) => !NamesPrivatePart(members)
    case _ => false
  }

  predicate WritableKey(k: Key) {
    k.kty != OCT && Canonical(k) && k.k == []
  }

  /** What a header needs to come back as it was written. */
  predicate Writable(h: Header) {
    && (h.epk.Some? ==> WritableKey(h.epk.value))
    && h.apuPresent == (h.apu != "") && h.apvPresent == (h.apv != "")
  }

  /** A text member is absent only when it may be left out and is empty. */
  lemma FieldReadsBack(h: Header, name: string)
    requires HeaderMembers(h).Some? && name in NAMES && name != "epk"
    ensures
      var m := HeaderMembers(h).value;
      && StringMember(m, name) == Some(TextField(h, name))
      && (name in m <==> name == "alg" || name == "enc" || TextField(h, name) != "")
  {
    var m := HeaderMembers(h).value;
    assert At(m, name) == MemberOf(h, name);
  }

  lemma NamesOfTexts()
    ensures "alg" in NAMES && "enc" in NAMES && "kid" in NAMES && "typ" in NAMES && "cty" in NAMES
    ensures "apu" in NAMES && "apv" in NAMES
  {
  }

  lemma FieldsNamed(h: Header)
    ensures TextField(h, "alg") == h.alg && TextField(h, "enc") == h.enc && TextField(h, "kid") == h.kid
    ensures TextField(h, "typ") == h.typ && TextField(h, "cty") == h.cty
    ensures TextField(h, "apu") == h.apu && TextField(h, "apv") == h.apv
  {
  }

  lemma TextMembersReadBack(h: Header)
    requires HeaderMembers(h).Some?
    ensures
      var m := HeaderMembers(h).value;
      && StringMember(m, "alg") == Some(h.alg) && StringMember(m, "enc") == Some(h.enc)
      && StringMember(m, "kid") == Some(h.kid) && StringMember(m, "typ") == Some(h.typ)
      && StringMember(m, "cty") == Some(h.cty)
  {
    NamesOfTexts();
    FieldsNamed(h);
    FieldReadsBack(h, "alg");
    FieldReadsBack(h, "enc");
    FieldReadsBack(h, "kid");
    FieldReadsBack(h, "typ");
    FieldReadsBack(h, "cty");
  }

  lemma PartyMembersReadBack(h: Header)
    requires HeaderMembers(h).Some?
    ensures
      var m := HeaderMembers(h).value;
      && StringMember(m, "apu") == Some(h.apu) && StringMember(m, "apv") == Some(h.apv)
      && ("apu" in m <==> h.apu != "") && ("apv" in m <==> h.apv != "")
  {
    NamesOfTexts();
    FieldsNamed(h);
    FieldReadsBack(h, "apu");
    FieldReadsBack(h, "apv");
  }

  lemma OtherMembersAbsent(h: Header)
    requires HeaderMembers(h).Some?
    ensures
      var m := HeaderMembers(h).value;
      At(m, "epk") == EpkMember(h.epk) && "zip" !in m && "crit" !in m
  {
    EpkMemberWritten(h);
    ZipAndCritAreOthers();
    NameAbsent(h, "zip");
    NameAbsent(h, "crit");
  }

  lemma ZipAndCritAreOthers()
    ensures "zip" !in NAMES && "crit" !in NAMES
  {
  }

  lemma EpkMemberWritten(h: Header)
    requires HeaderMembers(h).Some?
    ensures At(HeaderMembers(h).value, "epk") == EpkMember(h.epk)
  {
  }

  lemma NameAbsent(h: Header, name: string)
    requires HeaderMembers(h).Some? && name !in NAMES
    ensures name !in HeaderMembers(h).value
  {
    assert At(HeaderMembers(h).value, name) == None;
  }

  lemma PublicMembers(k: Key)
    requires KeyJson.KeyMembers(k).Some?
    ensures !NamesPrivatePart(KeyJson.KeyMembers(k).value)
  {
    var m := KeyJson.KeyMembers(k).value;
    forall i | 0 <= i < |PRIVATE_NAMES|
      ensures PRIVATE_NAMES[i] !in m
    {
      PrivateNamesAreOthers(i);
      assert At(m, PRIVATE_NAMES[i]) == None;
    }
  }

  lemma PrivateNamesAreOthers(i: nat)
    requires i < |PRIVATE_NAMES|
    ensures PRIVATE_NAMES[i] !in KeyJson.NAMES
  {
  }

  lemma EpkReadsBack(m: map<string, Json>, epk: Option<Key>)
    requires At(m, "epk") == EpkMember(epk)
    requires epk.Some? ==> WritableKey(epk.value)
    ensures EpkFrom(m) == Some(epk) && EpkIsPublic(m)
  {
    if epk.Some? {
      KeyJson.KeyRoundTrip(epk.value);
      PublicMembers(epk.value);
    }
  }

  lemma AllReadBack(m: map<string, Json>, h: Header)
    requires StringMember(m, "alg") == Some(h.alg) && StringMember(m, "enc") == Some(h.enc)
    requires StringMember(m, "kid") == Some(h.kid) && StringMember(m, "typ") == Some(h.typ)
    requires StringMember(m, "cty") == Some(h.cty) && EpkFrom(m) == Some(h.epk)
    requires StringMember(m, "apu") == Some(h.apu) && StringMember(m, "apv") == Some(h.apv)
    requires h.apuPresent == ("apu" in m) && h.apvPresent == ("apv" in m)
    ensures HeaderFrom(m) == Some(h)
  {
  }

  /** A header reads back as it was written: every member, the ephemeral key included. */
  lemma HeaderRoundTrip(h: Header)
    requires Writable(h)
    ensures
      && HeaderMembers(h).Some?
      && HeaderFrom(HeaderMembers(h).value) == Some(h)
      && EpkIsPublic(HeaderMembers(h).value)
  {
    var m := HeaderMembers(h).value;
    TextMembersReadBack(h);
    PartyMembersReadBack(h);
    OtherMembersAbsent(h);
    EpkReadsBack(m, h.epk);
    AllReadBack(m, h);
  }

  // ---- Through the JSON text -------------------------------------------------------

  /** The header with its texts as json.Marshal writes them. */
  function MendedHeader(h: Header): Header {
    h.(alg := Mended(h.alg), enc := Mended(h.enc), kid := Mended(h.kid), typ := Mended(h.typ), cty := Mended(h.cty),
       apu := Mended(h.apu), apv := Mended(h.apv))
  }

  function MendedOption(j: Option<Json>): Option<Json> {
    if j.Some? then Some(MendedTree(j.value)) else None
  }

  lemma MendedOmitEmpty(s: string)
    ensures MendedOption(OmitEmpty(s)) == OmitEmpty(Mended(s))
  {
    MendedIsEmpty(s);
  }

  /** The ephemeral key, if any, is written in ASCII. */
  predicate PlainEpk(h: Header) {
    h.epk.Some? && KeyJson.KeyMembers(h.epk.value).Some? ==> IsAsciiTree(JObject(KeyJson.KeyMembers(h.epk.value).value))
  }

  lemma MendedEpk(h: Header)
    requires PlainEpk(h)
    ensures MendedOption(EpkMember(h.epk)) == EpkMember(h.epk)
    ensures EpkMember(h.epk).Some? ==> IsTextTree(EpkMember(h.epk).value)
  {
    if EpkMember(h.epk).Some? {
      AsciiTreeIsMended(EpkMember(h.epk).value);
    }
  }

  lemma MendedMember(h: Header, name: string)
    requires PlainEpk(h)
    ensures MendedOption(MemberOf(h, name)) == MemberOf(MendedHeader(h), name)
    ensures MemberOf(h, name).Some? ==> IsTextTree(MemberOf(h, name).value)
  {
    MendedField(h, name);
    MendedOmitEmpty(TextField(h, name));
    MendedEpk(h);
  }

  lemma MendedField(h: Header, name: string)
    ensures TextField(MendedHeader(h), name) == Mended(TextField(h, name))
  {
    MendedIsEmpty("");
  }

  lemma NamesAreAscii(name: string)
    requires name in NAMES
    ensures Ascii(name)
  {
  }

  lemma MendedHeaderIsWritable(h: Header)
    requires Writable(h)
    ensures Writable(MendedHeader(h))
  {
    MendedIsEmpty(h.apu);
    MendedIsEmpty(h.apv);
  }

  /** Mending the members is mending the header. */
  lemma MendedHeaderMembers(h: Header)
    requires Writable(h) && PlainEpk(h)
    ensures HeaderMembers(h).Some? && HeaderMembers(MendedHeader(h)).Some?
    ensures IsTextTree(JObject(HeaderMembers(h).value))
    ensures MendedMembers(HeaderMembers(h).value) == HeaderMembers(MendedHeader(h)).value
  {
    var m, m' := HeaderMembers(h).value, HeaderMembers(MendedHeader(h)).value;
    forall name
      ensures name in m ==> Ascii(name) && IsTextTree(m[name])
      ensures At(MendedMembers(m), name) == At(m', name)
    {
      WrittenMember(h, name);
    }
    SameAt(MendedMembers(m), m');
  }

  lemma WrittenMember(h: Header, name: string)
    requires Writable(h) && PlainEpk(h)
    ensures
      var m, m' := HeaderMembers(h).value, HeaderMembers(MendedHeader(h)).value;
      && (name in m ==> Ascii(name) && IsTextTree(m[name]))
      && MendedOption(At(m, name)) == At(m', name)
  {
    MendedMember(h, name);
    var m := HeaderMembers(h).value;
    assert At(m, name) == if name in NAMES then MemberOf(h, name) else None;
    if name in NAMES {
      NamesAreAscii(name);
    }
  }

  lemma SameAt(a: map<string, Json>, b: map<string, Json>)
    requires forall name :: At(a, name) == At(b, name)
    ensures a == b
  {
    forall name
      ensures name in a <==> name in b
      ensures name in a ==> a[name] == b[name]
    {
      assert At(a, name) == At(b, name);
    }
  }
}
