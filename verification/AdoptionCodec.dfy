/** The adoption envelope decodes to what was encoded, and only canonical bytes
    decode. */
module AdoptionCodec {
  import opened Base
  import opened Wire
  import opened Adoption
  import Cap
  import Radix

  predicate Short(s: Bytes) {
    |s| < 0x1_0000
  }

  predicate AllShort(caps: seq<Str>) {
    forall i :: 0 <= i < |caps| ==> Short(caps[i])
  }

  /** Lengths a two-byte prefix can state. */
  predicate Framed(f: Fields) {
    && Short(f.deviceDid) && Short(f.ownerDid) && Short(f.hubRelay) && Short(f.hubHost)
    && AllShort(f.caps.Strings())
    && f.caps.Len() < 256
  }

  /** The fields as decoding presents them: the capability list on the wire. */
  function OnWire(f: Fields): Fields
    requires f.caps.Len() < 256
  {
    f.(caps := Wire(f.caps.Len(), EncodedCaps(f.caps.Strings())))
  }

  // ----- the capability list -----

  lemma {:induction false} ReadCapsOfEncoded(caps: seq<Str>, rest: Bytes)
    requires AllShort(caps)
    ensures ReadCaps(|caps|, EncodedCaps(caps) + rest) == Ok((caps, rest))
  {
    hide ReadStr, Str16;
    if caps == [] {
      assert EncodedCaps(caps) + rest == rest;
    } else {
      var tail := EncodedCaps(caps[1..]) + rest;
      assert EncodedCaps(caps) + rest == Str16(caps[0]) + tail;
      ReadStrInverse(Str16(caps[0]) + tail, caps[0], tail);
      ReadCapsOfEncoded(caps[1..], rest);
      assert [caps[0]] + caps[1..] == caps;
    }
  }

  lemma {:induction false} EncodedOfReadCaps(count: nat, r: Bytes, caps: seq<Str>, rest: Bytes)
    requires ReadCaps(count, r) == Ok((caps, rest))
    ensures r == EncodedCaps(caps) + rest && AllShort(caps) && |caps| == count
  {
    hide ReadStr, Str16;
    if count > 0 {
      var (s, next) := ReadStr(r).value;
      var (more, end) := ReadCaps(count - 1, next).value;
      assert caps == [s] + more && caps[1..] == more && end == rest;
      ReadStrInverse(r, s, next);
      EncodedOfReadCaps(count - 1, next, more, rest);
      assert Str16(s) + (EncodedCaps(more) + rest) == EncodedCaps(caps) + rest;
    }
  }

  lemma {:induction false} WireStringsOfEncoded(caps: seq<Str>)
    requires AllShort(caps)
    ensures WireStrings(|caps|, EncodedCaps(caps)) == caps
  {
    hide ReadStr, Str16;
    if caps != [] {
      ReadStrInverse(EncodedCaps(caps), caps[0], EncodedCaps(caps[1..]));
      WireStringsOfEncoded(caps[1..]);
      assert [caps[0]] + caps[1..] == caps;
    }
  }

  lemma {:induction false} EncodedCapsInjective(a: seq<Str>, b: seq<Str>)
    requires AllShort(a) && AllShort(b)
    requires EncodedCaps(a) == EncodedCaps(b)
    ensures a == b
  {
    hide ReadStr, Str16;
    if a != [] && b != [] {
      ReadStrInverse(EncodedCaps(a), a[0], EncodedCaps(a[1..]));
      ReadStrInverse(EncodedCaps(b), b[0], EncodedCaps(b[1..]));
      EncodedCapsInjective(a[1..], b[1..]);
    }
  }

  // ----- the end of the message -----

  lemma ReadTrailerInverse(f: Fields)
    ensures ReadTrailer(Trailer(f)) == Ok((f.roster, f.issuedAt, f.expiresAt))
  {
    Widths();
    var rv, ia, ea := Be(f.roster, 4), Be(f.issuedAt, 8), Be(f.expiresAt, 8);
    ReadArrayInverse(4, rv + (ia + ea), rv, ia + ea);
    ReadArrayInverse(8, ia + ea, ia, ea);
    ReadArrayInverse(8, ea, ea, []);
    BeInverse(f.roster, rv);
    BeInverse(f.issuedAt, ia);
    BeInverse(f.expiresAt, ea);
  }

  lemma TrailerOfRead(r: Bytes, f: Fields)
    requires ReadTrailer(r) == Ok((f.roster, f.issuedAt, f.expiresAt))
    ensures r == Trailer(f)
  {
    Widths();
    var (rv, r1) := ReadArray(4, r).value;
    var (ia, r2) := ReadArray(8, r1).value;
    var (ea, r3) := ReadArray(8, r2).value;
    ReadArrayInverse(4, r, rv, r1);
    ReadArrayInverse(8, r1, ia, r2);
    ReadArrayInverse(8, r2, ea, r3);
    BeInverse(f.roster, rv);
    BeInverse(f.issuedAt, ia);
    BeInverse(f.expiresAt, ea);
    assert ea + [] == ea;
  }

  lemma ReadU8Cons(b: byte, rest: Bytes)
    ensures ReadU8([b] + rest) == Ok((b, rest))
  {
  }

  lemma CutTail(a: Bytes, b: Bytes)
    ensures (a + b)[..|a + b| - |b|] == a
  {
  }

  lemma ReadCapSectionOfWellFormed(f: Fields)
    requires Framed(f) && WellFormed(f.caps)
    ensures ReadCapSection(CapSection(f))
         == Ok((OnWire(f).caps, f.roster, f.issuedAt, f.expiresAt))
  {
    hide CapList.Strings, Trailer, ReadTrailer, ReadU8, EncodedCaps, ReadCaps;
    var caps := f.caps.Strings();
    var start := EncodedCaps(caps) + Trailer(f);
    assert CapSection(f) == [f.caps.Len() as byte] + start;
    ReadU8Cons(f.caps.Len(), EncodedCaps(caps) + Trailer(f));
    ReadCapsOfEncoded(caps, Trailer(f));
    ReadTrailerInverse(f);
    CutTail(EncodedCaps(caps), Trailer(f));
  }

  lemma CapSectionOfRead(r: Bytes, f: Fields)
    requires ReadCapSection(r) == Ok((f.caps, f.roster, f.issuedAt, f.expiresAt))
    ensures r == CapSection(f) && WellFormed(f.caps) && AllShort(f.caps.Strings())
    ensures f.caps == Wire(f.caps.Len(), EncodedCaps(f.caps.Strings()))
  {
    hide Trailer, ReadTrailer, EncodedCaps, ReadCaps;
    var (count, start) := ReadU8(r).value;
    var (caps, end) := ReadCaps(count, start).value;
    var (roster, issuedAt, expiresAt) := ReadTrailer(end).value;
    assert roster == f.roster && issuedAt == f.issuedAt && expiresAt == f.expiresAt;
    TrailerOfRead(end, f);
    EncodedOfReadCaps(count, start, caps, end);
    CutTail(EncodedCaps(caps), end);
    CapsOnWire(count, caps, f.caps);
    assert r == [r[0]] + start;
  }

  lemma CapsOnWire(count: byte, strings: seq<Str>, caps: CapList)
    requires |strings| == count && AllShort(strings) && caps == Wire(count, EncodedCaps(strings))
    ensures caps.Strings() == strings && WellFormed(caps)
  {
    WireStringsOfEncoded(strings);
  }

  /** A list holding fewer strings than it announces does not read back. */
  lemma ShortListDoesNotRead(f: Fields)
    requires Framed(f) && !WellFormed(f.caps)
    ensures ReadCapSection(CapSection(f)).Err?
  {
    var read := ReadCapSection(CapSection(f));
    if read.Ok? {
      var (caps, roster, issuedAt, expiresAt) := read.value;
      var g := f.(caps := caps, roster := roster, issuedAt := issuedAt, expiresAt := expiresAt);
      CapSectionOfRead(CapSection(f), g);
      SameCapSection(f, g);
      assert false;
    }
  }

  lemma SameCapSection(f: Fields, g: Fields)
    requires CapSection(f) == CapSection(g) && f.caps.Len() < 256 && g.caps.Len() < 256
    requires AllShort(f.caps.Strings()) && AllShort(g.caps.Strings())
    ensures f.caps.Len() == g.caps.Len() && f.caps.Strings() == g.caps.Strings()
  {
    hide CapList.Strings, Trailer;
    var a, b := EncodedCaps(f.caps.Strings()), EncodedCaps(g.caps.Strings());
    assert CapSection(f)[0] == f.caps.Len() && CapSection(g)[0] == g.caps.Len();
    assert CapSection(f)[1..] == a + Trailer(f);
    assert CapSection(g)[1..] == b + Trailer(g);
    TrailerLength(f);
    TrailerLength(g);
    CutTail(a, Trailer(f));
    CutTail(b, Trailer(g));
    EncodedCapsInjective(f.caps.Strings(), g.caps.Strings());
  }

  lemma TrailerLength(f: Fields)
    ensures |Trailer(f)| == 20
  {
  }

  // ----- the whole message -----

  /** Reading canonical bytes recovers every field before the capabilities and
      leaves the reader at the capability section. */
  lemma ReadFieldsOfCanonical(f: Fields)
    requires Framed(f)
    ensures ReadFields(Canonical(f)).Ok? <==> ReadCapSection(CapSection(f)).Ok?
    ensures ReadFields(Canonical(f)).Ok? ==>
      var (caps, roster, issuedAt, expiresAt) := ReadCapSection(CapSection(f)).value;
      ReadFields(Canonical(f)).value
        == f.(caps := caps, roster := roster, issuedAt := issuedAt, expiresAt := expiresAt)
  {
    hide ReadCapSection, CapSection, ReadStr, Str16;
    var r7 := CapSection(f);
    var r6 := Str16(f.hubHost) + r7;
    var r5 := Str16(f.hubRelay) + r6;
    var r4 := f.hubEndpoint + r5;
    var r3 := f.ownerKey + r4;
    var r2 := Str16(f.ownerDid) + r3;
    var r1 := Str16(f.deviceDid) + r2;
    assert Canonical(f) == DOMAIN + ([VERSION] + r1);
    assert Expect(Canonical(f), DOMAIN) == Ok([VERSION] + r1);
    assert ReadU8([VERSION] + r1) == Ok((VERSION, r1));
    ReadStrInverse(r1, f.deviceDid, r2);
    ReadStrInverse(r2, f.ownerDid, r3);
    ReadArrayInverse(33, r3, f.ownerKey, r4);
    ReadArrayInverse(32, r4, f.hubEndpoint, r5);
    ReadStrInverse(r5, f.hubRelay, r6);
    ReadStrInverse(r6, f.hubHost, r7);
  }

  /** Bytes that read as fields are those fields' canonical bytes. */
  lemma CanonicalOfReadFields(canonical: Bytes, f: Fields)
    requires ReadFields(canonical) == Ok(f)
    ensures canonical == Canonical(f) && Framed(f) && WellFormed(f.caps) && f == OnWire(f)
  {
    hide ReadCapSection, CapSection, ReadStr, Str16, WellFormed, CapList.Strings;
    var r0 := Expect(canonical, DOMAIN).value;
    assert canonical == DOMAIN + r0;
    var r1 := ReadU8(r0).value.1;
    assert r0 == [VERSION] + r1;
    var (deviceDid, r2) := ReadStr(r1).value;
    ReadStrInverse(r1, deviceDid, r2);
    var (ownerDid, r3) := ReadStr(r2).value;
    ReadStrInverse(r2, ownerDid, r3);
    var (ownerKey, r4) := ReadArray(33, r3).value;
    ReadArrayInverse(33, r3, ownerKey, r4);
    var (hubEndpoint, r5) := ReadArray(32, r4).value;
    ReadArrayInverse(32, r4, hubEndpoint, r5);
    var (hubRelay, r6) := ReadStr(r5).value;
    ReadStrInverse(r5, hubRelay, r6);
    var (hubHost, r7) := ReadStr(r6).value;
    ReadStrInverse(r6, hubHost, r7);
    var (caps, roster, issuedAt, expiresAt) := ReadCapSection(r7).value;
    assert caps == f.caps && roster == f.roster && issuedAt == f.issuedAt && expiresAt == f.expiresAt;
    CapSectionOfRead(r7, f);
  }

  lemma ValidIsFramed(f: Fields)
    requires Valid(f)
    ensures Framed(f)
  {
  }

  lemma OnWireSame(f: Fields)
    requires Framed(f) && WellFormed(f.caps)
    ensures SameFields(f, OnWire(f)) && OnWire(f).caps.Len() == f.caps.Len()
    ensures Valid(OnWire(f)) <==> Valid(f)
  {
    WireStringsOfEncoded(f.caps.Strings());
  }

  /** Decoding what was signed gives back the fields, the capability strings
      and the signature, exactly when the capability list a caller supplied
      holds as many strings as it announces. */
  lemma DecodeOfEncode(f: Fields, signature: Bytes64)
    requires Valid(f)
    ensures Decoded(Canonical(f) + signature).Ok? <==> WellFormed(f.caps)
    ensures WellFormed(f.caps) ==>
      && Decoded(Canonical(f) + signature) == Ok(Adoption(OnWire(f), signature, Canonical(f)))
      && SameFields(f, OnWire(f))
  {
    hide Canonical, Valid, CapSection, ReadCapSection, ReadFields, WellFormed, CapList.Strings;
    ValidIsFramed(f);
    ReadFieldsOfCanonical(f);
    var bytes := Canonical(f) + signature;
    assert bytes[..|bytes| - SIG_LEN] == Canonical(f) && bytes[|bytes| - SIG_LEN..] == signature;
    CanonicalIsLong(f);
    if WellFormed(f.caps) {
      ReadCapSectionOfWellFormed(f);
      OnWireSame(f);
    } else {
      ShortListDoesNotRead(f);
    }
  }

  lemma CanonicalIsLong(f: Fields)
    ensures |Canonical(f)| > |DOMAIN| + 1
  {
  }

  /** Whatever decodes is the one encoding of what it decodes to: re-encoding
      the fields and appending the signature gives the same bytes. */
  lemma EncodeOfDecode(bytes: Bytes, a: Adoption)
    requires Decoded(bytes) == Ok(a)
    ensures bytes == Canonical(a.fields) + a.signature && a.canonical == Canonical(a.fields)
    ensures Valid(a.fields) && WellFormed(a.fields.caps)
  {
    hide Canonical, Valid, ReadFields, WellFormed;
    var n := |bytes| - SIG_LEN;
    CanonicalOfReadFields(bytes[..n], a.fields);
    assert bytes == bytes[..n] + bytes[n..];
  }

  /** Of all field sets that can be framed, the signed encodings that decode
      are exactly those of valid fields whose list holds what it announces. */
  lemma DecodesExactly(f: Fields, signature: Bytes64)
    requires Framed(f)
    ensures Decoded(Canonical(f) + signature).Ok? <==> Valid(f) && WellFormed(f.caps)
  {
    hide Canonical, Valid, ReadFields, CapSection, WellFormed, CapList.Strings, ReadCapSection;
    var bytes := Canonical(f) + signature;
    if Valid(f) {
      DecodeOfEncode(f, signature);
    }
    if Decoded(bytes).Ok? {
      var a := Decoded(bytes).value;
      EncodeOfDecode(bytes, a);
      assert bytes[..|bytes| - SIG_LEN] == Canonical(f);
      ValidIsFramed(a.fields);
      CanonicalInjective(f, a.fields);
      SameCounts(f, a.fields);
      SameFieldsAreValid(f, a.fields);
    }
  }

  lemma SameCounts(f: Fields, g: Fields)
    requires Framed(f) && Framed(g) && Canonical(f) == Canonical(g)
    ensures f.caps.Len() == g.caps.Len()
  {
    hide Str16, CapSection, CapList.Strings;
    CanonicalInjective(f, g);
    var front := DOMAIN + ([VERSION] + (Str16(f.deviceDid) + (Str16(f.ownerDid) + (f.ownerKey + (f.hubEndpoint
      + (Str16(f.hubRelay) + Str16(f.hubHost)))))));
    FrontOf(f);
    FrontOf(g);
    PeelFixed(front, CapSection(f), front, CapSection(g));
    SameCapSection(f, g);
  }

  lemma FrontOf(f: Fields)
    ensures Canonical(f) == DOMAIN + ([VERSION] + (Str16(f.deviceDid) + (Str16(f.ownerDid) + (f.ownerKey + (f.hubEndpoint
      + (Str16(f.hubRelay) + Str16(f.hubHost))))))) + CapSection(f)
  {
    hide Str16, CapSection;
  }

  lemma SameFieldsAreValid(f: Fields, g: Fields)
    requires SameFields(f, g) && f.caps.Len() == g.caps.Len() && Valid(g) && WellFormed(g.caps)
    ensures Valid(f) && WellFormed(f.caps)
  {
    hide CapList.Strings, Cap.Parse;
  }

  /** What a decoded field set is: its DIDs are there, no string of it is past
      255 bytes, its capabilities are as many as announced, at most 32, each a
      grant of itself, and it does not expire before it is issued. */
  lemma DecodedMeaning(bytes: Bytes, a: Adoption)
    requires Decoded(bytes) == Ok(a)
    ensures var f := a.fields;
      && 1 <= |f.deviceDid| <= 255 && 1 <= |f.ownerDid| <= 255 && |f.hubRelay| <= 255 && |f.hubHost| <= 255
      && |f.caps.Strings()| == f.caps.Len() <= 32
      && (forall s :: s in f.caps.Strings() ==> |s| <= 255 && Cap.GrantSatisfies(s, s))
      && (f.expiresAt == 0 || f.issuedAt < f.expiresAt)
  {
    hide Decoded, Valid, Cap.GrantSatisfies, CapList.Strings, Canonical;
    EncodeOfDecode(bytes, a);
    ValidMeaning(a.fields);
  }

  /** Why bytes do not decode: another version of the message, or anything else
      that is wrong with them. */
  lemma DecodeError(bytes: Bytes, e: Error)
    requires Decoded(bytes) == Err(e)
    ensures e == Unsupported <==>
      |bytes| >= 18 + 1 + 64 && bytes[..18] == DOMAIN && bytes[18] != 1
    ensures e == Unsupported || e == InvalidFormat
  {
    hide Valid, ReadFields;
    if |bytes| >= 18 + 1 + 64 {
      var canonical := bytes[..|bytes| - SIG_LEN];
      assert canonical[..18] == bytes[..18] && canonical[18] == bytes[18];
      ReadFieldsError(canonical);
    }
  }

  lemma ReadFieldsError(canonical: Bytes)
    requires |canonical| >= 19
    ensures var f := ReadFields(canonical);
      && (f == Err(Unsupported) <==> canonical[..18] == DOMAIN && canonical[18] != VERSION)
      && (f.Err? ==> f.error == Unsupported || f.error == InvalidFormat)
  {
    hide ReadCapSection, ReadStr;
    ReadErrors();
    assert |DOMAIN| == 18;
    if DOMAIN <= canonical {
      assert canonical[..18] == DOMAIN && canonical[18..][0] == canonical[18];
    }
  }

  lemma ReadErrors()
    ensures forall r: Bytes :: ReadStr(r).Err? ==> ReadStr(r).error == InvalidFormat
    ensures forall r: Bytes :: ReadCapSection(r).Err? ==> ReadCapSection(r).error == InvalidFormat
  {
    hide ReadStr, ReadTrailer;
    forall r: Bytes
      ensures ReadStr(r).Err? ==> ReadStr(r).error == InvalidFormat
      ensures ReadTrailer(r).Err? ==> ReadTrailer(r).error == InvalidFormat
    {
      ReadError(r);
    }
    forall r: Bytes, count: nat
      ensures ReadCaps(count, r).Err? ==> ReadCaps(count, r).error == InvalidFormat
    {
      ReadCapsError(count, r);
    }
  }

  lemma ReadError(r: Bytes)
    ensures ReadStr(r).Err? ==> ReadStr(r).error == InvalidFormat
    ensures ReadTrailer(r).Err? ==> ReadTrailer(r).error == InvalidFormat
  {
  }

  lemma {:induction false} ReadCapsError(count: nat, r: Bytes)
    ensures ReadCaps(count, r).Err? ==> ReadCaps(count, r).error == InvalidFormat
  {
    hide ReadStr;
    ReadError(r);
    if count > 0 && ReadStr(r).Ok? {
      ReadCapsError(count - 1, ReadStr(r).value.1);
    }
  }

  /** The wire form, by offset: each field where the one before it ends, every
      length two bytes, and the three numbers in the last twenty. */
  lemma WireForm(f: Fields)
    ensures var c := Canonical(f);
      var owner := 21 + |f.deviceDid|;
      var key := owner + 2 + |f.ownerDid|;
      var relay := key + 33 + 32;
      var host := relay + 2 + |f.hubRelay|;
      var caps := host + 2 + |f.hubHost|;
      && Holds(c, 0, DOMAIN) && Holds(c, 18, [1])
      && Holds(c, 19, Be(|f.deviceDid|, 2)) && Holds(c, 21, f.deviceDid)
      && Holds(c, owner, Be(|f.ownerDid|, 2)) && Holds(c, owner + 2, f.ownerDid)
      && Holds(c, key, f.ownerKey) && Holds(c, key + 33, f.hubEndpoint)
      && Holds(c, relay, Be(|f.hubRelay|, 2)) && Holds(c, relay + 2, f.hubRelay)
      && Holds(c, host, Be(|f.hubHost|, 2)) && Holds(c, host + 2, f.hubHost)
      && Holds(c, caps, [f.caps.Len() % 256]) && Holds(c, caps + 1, EncodedCaps(f.caps.Strings()))
      && |c| == caps + 1 + |EncodedCaps(f.caps.Strings())| + 20
      && Holds(c, |c| - 20, Be(f.roster, 4)) && Holds(c, |c| - 16, Be(f.issuedAt, 8)) && Holds(c, |c| - 8, Be(f.expiresAt, 8))
  {
    hide *;
    var c := Canonical(f);
    HeadForm(f, c);
    var key := 21 + |f.deviceDid| + 2 + |f.ownerDid|;
    HubForm(f, c, key);
    CapSectionForm(f, c, key + 65 + 2 + |f.hubRelay| + 2 + |f.hubHost|);
  }

  lemma CanonicalIs(f: Fields)
    ensures Canonical(f) == DOMAIN + ([1] + (Str16(f.deviceDid) + (Str16(f.ownerDid) + AfterOwner(f)))) && |DOMAIN| == 18
    ensures AfterOwner(f) == f.ownerKey + (f.hubEndpoint + (Str16(f.hubRelay) + (Str16(f.hubHost) + CapSection(f))))
    ensures CapSection(f) == [f.caps.Len() % 256] + (EncodedCaps(f.caps.Strings())
      + (Be(f.roster, 4) + (Be(f.issuedAt, 8) + Be(f.expiresAt, 8))))
  {
    hide Utf8, Str16, EncodedCaps, CapList.Strings;
  }

  lemma HeadForm(f: Fields, c: Bytes)
    requires c == Canonical(f)
    ensures var owner := 21 + |f.deviceDid|;
      && Holds(c, 0, DOMAIN) && Holds(c, 18, [1])
      && Holds(c, 19, Be(|f.deviceDid|, 2)) && Holds(c, 21, f.deviceDid)
      && Holds(c, owner, Be(|f.ownerDid|, 2)) && Holds(c, owner + 2, f.ownerDid)
      && Tail(c, owner + 2 + |f.ownerDid|, AfterOwner(f))
  {
    hide *;
    var r2 := Str16(f.ownerDid) + AfterOwner(f);
    var r1 := Str16(f.deviceDid) + r2;
    CanonicalIs(f);
    HoldsFirst(c, DOMAIN, [1] + r1);
    HoldsNext(c, 18, [1], r1);
    HoldsStr16(c, 19, f.deviceDid, r2);
    HoldsStr16(c, 21 + |f.deviceDid|, f.ownerDid, AfterOwner(f));
  }

  lemma HubForm(f: Fields, c: Bytes, key: nat)
    requires Tail(c, key, AfterOwner(f))
    ensures var relay := key + 65;
      var host := relay + 2 + |f.hubRelay|;
      && Holds(c, key, f.ownerKey) && Holds(c, key + 33, f.hubEndpoint)
      && Holds(c, relay, Be(|f.hubRelay|, 2)) && Holds(c, relay + 2, f.hubRelay)
      && Holds(c, host, Be(|f.hubHost|, 2)) && Holds(c, host + 2, f.hubHost)
      && Tail(c, host + 2 + |f.hubHost|, CapSection(f))
  {
    hide *;
    var r6 := Str16(f.hubHost) + CapSection(f);
    var r5 := Str16(f.hubRelay) + r6;
    CanonicalIs(f);
    HoldsNext(c, key, f.ownerKey, f.hubEndpoint + r5);
    HoldsNext(c, key + 33, f.hubEndpoint, r5);
    HoldsStr16(c, key + 65, f.hubRelay, r6);
    HoldsStr16(c, key + 65 + 2 + |f.hubRelay|, f.hubHost, CapSection(f));
  }

  lemma CapSectionForm(f: Fields, c: Bytes, at: nat)
    requires Tail(c, at, CapSection(f))
    ensures var caps := EncodedCaps(f.caps.Strings());
      && Holds(c, at, [f.caps.Len() % 256]) && Holds(c, at + 1, caps) && |c| == at + 1 + |caps| + 20
      && Holds(c, |c| - 20, Be(f.roster, 4)) && Holds(c, |c| - 16, Be(f.issuedAt, 8)) && Holds(c, |c| - 8, Be(f.expiresAt, 8))
  {
    hide *;
    var caps, issued, expires := EncodedCaps(f.caps.Strings()), Be(f.issuedAt, 8), Be(f.expiresAt, 8);
    var trailer := Be(f.roster, 4) + (issued + expires);
    var count := [f.caps.Len() % 256];
    CanonicalIs(f);
    HoldsNext(c, at, count, caps + trailer);
    var t := at + 1 + |caps|;
    HoldsNext(c, at + 1, caps, trailer);
    HoldsNext(c, t, Be(f.roster, 4), issued + expires);
    HoldsNext(c, t + 4, issued, expires);
    HoldsLast(c, t + 12, expires);
  }

  lemma TrailerInjective(f: Fields, g: Fields)
    requires Trailer(f) == Trailer(g)
    ensures f.roster == g.roster && f.issuedAt == g.issuedAt && f.expiresAt == g.expiresAt
  {
    hide Trailer, ReadTrailer;
    ReadTrailerInverse(f);
    ReadTrailerInverse(g);
  }

  lemma CapSectionInjective(f: Fields, g: Fields)
    requires Framed(f) && Framed(g) && CapSection(f) == CapSection(g)
    ensures f.caps.Strings() == g.caps.Strings()
    ensures f.roster == g.roster && f.issuedAt == g.issuedAt && f.expiresAt == g.expiresAt
  {
    hide CapList.Strings, Trailer;
    SameCapSection(f, g);
    var caps := EncodedCaps(f.caps.Strings());
    PeelFixed([f.caps.Len() as byte], caps + Trailer(f), [g.caps.Len() as byte], caps + Trailer(g));
    PeelFixed(caps, Trailer(f), caps, Trailer(g));
    TrailerInjective(f, g);
  }

  /** Two framed field sets with the same canonical bytes are the same, whether
      or not their capability lists hold what they announce. */
  lemma CanonicalInjective(f: Fields, g: Fields)
    requires Framed(f) && Framed(g) && Canonical(f) == Canonical(g)
    ensures SameFields(f, g)
  {
    hide CapSection, Str16, CapList.Strings;
    var f6, g6 := Str16(f.hubHost) + CapSection(f), Str16(g.hubHost) + CapSection(g);
    var f5, g5 := Str16(f.hubRelay) + f6, Str16(g.hubRelay) + g6;
    var f4, g4 := f.hubEndpoint + f5, g.hubEndpoint + g5;
    var f3, g3 := f.ownerKey + f4, g.ownerKey + g4;
    var f2, g2 := Str16(f.ownerDid) + f3, Str16(g.ownerDid) + g3;
    var f1, g1 := Str16(f.deviceDid) + f2, Str16(g.deviceDid) + g2;
    PeelFixed(DOMAIN, [VERSION] + f1, DOMAIN, [VERSION] + g1);
    PeelFixed([VERSION], f1, [VERSION], g1);
    PeelStr16(f.deviceDid, f2, g.deviceDid, g2);
    PeelStr16(f.ownerDid, f3, g.ownerDid, g3);
    PeelFixed(f.ownerKey, f4, g.ownerKey, g4);
    PeelFixed(f.hubEndpoint, f5, g.hubEndpoint, g5);
    PeelStr16(f.hubRelay, f6, g.hubRelay, g6);
    PeelStr16(f.hubHost, CapSection(f), g.hubHost, CapSection(g));
    CapSectionInjective(f, g);
  }

  lemma DecodedCaps(bytes: Bytes, a: Adoption)
    requires Decoded(bytes) == Ok(a)
    ensures var caps := a.fields.caps;
      WellFormed(caps) && AllShort(caps.Strings()) && caps == Wire(caps.Len(), EncodedCaps(caps.Strings()))
  {
    hide Valid, ReadFields, CapList.Strings, EncodedCaps, Canonical;
    CanonicalOfReadFields(bytes[..|bytes| - SIG_LEN], a.fields);
  }

  /** Iterating a decoded capability list yields its strings in order, as many
      as it announces, uses up exactly its bytes, and then yields nothing. */
  method CollectCaps(a: Adoption, ghost bytes: Bytes) returns (strings: seq<Str>, beyond: Option<Str>, left: CapList)
    requires Decoded(bytes) == Ok(a)
    ensures strings == a.fields.caps.Strings() && |strings| == a.fields.caps.Len()
    ensures left == Wire(0, []) && beyond == None
  {
    hide Decoded, EncodedCaps, CapList.Strings, AllShort;
    DecodedCaps(bytes, a);
    ghost var todo := a.fields.caps.Strings();
    var it := new CapIter(a.fields.caps);
    strings := [];
    while |strings| < a.fields.caps.Len()
      invariant strings + todo == a.fields.caps.Strings()
      invariant AllShort(todo)
      invariant |todo| < 256 && it.left == Wire(|todo|, EncodedCaps(todo))
    {
      var s := StepCaps(it, todo);
      assert strings + todo == strings + [s] + todo[1..];
      strings := strings + [s];
      todo := todo[1..];
    }
    left := it.left;
    NothingLeft();
    beyond := it.Next();
  }

  lemma NothingLeft()
    ensures Wire(0, []).Strings() == [] && EncodedCaps([]) == []
  {
  }

  /** One step of the iterator over a well-formed list. */
  method StepCaps(it: CapIter, ghost todo: seq<Str>) returns (s: Str)
    requires 0 < |todo| < 256 && AllShort(todo)
    requires it.left == Wire(|todo|, EncodedCaps(todo))
    modifies it
    ensures s == todo[0] && it.left == Wire(|todo| - 1, EncodedCaps(todo[1..])) && AllShort(todo[1..])
  {
    WireStringsOfEncoded(todo);
    ReadStrInverse(EncodedCaps(todo), todo[0], EncodedCaps(todo[1..]));
    var next := it.Next();
    return next.value;
  }
}
