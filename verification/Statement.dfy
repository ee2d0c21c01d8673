/** The structural check of a wallet's signed statement. JSON, base64url, the
    hash and the curve are functions the check is given. */
module Statement {
  import opened Base
  import opened Owner
  import Did

  datatype Json =
    | Object(members: map<string, Json>)
    | Text(text: Str)
    | Unsigned(value: u64)
    | Other

  /** What the check asks of the libraries. */
  datatype World = World(
    json: Bytes -> Option<Json>,
    unbase64: Bytes -> Option<Bytes>,
    base64: Bytes -> Bytes,
    digest: Bytes -> Bytes32,
    onCurve: Bytes -> bool)

  /** Section 2 of RFC 8259: a JSON text begins with white space or one of
      `{ [ " - 0-9 t f n`, so no JSON text begins with a `j`. */
  ghost predicate JsonGrammar(w: World) {
    forall b: Bytes :: b != [] && b[0] == 'j' as int ==> w.json(b) == None
  }

  /** A container that passed: the owner's DID and the pin to store. */
  datatype Checked = Checked(ownerDid: Str, pin: OwnerPin)

  datatype Why =
    | NotJson | NoContent | NoJws | NotThreeParts
    | HeaderNotBase64 | HeaderNotJson | HeaderNotEs256 | SignatureNot64
    | PayloadNotBase64 | PayloadNotJson | WrongContext | NoIssuer | NoContentHash | HashMismatch
    | ContentNotJson | NotVersion1 | OtherDevice | NoOwner | OwnerNotIssuer | NoRoster | OwnerNotKey
    | TooLong | PinnedToAnother | RosterOlder

  const CONTEXT: Bytes := Ascii("janus-adoption-v1")

  function Field(v: Json, key: string): Option<Json> {
    if v.Object? && key in v.members then Some(v.members[key]) else None
  }

  function TextOf(v: Json, key: string): Option<Str> {
    match Field(v, key)
    case Some(Text(t)) => Some(t)
    case _ => None
  }

  function UnsignedOf(v: Json, key: string): Option<u64> {
    match Field(v, key)
    case Some(Unsigned(n)) => Some(n)
    case _ => None
  }

  /** The parts of `s` between dots. */
  function Split(s: Bytes): (parts: seq<Bytes>)
    ensures parts != []
  {
    if s == [] then [[]]
    else
      var rest := Split(s[1..]);
      if s[0] == '.' as int then [[]] + rest else [[s[0]] + rest[0]] + rest[1..]
  }

  /** `Ok` of the value, or the reason it is missing. */
  function OrWhy<T>(v: Option<T>, why: Why): Result<T, Why> {
    match v
    case Some(x) => Ok(x)
    case None => Err(why)
  }

  function Require(holds: bool, why: Why): Result<(), Why> {
    if holds then Ok(()) else Err(why)
  }

  function CheckHeader(w: World, part: Bytes): Result<(), Why> {
    var raw :- OrWhy(w.unbase64(part), HeaderNotBase64);
    var header :- OrWhy(w.json(raw), HeaderNotJson);
    Require(TextOf(header, "alg") == Some(Ascii("ES256")) && TextOf(header, "typ") == Some(Ascii("JWT")), HeaderNotEs256)
  }

  /** The issuer a payload names, once it is bound to `content`. */
  function CheckPayload(w: World, part: Bytes, content: Str): Result<Str, Why> {
    var raw :- OrWhy(w.unbase64(part), PayloadNotBase64);
    var payload :- OrWhy(w.json(raw), PayloadNotJson);
    var _ :- Require(TextOf(payload, "context") == Some(CONTEXT), WrongContext);
    var issuer :- OrWhy(TextOf(payload, "iss"), NoIssuer);
    var declared :- OrWhy(TextOf(payload, "content_hash"), NoContentHash);
    var _ :- Require(declared == w.base64(w.digest(content)), HashMismatch);
    Ok(issuer)
  }

  function CheckBody(w: World, content: Str, issuer: Str, myDid: Bytes): Result<Checked, Why> {
    var body :- OrWhy(w.json(content), ContentNotJson);
    var _ :- Require(UnsignedOf(body, "v") == Some(1), NotVersion1);
    var _ :- Require(TextOf(body, "device_did") == Some(myDid), OtherDevice);
    var ownerDid :- OrWhy(TextOf(body, "owner_did"), NoOwner);
    var _ :- Require(ownerDid == issuer, OwnerNotIssuer);
    var roster :- OrWhy(UnsignedOf(body, "roster_version"), NoRoster);
    var _ :- Require(roster < 0x1_0000_0000, NoRoster);
    match Did.Parse(w.onCurve, ownerDid)
    case Err(_) => Err(OwnerNotKey)
    case Ok(owner) => Ok(Checked(ownerDid, OwnerPin(owner.pubkey, roster)))
  }

  /** The check, in the order its reasons are reported. */
  function Check(w: World, container: Bytes, myDid: Bytes): Result<Checked, Why> {
    var outer :- OrWhy(w.json(container), NotJson);
    var content :- OrWhy(TextOf(outer, "content"), NoContent);
    var jws :- OrWhy(TextOf(outer, "jws"), NoJws);
    var parts := Split(jws);
    var _ :- Require(|parts| == 3, NotThreeParts);
    var _ :- CheckHeader(w, parts[0]);
    var signature := w.unbase64(parts[2]);
    var _ :- Require(signature.Some? && |signature.value| == 64, SignatureNot64);
    var issuer :- CheckPayload(w, parts[1], content);
    CheckBody(w, content, issuer, myDid)
  }

  /** An accepted container names this owner by exactly the DID text of the
      key that will be pinned, and that key is a curve point. */
  lemma AcceptedOwnerIsPinned(w: World, container: Bytes, myDid: Bytes)
    requires Check(w, container, myDid).Ok?
    ensures var c := Check(w, container, myDid).value;
      c.ownerDid == Did.Text(c.pin.key) && Did.FromPubkey(w.onCurve, c.pin.key) == Ok(Did.Did(c.pin.key))
  {
    hide Did.ParsePrefixed, Did.Base58, Did.FromPubkey, CheckHeader, CheckPayload;
    var c := Check(w, container, myDid).value;
    Did.ParseIsWriteInverse(w.onCurve, Did.PREFIX, c.ownerDid, c.pin.key);
  }

  /** No statement container begins as an adoption envelope does. */
  lemma NotAnEnvelope(w: World, container: Bytes, myDid: Bytes)
    requires JsonGrammar(w) && Check(w, container, myDid).Ok?
    ensures container == [] || container[0] != 'j' as int
  {
  }

  // ----- what the check accepts, said without its order -----

  const DOT: byte := '.' as int

  function Join(parts: seq<Bytes>): Bytes
    requires parts != []
  {
    if |parts| == 1 then parts[0] else parts[0] + [DOT] + Join(parts[1..])
  }

  predicate NoDots(parts: seq<Bytes>) {
    forall i :: 0 <= i < |parts| ==> DOT !in parts[i]
  }

  lemma {:induction false} SplitIsJoined(s: Bytes)
    ensures NoDots(Split(s)) && Join(Split(s)) == s
  {
    if s != [] {
      SplitIsJoined(s[1..]);
      var rest := Split(s[1..]);
      assert s == [s[0]] + s[1..];
      if s[0] == DOT {
        assert ([[]] + rest)[1..] == rest;
      } else {
        assert ([[s[0]] + rest[0]] + rest[1..])[1..] == rest[1..];
      }
    }
  }

  lemma {:induction false} SplitOfPart(a: Bytes)
    requires DOT !in a
    ensures Split(a) == [a]
  {
    if a != [] {
      SplitOfPart(a[1..]);
      assert [a[0]] + a[1..] == a;
    }
  }

  lemma {:induction false} SplitAfterPart(a: Bytes, rest: Bytes)
    requires DOT !in a
    ensures Split(a + [DOT] + rest) == [a] + Split(rest)
  {
    var s := a + [DOT] + rest;
    if a == [] {
      assert s[1..] == rest;
    } else {
      SplitAfterPart(a[1..], rest);
      assert s[1..] == a[1..] + [DOT] + rest;
      assert [a[0]] + a[1..] == a;
    }
  }

  /** The jws splits into these three parts exactly when it is they, joined. */
  lemma ThreeParts(jws: Bytes, h: Bytes, p: Bytes, s: Bytes)
    ensures Split(jws) == [h, p, s]
      <==> DOT !in h && DOT !in p && DOT !in s && jws == h + [DOT] + (p + [DOT] + s)
  {
    if Split(jws) == [h, p, s] {
      SplitIsJoined(jws);
      var parts := Split(jws);
      assert DOT !in parts[0] && DOT !in parts[1] && DOT !in parts[2];
      assert parts[1..] == [p, s] && parts[1..][1..] == [s];
      assert Join([s]) == s;
      assert Join([p, s]) == p + [DOT] + s;
    }
    if DOT !in h && DOT !in p && DOT !in s && jws == h + [DOT] + (p + [DOT] + s) {
      SplitAfterPart(h, p + [DOT] + s);
      SplitAfterPart(p, s);
      SplitOfPart(s);
    }
  }

  function In(v: Option<Json>, key: string): Option<Str> {
    if v.Some? then TextOf(v.value, key) else None
  }

  function NumberIn(v: Option<Json>, key: string): Option<u64> {
    if v.Some? then UnsignedOf(v.value, key) else None
  }

  function JsonPart(w: World, part: Bytes): Option<Json> {
    if w.unbase64(part).Some? then w.json(w.unbase64(part).value) else None
  }

  /** The pieces of a container. */
  datatype Pieces = Pieces(content: Str, header: Bytes, payload: Bytes, signature: Bytes)

  /** A statement that `c.ownerDid` adopts `myDid`, bound to its content. */
  predicate Attests(w: World, container: Bytes, myDid: Bytes, c: Checked, e: Pieces) {
    var jws := e.header + [DOT] + (e.payload + [DOT] + e.signature);
    var header, payload, body := JsonPart(w, e.header), JsonPart(w, e.payload), w.json(e.content);
    && In(w.json(container), "content") == Some(e.content)
    && Utf8(jws) && In(w.json(container), "jws") == Some(jws)
    && DOT !in e.header && DOT !in e.payload && DOT !in e.signature
    && In(header, "alg") == Some(Ascii("ES256")) && In(header, "typ") == Some(Ascii("JWT"))
    && w.unbase64(e.signature).Some? && |w.unbase64(e.signature).value| == 64
    && In(payload, "context") == Some(CONTEXT)
    && In(payload, "iss") == Some(c.ownerDid)
    && In(payload, "content_hash") == Some(w.base64(w.digest(e.content)))
    && NumberIn(body, "v") == Some(1)
    && In(body, "device_did") == Some(myDid)
    && In(body, "owner_did") == Some(c.ownerDid)
    && NumberIn(body, "roster_version") == Some(c.pin.roster)
    && Did.Parse(w.onCurve, c.ownerDid) == Ok(Did.Did(c.pin.key))
  }

  lemma AcceptedAttests(w: World, container: Bytes, myDid: Bytes, c: Checked) returns (e: Pieces)
    requires Check(w, container, myDid) == Ok(c)
    ensures Attests(w, container, myDid, c, e)
  {
    hide Did.Parse, Utf8, Split;
    var outer := w.json(container).value;
    var jws := TextOf(outer, "jws").value;
    var parts := Split(jws);
    e := Pieces(TextOf(outer, "content").value, parts[0], parts[1], parts[2]);
    assert parts == [e.header, e.payload, e.signature];
    ThreeParts(jws, e.header, e.payload, e.signature);
  }

  lemma AttestedIsAccepted(w: World, container: Bytes, myDid: Bytes, c: Checked, e: Pieces)
    requires Attests(w, container, myDid, c, e)
    ensures Check(w, container, myDid) == Ok(c)
  {
    hide Did.Parse, Utf8, Split;
    var jws := e.header + [DOT] + (e.payload + [DOT] + e.signature);
    ThreeParts(jws, e.header, e.payload, e.signature);
    assert Split(jws)[0] == e.header && Split(jws)[1] == e.payload && Split(jws)[2] == e.signature;
  }

  /** The check accepts exactly the containers that attest an adoption of this
      device by that owner. */
  lemma CheckMeaning(w: World, container: Bytes, myDid: Bytes, c: Checked)
    ensures Check(w, container, myDid) == Ok(c) <==> exists e :: Attests(w, container, myDid, c, e)
  {
    hide Check, Attests;
    if Check(w, container, myDid) == Ok(c) {
      var e := AcceptedAttests(w, container, myDid, c);
    }
    forall e | Attests(w, container, myDid, c, e)
      ensures Check(w, container, myDid) == Ok(c)
    {
      AttestedIsAccepted(w, container, myDid, c, e);
    }
  }

  // ----- why a container is refused -----

  /** Part `i` of a jws of three parts. */
  function PartOf(w: World, container: Bytes, i: nat): Bytes
    requires i < 3
  {
    match In(w.json(container), "jws")
    case Some(jws) => if |Split(jws)| == 3 then Split(jws)[i] else []
    case None => []
  }

  predicate Es256(header: Option<Json>) {
    In(header, "alg") == Some(Ascii("ES256")) && In(header, "typ") == Some(Ascii("JWT"))
  }

  /** What each reason says is wrong with a container, whatever else is. */
  predicate Wanting(w: World, container: Bytes, myDid: Bytes, why: Why) {
    var outer := w.json(container);
    var content, jws := In(outer, "content"), In(outer, "jws");
    var h, p, s := PartOf(w, container, 0), PartOf(w, container, 1), PartOf(w, container, 2);
    var header, payload := JsonPart(w, h), JsonPart(w, p);
    var body := if content.Some? then w.json(content.value) else None;
    match why
    case NotJson => outer == None
    case NoContent => content == None
    case NoJws => jws == None
    case NotThreeParts => jws == None || |Split(jws.value)| != 3
    case HeaderNotBase64 => w.unbase64(h) == None
    case HeaderNotJson => header == None
    case HeaderNotEs256 => !Es256(header)
    case SignatureNot64 => w.unbase64(s) == None || |w.unbase64(s).value| != 64
    case PayloadNotBase64 => w.unbase64(p) == None
    case PayloadNotJson => payload == None
    case WrongContext => In(payload, "context") != Some(CONTEXT)
    case NoIssuer => In(payload, "iss") == None
    case NoContentHash => In(payload, "content_hash") == None
    case HashMismatch => content == None || In(payload, "content_hash") != Some(w.base64(w.digest(content.value)))
    case ContentNotJson => body == None
    case NotVersion1 => NumberIn(body, "v") != Some(1)
    case OtherDevice => In(body, "device_did") != Some(myDid)
    case NoOwner => In(body, "owner_did") == None
    case OwnerNotIssuer => In(body, "owner_did") != In(payload, "iss")
    case NoRoster => NumberIn(body, "roster_version") == None || NumberIn(body, "roster_version").value > 0xFFFF_FFFF
    case OwnerNotKey => In(body, "owner_did") == None || Did.Parse(w.onCurve, In(body, "owner_did").value).Err?
    case TooLong => false
    case PinnedToAnother => false
    case RosterOlder => false
  }

  /** The order the reasons are looked for in. */
  function Rank(why: Why): nat {
    match why
    case NotJson => 0
    case NoContent => 1
    case NoJws => 2
    case NotThreeParts => 3
    case HeaderNotBase64 => 4
    case HeaderNotJson => 5
    case HeaderNotEs256 => 6
    case SignatureNot64 => 7
    case PayloadNotBase64 => 8
    case PayloadNotJson => 9
    case WrongContext => 10
    case NoIssuer => 11
    case NoContentHash => 12
    case HashMismatch => 13
    case ContentNotJson => 14
    case NotVersion1 => 15
    case OtherDevice => 16
    case NoOwner => 17
    case OwnerNotIssuer => 18
    case NoRoster => 19
    case OwnerNotKey => 20
    case TooLong => 21
    case PinnedToAnother => 22
    case RosterOlder => 23
  }

  lemma HeaderReasons(w: World, part: Bytes)
    ensures var header := JsonPart(w, part);
      match CheckHeader(w, part)
      case Ok(_) => w.unbase64(part).Some? && header.Some? && Es256(header)
      case Err(why) =>
        || (why == HeaderNotBase64 && w.unbase64(part) == None)
        || (why == HeaderNotJson && w.unbase64(part).Some? && header == None)
        || (why == HeaderNotEs256 && header.Some? && !Es256(header))
  {
    hide Utf8;
  }

  lemma PayloadReasons(w: World, part: Bytes, content: Str)
    ensures var payload := JsonPart(w, part);
      var context, hash := In(payload, "context"), In(payload, "content_hash");
      var right := hash == Some(w.base64(w.digest(content)));
      match CheckPayload(w, part, content)
      case Ok(issuer) => context == Some(CONTEXT) && In(payload, "iss") == Some(issuer) && right
      case Err(why) =>
        || (why == PayloadNotBase64 && w.unbase64(part) == None)
        || (why == PayloadNotJson && w.unbase64(part).Some? && payload == None)
        || (why == WrongContext && payload.Some? && context != Some(CONTEXT))
        || (why == NoIssuer && context == Some(CONTEXT) && In(payload, "iss") == None)
        || (why == NoContentHash && context == Some(CONTEXT) && In(payload, "iss").Some? && hash == None)
        || (why == HashMismatch && context == Some(CONTEXT) && In(payload, "iss").Some? && hash.Some? && !right)
  {
    hide Utf8;
  }

  lemma BodyReasons(w: World, content: Str, issuer: Str, myDid: Bytes)
    ensures var body := w.json(content);
      var first, mine := NumberIn(body, "v") == Some(1), In(body, "device_did") == Some(myDid);
      var owner, roster := In(body, "owner_did"), NumberIn(body, "roster_version");
      var small := roster.Some? && roster.value <= 0xFFFF_FFFF;
      match CheckBody(w, content, issuer, myDid)
      case Ok(_) => first && mine && owner == Some(issuer) && small && Did.Parse(w.onCurve, issuer).Ok?
      case Err(why) =>
        || (why == ContentNotJson && body == None)
        || (why == NotVersion1 && body.Some? && !first)
        || (why == OtherDevice && first && !mine)
        || (why == NoOwner && first && mine && owner == None)
        || (why == OwnerNotIssuer && first && mine && owner.Some? && owner != Some(issuer))
        || (why == NoRoster && first && mine && owner == Some(issuer) && !small)
        || (why == OwnerNotKey && first && mine && owner == Some(issuer) && small && Did.Parse(w.onCurve, issuer).Err?)
  {
    hide Utf8, Did.Parse;
  }

  lemma PartsOf(w: World, container: Bytes)
    requires In(w.json(container), "jws").Some? && |Split(In(w.json(container), "jws").value)| == 3
    ensures var parts := Split(In(w.json(container), "jws").value);
      PartOf(w, container, 0) == parts[0] && PartOf(w, container, 1) == parts[1] && PartOf(w, container, 2) == parts[2]
  {
  }

  /** The reasons that hold of the three parts and the body, with what they
      rest on. */
  lemma Reasons(w: World, container: Bytes, myDid: Bytes)
    requires In(w.json(container), "content").Some? && In(w.json(container), "jws").Some?
    requires |Split(In(w.json(container), "jws").value)| == 3
    ensures var h, p, s := PartOf(w, container, 0), PartOf(w, container, 1), PartOf(w, container, 2);
      var content := In(w.json(container), "content").value;
      var signed := w.unbase64(s).Some? && |w.unbase64(s).value| == 64;
      var header, payload := CheckHeader(w, h), CheckPayload(w, p, content);
      Check(w, container, myDid)
        == if header.Err? then Err(header.error)
           else if !signed then Err(SignatureNot64)
           else if payload.Err? then Err(payload.error)
           else CheckBody(w, content, payload.value, myDid)
  {
    hide Split, CheckHeader, CheckPayload, CheckBody, Utf8;
    PartsOf(w, container);
  }

  /** The container has a content, and a jws of three parts. */
  predicate Parted(w: World, container: Bytes) {
    && In(w.json(container), "content").Some?
    && In(w.json(container), "jws").Some? && |Split(In(w.json(container), "jws").value)| == 3
  }

  lemma HeaderRefusalIsTrue(w: World, container: Bytes, myDid: Bytes, why: Why)
    requires CheckHeader(w, PartOf(w, container, 0)) == Err(why)
    ensures Wanting(w, container, myDid, why)
  {
    hide Split, Did.Parse, Utf8, CheckHeader, CheckPayload, CheckBody, PartOf, Es256, CONTEXT, Check;
    HeaderReasons(w, PartOf(w, container, 0));
  }

  lemma PayloadRefusalIsTrue(w: World, container: Bytes, myDid: Bytes, why: Why)
    requires In(w.json(container), "content").Some?
    requires CheckPayload(w, PartOf(w, container, 1), In(w.json(container), "content").value) == Err(why)
    ensures Wanting(w, container, myDid, why)
  {
    hide Split, Did.Parse, Utf8, CheckHeader, CheckPayload, CheckBody, PartOf, Es256, CONTEXT, Check;
    PayloadReasons(w, PartOf(w, container, 1), In(w.json(container), "content").value);
  }

  lemma BodyRefusalIsTrue(w: World, container: Bytes, myDid: Bytes, why: Why)
    requires In(w.json(container), "content").Some?
    requires var content := In(w.json(container), "content").value;
      var payload := CheckPayload(w, PartOf(w, container, 1), content);
      payload.Ok? && CheckBody(w, content, payload.value, myDid) == Err(why)
    ensures Wanting(w, container, myDid, why)
  {
    hide Split, Did.Parse, Utf8, CheckHeader, CheckPayload, CheckBody, PartOf, Es256, CONTEXT, Check;
    var content := In(w.json(container), "content").value;
    PayloadReasons(w, PartOf(w, container, 1), content);
    BodyReasons(w, content, CheckPayload(w, PartOf(w, container, 1), content).value, myDid);
  }

  lemma PartedRefusalIsTrue(w: World, container: Bytes, myDid: Bytes, why: Why)
    requires Parted(w, container) && Check(w, container, myDid) == Err(why)
    ensures Wanting(w, container, myDid, why)
  {
    hide CheckHeader, CheckPayload, CheckBody, PartOf, Check, Split, Utf8;
    Reasons(w, container, myDid);
    var content := In(w.json(container), "content").value;
    if CheckHeader(w, PartOf(w, container, 0)).Err? {
      HeaderRefusalIsTrue(w, container, myDid, why);
    } else if w.unbase64(PartOf(w, container, 2)).Some? && |w.unbase64(PartOf(w, container, 2)).value| == 64 {
      hide Wanting;
      if CheckPayload(w, PartOf(w, container, 1), content).Err? {
        PayloadRefusalIsTrue(w, container, myDid, why);
      } else {
        BodyRefusalIsTrue(w, container, myDid, why);
      }
    }
  }

  lemma NothingEarlierWhereParted(w: World, container: Bytes, myDid: Bytes, why: Why, other: Why)
    requires Parted(w, container)
    requires Check(w, container, myDid).Ok? || (Check(w, container, myDid) == Err(why) && Rank(other) < Rank(why))
    ensures !Wanting(w, container, myDid, other)
  {
    hide Split, Did.Parse, Utf8, CheckHeader, CheckPayload, CheckBody, PartOf, Es256, CONTEXT, Check;
    Reasons(w, container, myDid);
    var content := In(w.json(container), "content").value;
    HeaderReasons(w, PartOf(w, container, 0));
    PayloadReasons(w, PartOf(w, container, 1), content);
    var payload := CheckPayload(w, PartOf(w, container, 1), content);
    if payload.Ok? {
      BodyReasons(w, content, payload.value, myDid);
    }
  }

  lemma Unparted(w: World, container: Bytes, myDid: Bytes)
    requires !Parted(w, container)
    ensures var outer := w.json(container);
      Check(w, container, myDid)
        == Err(if outer == None then NotJson
               else if In(outer, "content") == None then NoContent
               else if In(outer, "jws") == None then NoJws
               else NotThreeParts)
  {
    hide Split, Did.Parse, Utf8, CheckHeader, CheckPayload, CheckBody;
  }

  lemma RefusalIsTrue(w: World, container: Bytes, myDid: Bytes, why: Why)
    requires Check(w, container, myDid) == Err(why)
    ensures Wanting(w, container, myDid, why)
  {
    hide Check, Split, Did.Parse, Utf8, PartOf, Es256, CONTEXT, JsonPart;
    if Parted(w, container) {
      PartedRefusalIsTrue(w, container, myDid, why);
    } else {
      Unparted(w, container, myDid);
    }
  }

  lemma NothingEarlier(w: World, container: Bytes, myDid: Bytes, why: Why, other: Why)
    requires Check(w, container, myDid).Ok? || (Check(w, container, myDid) == Err(why) && Rank(other) < Rank(why))
    ensures !Wanting(w, container, myDid, other)
  {
    hide Check, Split, Did.Parse, Utf8, PartOf, Es256, CONTEXT, JsonPart;
    if Parted(w, container) {
      NothingEarlierWhereParted(w, container, myDid, why, other);
    } else {
      Unparted(w, container, myDid);
    }
  }

  /** The reason given is the first, in that order, of those that are true; a
      container of which none is true is accepted. */
  lemma RefusalMeaning(w: World, container: Bytes, myDid: Bytes, why: Why)
    ensures Check(w, container, myDid) == Err(why) <==>
      && Wanting(w, container, myDid, why)
      && forall other: Why :: Rank(other) < Rank(why) ==> !Wanting(w, container, myDid, other)
  {
    hide Check, Wanting;
    var r := Check(w, container, myDid);
    if r.Err? {
      RefusalIsTrue(w, container, myDid, r.error);
      forall other: Why | Rank(other) < Rank(r.error)
        ensures !Wanting(w, container, myDid, other)
      {
        NothingEarlier(w, container, myDid, r.error, other);
      }
    } else {
      NothingEarlier(w, container, myDid, why, why);
    }
  }

  // ----- there are statements to accept -----

  /** Libraries that read exactly these documents. */
  function SmallWorld(documents: map<Bytes, Json>): World {
    World(
      b => if b in documents then Some(documents[b]) else None,
      b => if b == [0x33] then Some(Fill(64, 0)) else Some(b),
      b => b,
      _ => Fill(32, 0),
      _ => true)
  }

  /** A literal as text. */
  function Literal(s: string): (t: Str)
    requires AllAscii(s)
    ensures t == Ascii(s)
  {
    AsciiIsUtf8(Ascii(s));
    Ascii(s)
  }

  function OwnerText(key: Bytes33): (t: Str)
    ensures t == Did.Text(key)
  {
    Did.TextIsAscii(key);
    AsciiIsUtf8(Did.Text(key));
    Did.Text(key)
  }

  function HeaderOf(): Json {
    Object(map["alg" := Text(Literal("ES256")), "typ" := Text(Literal("JWT"))])
  }

  function Zeroes(): (t: Str)
    ensures t == Fill(32, 0)
  {
    AsciiIsUtf8(Fill(32, 0));
    Fill(32, 0)
  }

  function ContextText(): (t: Str)
    ensures t == CONTEXT
  {
    hide Utf8;
    AsciiIsUtf8(CONTEXT);
    CONTEXT
  }

  function PayloadOf(key: Bytes33): Json {
    Object(map["context" := Text(ContextText()), "iss" := Text(OwnerText(key)),
               "content_hash" := Text(Zeroes())])
  }

  function BodyOf(myDid: Str, pin: OwnerPin): Json {
    Object(map["v" := Unsigned(1), "device_did" := Text(myDid), "owner_did" := Text(OwnerText(pin.key)),
               "roster_version" := Unsigned(pin.roster)])
  }

  function OuterOf(content: Str, jws: Str): Json {
    Object(map["content" := Text(content), "jws" := Text(jws)])
  }

  /** One ASCII character as text. */
  function OneChar(c: byte): (t: Str)
    requires c < 128
    ensures t == [c]
  {
    AsciiIsUtf8([c]);
    [c]
  }

  /** The jws of a statement whose payload is encoded as one character. */
  function JwsOf(payload: byte): (t: Str)
    requires payload < 128
    ensures t == [0x31] + [DOT] + ([payload] + [DOT] + [0x33])
  {
    var jws := [0x31, DOT, payload, DOT, 0x33];
    AsciiIsUtf8(jws);
    jws
  }

  /** Two statements for one device, each naming its own owner. */
  function TwoStatements(myDid: Str, first: OwnerPin, second: OwnerPin): map<Bytes, Json> {
    map[[0x7B] := OuterOf(OneChar(0x7D), JwsOf(0x32)), [0x5B] := OuterOf(OneChar(0x5D), JwsOf(0x34)),
        [0x31] := HeaderOf(), [0x32] := PayloadOf(first.key), [0x34] := PayloadOf(second.key),
        [0x7D] := BodyOf(myDid, first), [0x5D] := BodyOf(myDid, second)]
  }

  /** The four documents, found where the container leads, are accepted. */
  lemma Accepted(w: World, container: Bytes, content: Str, jws: Str, payload: byte, myDid: Str, pin: OwnerPin)
    requires payload != DOT && jws == [0x31] + [DOT] + ([payload] + [DOT] + [0x33])
    requires w.json(container) == Some(OuterOf(content, jws)) && JsonPart(w, [0x31]) == Some(HeaderOf())
    requires JsonPart(w, [payload]) == Some(PayloadOf(pin.key)) && w.json(content) == Some(BodyOf(myDid, pin))
    requires w.unbase64([0x33]) == Some(Fill(64, 0)) && w.base64(w.digest(content)) == Fill(32, 0)
    requires Did.FromPubkey(w.onCurve, pin.key) == Ok(Did.Did(pin.key))
    ensures Check(w, container, myDid) == Ok(Checked(OwnerText(pin.key), pin))
  {
    hide Utf8, Check, Did.Parse, Did.FromPubkey, Did.Base58, OuterOf, HeaderOf, PayloadOf, BodyOf, JsonPart;
    OuterReads(content, jws);
    HeaderReads();
    PayloadReads(pin.key);
    BodyReads(myDid, pin);
    OwnerParses(w, pin.key);
    AttestedIsAccepted(w, container, myDid, Checked(OwnerText(pin.key), pin), Pieces(content, [0x31], [payload], [0x33]));
  }

  lemma OwnerParses(w: World, key: Bytes33)
    requires Did.FromPubkey(w.onCurve, key) == Ok(Did.Did(key))
    ensures Did.Parse(w.onCurve, OwnerText(key)) == Ok(Did.Did(key))
  {
    hide Did.ParsePrefixed, Did.FromPubkey, Did.Base58;
    Did.ParseIsWriteInverse(w.onCurve, Did.PREFIX, OwnerText(key), key);
  }

  lemma HeaderReads()
    ensures TextOf(HeaderOf(), "alg") == Some(Literal("ES256")) && TextOf(HeaderOf(), "typ") == Some(Literal("JWT"))
  {
    hide Literal, Utf8;
  }

  lemma PayloadReads(key: Bytes33)
    ensures TextOf(PayloadOf(key), "context") == Some(ContextText())
    ensures TextOf(PayloadOf(key), "iss") == Some(OwnerText(key))
    ensures TextOf(PayloadOf(key), "content_hash") == Some(Zeroes())
  {
    hide OwnerText, Zeroes, ContextText, Utf8;
  }

  lemma BodyReads(myDid: Str, pin: OwnerPin)
    ensures var body := BodyOf(myDid, pin);
      && UnsignedOf(body, "v") == Some(1) && UnsignedOf(body, "roster_version") == Some(pin.roster)
      && TextOf(body, "device_did") == Some(myDid) && TextOf(body, "owner_did") == Some(OwnerText(pin.key))
  {
    hide OwnerText, Utf8;
  }

  lemma OuterReads(content: Str, jws: Str)
    ensures TextOf(OuterOf(content, jws), "content") == Some(content) && TextOf(OuterOf(content, jws), "jws") == Some(jws)
  {
    hide Utf8;
  }

  /** For any device, any two keys that may be points and any rosters there are
      libraries under which a container is accepted for each. */
  lemma StatementsExist(myDid: Str, first: OwnerPin, second: OwnerPin) returns (w: World, mine: Bytes, theirs: Bytes)
    requires first.key[0] in {2, 3} && second.key[0] in {2, 3}
    ensures JsonGrammar(w) && |mine| == |theirs| == 1
    ensures Check(w, mine, myDid) == Ok(Checked(OwnerText(first.key), first))
    ensures Check(w, theirs, myDid) == Ok(Checked(OwnerText(second.key), second))
  {
    hide Check, OuterOf, HeaderOf, PayloadOf, BodyOf, Utf8;
    var documents := TwoStatements(myDid, first, second);
    w, mine, theirs := SmallWorld(documents), [0x7B], [0x5B];
    Accepted(w, mine, OneChar(0x7D), JwsOf(0x32), 0x32, myDid, first);
    Accepted(w, theirs, OneChar(0x5D), JwsOf(0x34), 0x34, myDid, second);
  }
}
