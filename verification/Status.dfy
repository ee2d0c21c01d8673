/** The signed status: what a device signs in answer to a verifier's nonce, the
    nonce's hexadecimal form, and the document that carries the signature. */
module Status {
  import opened Base
  import opened Wire

  const DOMAIN: Bytes := Ascii("janus-status-v1\n")

  const VERSION: byte := 1

  const NO_ADOPTION: Bytes32 := Fill(32, 0)

  datatype Proof = Proof(nonce: Bytes32, deviceDid: Str, ownerDid: Str, kind: Str, adoptionHash: Bytes32)

  function AfterNonce(p: Proof): Bytes {
    Str16(p.deviceDid) + (Str16(p.ownerDid) + (Str16(p.kind) + p.adoptionHash))
  }

  /** The message, in its order. */
  function Message(p: Proof): Bytes {
    DOMAIN + ([VERSION] + (p.nonce + AfterNonce(p)))
  }

  /** Every field's length fits its two-byte prefix. */
  predicate Framable(p: Proof) {
    |p.deviceDid| < 0x1_0000 && |p.ownerDid| < 0x1_0000 && |p.kind| < 0x1_0000
  }

  function Len(p: Proof): (n: nat)
    ensures n == |Message(p)|
  {
    |DOMAIN| + 1 + 32 + 2 + |p.deviceDid| + 2 + |p.ownerDid| + 2 + |p.kind| + 32
  }

  /** Write the message at the start of `out`. */
  method Write(p: Proof, out: array<byte>) returns (r: Result<nat, Error>)
    modifies out
    ensures out.Length < |Message(p)| ==> r == Err(BufferTooSmall(|Message(p)|))
    ensures out.Length >= |Message(p)| && !Framable(p) ==> r == Err(InvalidFormat)
    ensures out.Length >= |Message(p)| && Framable(p) ==> r == Ok(|Message(p)|)
    ensures r.Ok? ==> out[..] == Message(p) + old(out[|Message(p)|..])
    ensures r.Err? ==> out[..] == old(out[..])
  {
    hide Message;
    var needed := Len(p);
    if out.Length < needed {
      return Err(BufferTooSmall(needed));
    }
    if |p.deviceDid| >= 0x1_0000 || |p.ownerDid| >= 0x1_0000 || |p.kind| >= 0x1_0000 {
      return Err(InvalidFormat);
    }
    var w := new Writer(out, Message(p));
    WriteFields(p, w);
    return Ok(w.pos);
  }

  method WriteFields(p: Proof, w: Writer)
    requires w.Valid() && w.pos == 0 && w.todo == Message(p)
    modifies w, w.out
    ensures w.Valid() && w.todo == [] && w.pos == |Message(p)|
  {
    w.Put(DOMAIN, [VERSION] + (p.nonce + AfterNonce(p)));
    w.Put([VERSION], p.nonce + AfterNonce(p));
    w.Put(p.nonce, AfterNonce(p));
    w.PutStr16(p.deviceDid, Str16(p.ownerDid) + (Str16(p.kind) + p.adoptionHash));
    w.PutStr16(p.ownerDid, Str16(p.kind) + p.adoptionHash);
    w.PutStr16(p.kind, p.adoptionHash);
    w.Put(p.adoptionHash, []);
  }

  /** The hash of the message, fed field by field: the bytes `Write` lays out. */
  method Prehash(p: Proof, digest: Bytes -> Bytes32) returns (r: Result<Bytes32, Error>)
    ensures r == if Framable(p) then Ok(digest(Message(p))) else Err(InvalidFormat)
  {
    if |p.deviceDid| >= 0x1_0000 || |p.ownerDid| >= 0x1_0000 || |p.kind| >= 0x1_0000 {
      return Err(InvalidFormat);
    }
    var h := new Hasher(digest, Message(p));
    h.Update(DOMAIN, [VERSION] + (p.nonce + AfterNonce(p)));
    h.Update([VERSION], p.nonce + AfterNonce(p));
    h.Update(p.nonce, AfterNonce(p));
    FeedFields(p, h);
    var hash := h.Finalize();
    return Ok(hash);
  }

  method FeedFields(p: Proof, h: Hasher)
    requires h.Valid() && h.todo == AfterNonce(p)
    modifies h
    ensures h.Valid() && h.todo == []
  {
    var rest := Str16(p.ownerDid) + (Str16(p.kind) + p.adoptionHash);
    FeedStr16(p.deviceDid, rest, h);
    FeedStr16(p.ownerDid, Str16(p.kind) + p.adoptionHash, h);
    FeedStr16(p.kind, p.adoptionHash, h);
    assert p.adoptionHash + [] == p.adoptionHash;
    h.Update(p.adoptionHash, []);
  }

  method FeedStr16(s: Bytes, ghost rest: Bytes, h: Hasher)
    requires h.Valid() && h.todo == Str16(s) + rest
    modifies h
    ensures h.Valid() && h.todo == rest
  {
    assert Str16(s) + rest == Be(|s|, 2) + (s + rest);
    h.Update(Be(|s|, 2), s + rest);
    h.Update(s, rest);
  }

  /** The message by offset: each field where the one before it ends. */
  lemma MessageForm(p: Proof)
    ensures var m := Message(p);
      var owner := 51 + |p.deviceDid|;
      var kind := owner + 2 + |p.ownerDid|;
      var hash := kind + 2 + |p.kind|;
      && Holds(m, 0, DOMAIN) && Holds(m, 16, [1]) && Holds(m, 17, p.nonce)
      && Holds(m, 49, Be(|p.deviceDid|, 2)) && Holds(m, 51, p.deviceDid)
      && Holds(m, owner, Be(|p.ownerDid|, 2)) && Holds(m, owner + 2, p.ownerDid)
      && Holds(m, kind, Be(|p.kind|, 2)) && Holds(m, kind + 2, p.kind)
      && Holds(m, hash, p.adoptionHash) && |m| == hash + 32
  {
    hide *;
    var m := Message(p);
    NonceForm(p, m);
    AfterNonceForm(p, m, 49);
  }

  lemma MessageIs(p: Proof)
    ensures Message(p) == DOMAIN + ([1] + (p.nonce + AfterNonce(p))) && |DOMAIN| == 16
    ensures AfterNonce(p) == Str16(p.deviceDid) + (Str16(p.ownerDid) + (Str16(p.kind) + p.adoptionHash))
  {
    hide Utf8, Str16;
  }

  lemma NonceForm(p: Proof, m: Bytes)
    requires m == Message(p)
    ensures Holds(m, 0, DOMAIN) && Holds(m, 16, [1]) && Holds(m, 17, p.nonce) && Tail(m, 49, AfterNonce(p))
  {
    hide *;
    var rest := p.nonce + AfterNonce(p);
    MessageIs(p);
    HoldsFirst(m, DOMAIN, [1] + rest);
    HoldsNext(m, 16, [1], rest);
    HoldsNext(m, 17, p.nonce, AfterNonce(p));
  }

  lemma AfterNonceForm(p: Proof, m: Bytes, at: nat)
    requires Tail(m, at, AfterNonce(p))
    ensures var owner := at + 2 + |p.deviceDid|;
      var kind := owner + 2 + |p.ownerDid|;
      var hash := kind + 2 + |p.kind|;
      && Holds(m, at, Be(|p.deviceDid|, 2)) && Holds(m, at + 2, p.deviceDid)
      && Holds(m, owner, Be(|p.ownerDid|, 2)) && Holds(m, owner + 2, p.ownerDid)
      && Holds(m, kind, Be(|p.kind|, 2)) && Holds(m, kind + 2, p.kind)
      && Holds(m, hash, p.adoptionHash) && |m| == hash + 32
  {
    hide *;
    var r2 := Str16(p.kind) + p.adoptionHash;
    var r1 := Str16(p.ownerDid) + r2;
    MessageIs(p);
    HoldsStr16(m, at, p.deviceDid, r1);
    HoldsStr16(m, at + 2 + |p.deviceDid|, p.ownerDid, r2);
    var kind := at + 2 + |p.deviceDid| + 2 + |p.ownerDid|;
    HoldsStr16(m, kind, p.kind, p.adoptionHash);
    HoldsLast(m, kind + 2 + |p.kind|, p.adoptionHash);
  }

  /** Two proofs with the same message are the same. */
  lemma MessageInjective(p: Proof, q: Proof)
    requires Framable(p) && Framable(q) && Message(p) == Message(q)
    ensures p == q
  {
    hide Str16;
    PeelFixed(DOMAIN, [VERSION] + (p.nonce + AfterNonce(p)), DOMAIN, [VERSION] + (q.nonce + AfterNonce(q)));
    PeelFixed([VERSION], p.nonce + AfterNonce(p), [VERSION], q.nonce + AfterNonce(q));
    PeelFixed(p.nonce, AfterNonce(p), q.nonce, AfterNonce(q));
    PeelStr16(p.deviceDid, Str16(p.ownerDid) + (Str16(p.kind) + p.adoptionHash),
              q.deviceDid, Str16(q.ownerDid) + (Str16(q.kind) + q.adoptionHash));
    PeelStr16(p.ownerDid, Str16(p.kind) + p.adoptionHash, q.ownerDid, Str16(q.kind) + q.adoptionHash);
    PeelStr16(p.kind, p.adoptionHash, q.kind, q.adoptionHash);
  }

  // ----- the nonce in hexadecimal -----

  function Nibble(c: byte): (n: Option<nat>)
    ensures n.Some? ==> n.value < 16 && HexDigit(n.value) == c
  {
    if '0' as int <= c <= '9' as int then Some(c - '0' as int)
    else if 'a' as int <= c <= 'f' as int then Some(c - 'a' as int + 10)
    else None
  }

  function HexDigit(n: nat): byte
    requires n < 16
  {
    if n < 10 then '0' as int + n else 'a' as int + n - 10
  }

  /** Lower-case hexadecimal. */
  function Hex(b: Bytes): (h: Bytes)
    ensures |h| == 2 * |b|
  {
    if b == [] then [] else [HexDigit(b[0] / 16), HexDigit(b[0] % 16)] + Hex(b[1..])
  }

  function Unhex(h: Bytes): (b: Option<Bytes>)
    requires |h| % 2 == 0
    ensures b.Some? ==> 2 * |b.value| == |h|
  {
    if h == [] then Some([])
    else
      match (Nibble(h[0]), Nibble(h[1]), Unhex(h[2..]))
      case (Some(hi), Some(lo), Some(rest)) => Some([16 * hi + lo] + rest)
      case _ => None
  }

  /** Exactly 64 lower-case hexadecimal characters, to 32 bytes. */
  method ParseNonceHex(s: Bytes) returns (r: Result<Bytes32, Error>)
    ensures r.Ok? ==> |s| == 64 && Unhex(s) == Some(r.value)
    ensures r.Err? ==> r.error == InvalidFormat && (|s| == 64 ==> Unhex(s) == None)
  {
    hide Unhex, Nibble, HexDigit;
    if |s| != 64 {
      return Err(InvalidFormat);
    }
    var out := new byte[32];
    assert s[0..] == s;
    JoinedNone(Unhex(s));
    for i := 0 to 32
      invariant Unhex(s) == Joined(out[..i], Unhex(s[2 * i..]))
    {
      var hi, lo := Nibble(s[2 * i]), Nibble(s[2 * i + 1]);
      UnhexStep(s, i);
      if hi.None? || lo.None? {
        return Err(InvalidFormat);
      }
      out[i] := 16 * hi.value + lo.value;
      assert out[..i + 1] == out[..i] + [out[i]];
      JoinedMore(out[..i], out[i], Unhex(s[2 * (i + 1)..]));
    }
    UnhexNothing(s[64..]);
    assert out[..32] == out[..];
    assert out[..] + [] == out[..];
    return Ok(out[..]);
  }

  /** Two characters of the text, and the rest of it. */
  lemma UnhexStep(s: Bytes, i: nat)
    requires |s| == 64 && i < 32
    ensures Unhex(s[2 * i..]) ==
      match (Nibble(s[2 * i]), Nibble(s[2 * i + 1]), Unhex(s[2 * (i + 1)..]))
      case (Some(hi), Some(lo), Some(rest)) => Some([16 * hi + lo] + rest)
      case _ => None
  {
    assert s[2 * i..][2..] == s[2 * (i + 1)..];
  }

  lemma UnhexNothing(s: Bytes)
    requires s == []
    ensures Unhex(s) == Some([])
  {
  }

  lemma JoinedNone(rest: Option<Bytes>)
    ensures Joined([], rest) == rest
  {
    if rest.Some? {
      assert [] + rest.value == rest.value;
    }
  }

  function Joined(done: Bytes, rest: Option<Bytes>): Option<Bytes> {
    if rest.Some? then Some(done + rest.value) else None
  }

  lemma JoinedMore(done: Bytes, b: byte, rest: Option<Bytes>)
    ensures rest.Some? ==> Joined(done + [b], rest) == Joined(done, Some([b] + rest.value))
  {
    if rest.Some? {
      assert done + [b] + rest.value == done + ([b] + rest.value);
    }
  }

  lemma {:induction false} UnhexIsHexInverse(h: Bytes, b: Bytes)
    requires |h| % 2 == 0
    ensures Unhex(h) == Some(b) <==> h == Hex(b)
  {
    if h != [] && b != [] {
      UnhexIsHexInverse(h[2..], b[1..]);
      assert h == [h[0], h[1]] + h[2..];
      assert b == [b[0]] + b[1..];
      NibbleOfHexDigit(b[0] / 16);
      NibbleOfHexDigit(b[0] % 16);
      if Unhex(h) == Some(b) {
        var hi, lo := Nibble(h[0]).value, Nibble(h[1]).value;
        assert b[0] == 16 * hi + lo;
        assert b[0] / 16 == hi && b[0] % 16 == lo;
      }
    }
  }

  lemma NibbleOfHexDigit(n: nat)
    requires n < 16
    ensures Nibble(HexDigit(n)) == Some(n)
  {
  }

  predicate HexChar(c: byte) {
    0x30 <= c <= 0x39 || 0x61 <= c <= 0x66
  }

  /** The value of a hexadecimal character. */
  function HexValue(c: byte): int
    requires HexChar(c)
  {
    if c <= 0x39 then c - 0x30 else c - 0x57
  }

  /** Two characters spell `x`, the high half first. */
  predicate PairSpells(hi: byte, lo: byte, x: byte) {
    HexChar(hi) && HexChar(lo) && x == 16 * HexValue(hi) + HexValue(lo)
  }

  predicate SpelledBy(b: Bytes, h: Bytes) {
    |h| == 2 * |b| && forall i :: 0 <= i < |b| ==> PairSpells(h[2 * i], h[2 * i + 1], b[i])
  }

  lemma SpelledByCons(b: Bytes, h: Bytes)
    requires b != [] && |h| >= 2
    ensures SpelledBy(b, h) <==> PairSpells(h[0], h[1], b[0]) && SpelledBy(b[1..], h[2..])
  {
    hide PairSpells;
    var b', h' := b[1..], h[2..];
    if SpelledBy(b, h) {
      assert PairSpells(h[2 * 0], h[2 * 0 + 1], b[0]);
      forall i | 0 <= i < |b'|
        ensures PairSpells(h'[2 * i], h'[2 * i + 1], b'[i])
      {
        assert PairSpells(h[2 * (i + 1)], h[2 * (i + 1) + 1], b[i + 1]);
      }
    }
    if PairSpells(h[0], h[1], b[0]) && SpelledBy(b', h') {
      forall i | 0 <= i < |b|
        ensures PairSpells(h[2 * i], h[2 * i + 1], b[i])
      {
        if i > 0 {
          assert PairSpells(h'[2 * (i - 1)], h'[2 * (i - 1) + 1], b'[i - 1]);
        }
      }
    }
  }

  /** What a text decodes to, character by character: only digits and
      lower-case letters decode. */
  lemma {:induction false} UnhexMeaning(h: Bytes, b: Bytes)
    requires |h| % 2 == 0
    ensures Unhex(h) == Some(b) <==> SpelledBy(b, h)
  {
    hide SpelledBy;
    if h != [] && b != [] {
      UnhexMeaning(h[2..], b[1..]);
      SpelledByCons(b, h);
      assert b == [b[0]] + b[1..];
    } else {
      SpelledByLength(b, h);
    }
  }

  lemma SpelledByLength(b: Bytes, h: Bytes)
    requires b == [] || h == []
    ensures SpelledBy(b, h) <==> b == [] && h == []
  {
  }

  /** The query's nonce and its text determine each other. */
  lemma NonceHexBijection(s: Bytes, nonce: Bytes32)
    ensures |s| == 64 && Unhex(s) == Some(nonce) <==> s == Hex(nonce)
  {
    if |s| == 64 {
      UnhexIsHexInverse(s, nonce);
    }
  }

  // ----- the document -----

  datatype Value = Null | Text(text: Bytes) | Object(members: map<string, Value>) | Whatever(tag: int)

  /** The adoption a device holds. */
  datatype Held = Held(ownerDid: Str, kind: Str, bytes: Bytes)

  datatype Document = Document(
    deviceDid: Str,
    makerDid: Option<Str>,
    model: Str,
    nodeId: Option<Str>,
    adoption: Option<Held>,
    extra: map<string, Value>)

  /** Base64url both ways, and the hash. */
  datatype Lib = Lib(base64: Bytes -> Bytes, unbase64: Bytes -> Option<Bytes>, digest: Bytes -> Bytes32)

  const FIELDS: set<string> :=
    {"pair", "maker_did", "model", "device_did", "node_id", "owner_did", "adoption_kind", "adoption", "device_sig"}

  function OrNull(s: Option<Str>): Value {
    if s.Some? then Text(s.value) else Null
  }

  function Pair(doc: Document): Value {
    match doc.adoption
    case None => Text(Ascii("ready"))
    case Some(a) => Object(map["paired" := Object(map["owner_did" := Text(a.ownerDid)])])
  }

  function Plain(doc: Document): map<string, Value> {
    map["pair" := Pair(doc), "maker_did" := OrNull(doc.makerDid), "model" := Text(doc.model),
        "device_did" := Text(doc.deviceDid), "node_id" := OrNull(doc.nodeId)]
  }

  /** What the device signs for this nonce. */
  function ProofOf(doc: Document, digest: Bytes -> Bytes32, nonce: Bytes32): Proof {
    match doc.adoption
    case None => Proof(nonce, doc.deviceDid, [], [], NO_ADOPTION)
    case Some(a) => Proof(nonce, doc.deviceDid, a.ownerDid, a.kind, digest(a.bytes))
  }

  function OwnExtra(doc: Document): map<string, Value> {
    map k | k in doc.extra && k !in FIELDS :: doc.extra[k]
  }

  function AdoptionFields(doc: Document, lib: Lib): map<string, Value> {
    match doc.adoption
    case None => map[]
    case Some(a) =>
      map["owner_did" := Text(a.ownerDid), "adoption_kind" := Text(a.kind), "adoption" := Text(lib.base64(a.bytes))]
  }

  function Body(doc: Document, lib: Lib, sig: Bytes64): map<string, Value> {
    OwnExtra(doc) + Plain(doc) + AdoptionFields(doc, lib) + map["device_sig" := Text(lib.base64(sig))]
  }

  /** The body for a nonce: the other fields but those that name a contract
      field, the discovery fields, the adoption, and the signature. */
  method Signed(doc: Document, lib: Lib, nonce: Bytes32, sign: Bytes32 -> Bytes64)
    returns (r: Result<map<string, Value>, Error>)
    ensures r == if Framable(ProofOf(doc, lib.digest, nonce))
                 then Ok(Body(doc, lib, sign(lib.digest(Message(ProofOf(doc, lib.digest, nonce))))))
                 else Err(InvalidFormat)
  {
    hide Framable, Message, Body;
    var proof := ProofOf(doc, lib.digest, nonce);
    var prehash :- Prehash(proof, lib.digest);
    var body := Assemble(doc, lib, sign(prehash));
    return Ok(body);
  }

  method Assemble(doc: Document, lib: Lib, sig: Bytes64) returns (out: map<string, Value>)
    ensures out == Body(doc, lib, sig)
  {
    hide Plain, OwnExtra;
    out := CopyExtra(doc);
    out := out + Plain(doc);
    if doc.adoption.Some? {
      var a := doc.adoption.value;
      ghost var was := out;
      out := out["owner_did" := Text(a.ownerDid)];
      out := out["adoption_kind" := Text(a.kind)];
      out := out["adoption" := Text(lib.base64(a.bytes))];
      assert out == was + AdoptionFields(doc, lib);
    } else {
      assert out + map[] == out;
    }
    out := out["device_sig" := Text(lib.base64(sig))];
  }

  method CopyExtra(doc: Document) returns (out: map<string, Value>)
    ensures out == OwnExtra(doc)
  {
    out := map[];
    var todo := doc.extra.Keys;
    while todo != {}
      invariant todo <= doc.extra.Keys
      invariant out == map k | k in OwnExtra(doc) && k !in todo :: doc.extra[k]
      decreases |todo|
    {
      var k :| k in todo;
      if k !in FIELDS {
        out := out[k := doc.extra[k]];
      }
      todo := todo - {k};
    }
  }

  function TextIn(body: map<string, Value>, key: string): Option<Bytes> {
    if key in body && body[key].Text? then Some(body[key].text) else None
  }

  /** What a verifier rebuilds from the nonce it sent and the body it got. */
  function Rebuilt(lib: Lib, nonce: Bytes32, body: map<string, Value>): Option<Proof> {
    match (TextIn(body, "device_did"), TextIn(body, "owner_did"), TextIn(body, "adoption_kind"), TextIn(body, "adoption"))
    case (Some(device), None, None, None) =>
      if Utf8(device) && "owner_did" !in body then Some(Proof(nonce, device, [], [], Fill(32, 0))) else None
    case (Some(device), Some(owner), Some(kind), Some(adoption)) =>
      (match lib.unbase64(adoption)
       case Some(bytes) =>
         if Utf8(device) && Utf8(owner) && Utf8(kind) then Some(Proof(nonce, device, owner, kind, lib.digest(bytes)))
         else None
       case None => None)
    case _ => None
  }

  /** The document matches its signature whatever `extra` holds: a verifier
      rebuilds from it the very proof that was signed, and finds that
      signature. */
  lemma DocumentMatchesSignature(doc: Document, lib: Lib, nonce: Bytes32, sig: Bytes64)
    requires forall b: Bytes :: lib.unbase64(lib.base64(b)) == Some(b)
    ensures var body := Body(doc, lib, sig);
      && Rebuilt(lib, nonce, body) == Some(ProofOf(doc, lib.digest, nonce))
      && TextIn(body, "device_sig").Some?
      && lib.unbase64(TextIn(body, "device_sig").value) == Some(sig)
  {
    hide Utf8;
    BodyTexts(doc, lib, sig);
    assert Utf8(doc.deviceDid);
  }

  /** Where the contract's texts are in the body. */
  lemma BodyTexts(doc: Document, lib: Lib, sig: Bytes64)
    ensures var body := Body(doc, lib, sig);
      && TextIn(body, "device_did") == Some(doc.deviceDid)
      && TextIn(body, "device_sig") == Some(lib.base64(sig))
      && ("owner_did" in body <==> doc.adoption.Some?)
      && TextIn(body, "owner_did") == (if doc.adoption.Some? then Some(doc.adoption.value.ownerDid) else None)
      && TextIn(body, "adoption_kind") == (if doc.adoption.Some? then Some(doc.adoption.value.kind) else None)
      && TextIn(body, "adoption") == (if doc.adoption.Some? then Some(lib.base64(doc.adoption.value.bytes)) else None)
  {
    hide Pair, OrNull;
    var plain, own, held := Plain(doc), OwnExtra(doc), AdoptionFields(doc, lib);
    assert plain.Keys == {"pair", "maker_did", "model", "device_did", "node_id"};
    assert own.Keys !! FIELDS;
    assert held.Keys <= {"owner_did", "adoption_kind", "adoption"};
  }

  // ----- the document read back -----

  function TextOrNull(body: map<string, Value>, key: string): Option<Option<Bytes>> {
    if key !in body then None
    else
      match body[key]
      case Null => Some(None)
      case Text(t) => Some(Some(t))
      case _ => None
  }

  /** The owner `pair` names: nobody where it is `ready`. */
  function PairedWith(v: Value): Option<Option<Bytes>> {
    match v
    case Text(t) => if t == Ascii("ready") then Some(None) else None
    case Object(m) =>
      if m.Keys == {"paired"} && m["paired"].Object? && m["paired"].members.Keys == {"owner_did"}
         && m["paired"].members["owner_did"].Text? then
        Some(Some(m["paired"].members["owner_did"].text))
      else None
    case _ => None
  }

  /** The discovery fields as a client reads them out of a body. */
  datatype Discovery = Discovery(
    deviceDid: Bytes, makerDid: Option<Bytes>, model: Bytes, nodeId: Option<Bytes>, owner: Option<Bytes>)

  function Discover(body: map<string, Value>): Option<Discovery> {
    if "pair" !in body then None
    else
      match (TextIn(body, "device_did"), TextOrNull(body, "maker_did"), TextIn(body, "model"), TextOrNull(body, "node_id"),
             PairedWith(body["pair"]))
      case (Some(device), Some(maker), Some(model), Some(node), Some(owner)) =>
        Some(Discovery(device, maker, model, node, owner))
      case _ => None
  }

  function DiscoveryOf(doc: Document): Discovery {
    Discovery(doc.deviceDid, doc.makerDid, doc.model, doc.nodeId,
              if doc.adoption.Some? then Some(doc.adoption.value.ownerDid) else None)
  }

  /** What a client discovers is what the document says, in the plain body and
      in the signed one alike, whatever `extra` holds. */
  lemma DiscoveryReadsBack(doc: Document, lib: Lib, sig: Bytes64)
    ensures Discover(Plain(doc)) == Some(DiscoveryOf(doc))
    ensures Discover(Body(doc, lib, sig)) == Some(DiscoveryOf(doc))
  {
    hide Body, Utf8, PairedWith, Pair;
    PairReads(doc);
    PlainFields(doc);
    BodyHoldsPlain(doc, lib, sig);
  }

  lemma PairReads(doc: Document)
    ensures PairedWith(Pair(doc)) == Some(DiscoveryOf(doc).owner)
  {
    hide Utf8;
    if doc.adoption.Some? {
      var members := map["owner_did" := Text(doc.adoption.value.ownerDid)];
      assert members.Keys == {"owner_did"};
      assert (map["paired" := Object(members)]).Keys == {"paired"};
    }
  }

  lemma PlainFields(doc: Document)
    ensures var plain := Plain(doc);
      && plain.Keys == {"pair", "maker_did", "model", "device_did", "node_id"}
      && plain["pair"] == Pair(doc) && plain["device_did"] == Text(doc.deviceDid) && plain["model"] == Text(doc.model)
      && plain["maker_did"] == OrNull(doc.makerDid) && plain["node_id"] == OrNull(doc.nodeId)
  {
    hide Pair, OrNull, Utf8;
  }

  lemma BodyHoldsPlain(doc: Document, lib: Lib, sig: Bytes64)
    ensures forall k :: k in Plain(doc) ==> k in Body(doc, lib, sig) && Body(doc, lib, sig)[k] == Plain(doc)[k]
  {
    hide Pair, OrNull, Utf8, Plain, OwnExtra;
    PlainFields(doc);
    assert AdoptionFields(doc, lib).Keys <= {"owner_did", "adoption_kind", "adoption"};
  }

  /** `extra` can neither replace nor introduce a contract field, and every
      other field of it is served as it is. */
  lemma ExtraCannotSpeakForTheContract(doc: Document, lib: Lib, sig: Bytes64, key: string)
    ensures var body, bare := Body(doc, lib, sig), Body(doc.(extra := map[]), lib, sig);
      if key in FIELDS then
        (key in body <==> key in bare) && (key in body ==> body[key] == bare[key])
      else
        (key in body <==> key in doc.extra) && (key in body ==> body[key] == doc.extra[key])
  {
    assert Plain(doc.(extra := map[])) == Plain(doc);
    assert AdoptionFields(doc.(extra := map[]), lib) == AdoptionFields(doc, lib);
  }
}
