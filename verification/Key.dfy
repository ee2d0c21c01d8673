/** The device key beside its two caches: the public key and remembered
    signatures, each bound to the secret by an HMAC. */
module Key {
  import opened Base
  import opened Store
  import Did

  const KV_KEY: Name := "mid.devkey"

  const KV_PUB: Name := "mid.devpub"

  const PUB_DOMAIN: Bytes := Ascii("rusty_esp_mid devpub v1")

  const SIG_DOMAIN: Bytes := Ascii("rusty_esp_mid sigcache v1")

  const GENERATE_ATTEMPTS: nat := 8

  /** The curve and hash libraries. Signing is a function: RFC 6979 makes the
      signature one of the key and the prehash. */
  datatype Curve = Curve(
    digest: Bytes -> Bytes32,
    isScalar: Bytes32 -> bool,
    public: Bytes32 -> Bytes65,
    isPoint: Bytes65 -> bool,
    compress: Bytes65 -> Bytes33,
    sign: (Bytes32, Bytes32) -> Bytes64)

  datatype DeviceKey = DeviceKey(secret: Bytes32, public: Bytes65, id: Bytes) {
    function DidText(c: Curve): Bytes {
      Did.Text(c.compress(public))
    }
  }

  /** A device id: 1 to 32 bytes of `[A-Za-z0-9_.-]`. */
  predicate ValidId(id: Bytes) {
    && 1 <= |id| <= 32
    && forall i :: 0 <= i < |id| ==>
         || 'a' as int <= id[i] <= 'z' as int || 'A' as int <= id[i] <= 'Z' as int
         || '0' as int <= id[i] <= '9' as int
         || id[i] == '_' as int || id[i] == '.' as int || id[i] == '-' as int
  }

  /** The characters of an id by their codes. */
  lemma IdMeaning(id: Bytes)
    ensures ValidId(id) <==>
      && 0 < |id| < 33
      && forall c :: c in id ==> 0x30 <= c < 0x3A || 0x41 <= c < 0x5B || 0x61 <= c < 0x7B || c in {0x2D, 0x2E, 0x5F}
  {
    if forall c :: c in id ==> 0x30 <= c < 0x3A || 0x41 <= c < 0x5B || 0x61 <= c < 0x7B || c in {0x2D, 0x2E, 0x5F} {
      assert forall i :: 0 <= i < |id| ==> id[i] in id;
    }
  }

  // ----- HMAC and comparison -----

  function Pow2(k: nat): nat {
    if k == 0 then 1 else 2 * Pow2(k - 1)
  }

  /** The low `k` bits of `a` xor `b`. */
  function XorBits(a: nat, b: nat, k: nat): (r: nat)
    ensures r < Pow2(k)
  {
    if k == 0 then 0 else 2 * XorBits(a / 2, b / 2, k - 1) + (if a % 2 == b % 2 then 0 else 1)
  }

  /** The low `k` bits of `a` or `b`. */
  function OrBits(a: nat, b: nat, k: nat): (r: nat)
    ensures r < Pow2(k)
  {
    if k == 0 then 0 else 2 * OrBits(a / 2, b / 2, k - 1) + (if a % 2 == 0 && b % 2 == 0 then 0 else 1)
  }

  function Xor(a: byte, b: byte): byte {
    Pow2To8();
    XorBits(a, b, 8)
  }

  function Or(a: byte, b: byte): byte {
    Pow2To8();
    OrBits(a, b, 8)
  }

  lemma Pow2To8()
    ensures Pow2(8) == 256
  {
  }

  lemma Halves(a: nat)
    ensures a == 2 * (a / 2) + a % 2 && 0 <= a % 2 < 2
  {
  }

  lemma {:induction false} XorBitsZero(a: nat, b: nat, k: nat)
    requires a < Pow2(k) && b < Pow2(k)
    ensures XorBits(a, b, k) == 0 <==> a == b
  {
    if k > 0 {
      Halves(a);
      Halves(b);
      XorBitsZero(a / 2, b / 2, k - 1);
    }
  }

  lemma {:induction false} OrBitsZero(a: nat, b: nat, k: nat)
    requires a < Pow2(k) && b < Pow2(k)
    ensures OrBits(a, b, k) == 0 <==> a == 0 && b == 0
  {
    if k > 0 {
      Halves(a);
      Halves(b);
      OrBitsZero(a / 2, b / 2, k - 1);
    }
  }

  /** Bit `i` of a number. */
  function Bit(a: nat, i: nat): nat {
    if i == 0 then a % 2 else Bit(a / 2, i - 1)
  }

  /** Xor bit by bit. */
  lemma {:induction false} XorIsBitwise(a: nat, b: nat, k: nat, i: nat)
    requires i < k
    ensures Bit(XorBits(a, b, k), i) == (Bit(a, i) + Bit(b, i)) % 2
  {
    var low := if a % 2 == b % 2 then 0 else 1;
    Doubled(XorBits(a / 2, b / 2, k - 1), low);
    if i > 0 {
      XorIsBitwise(a / 2, b / 2, k - 1, i - 1);
    }
  }

  lemma Doubled(half: nat, low: nat)
    requires low < 2
    ensures (2 * half + low) / 2 == half && (2 * half + low) % 2 == low
  {
  }

  /** Xor finds a difference. */
  lemma XorZero(a: byte, b: byte)
    ensures Xor(a, b) == 0 <==> a == b
  {
    hide XorBits;
    Pow2To8();
    XorBitsZero(a, b, 8);
  }

  /** Or remembers one. */
  lemma OrZero(a: byte, b: byte)
    ensures Or(a, b) == 0 <==> a == 0 && b == 0
  {
    hide OrBits;
    Pow2To8();
    OrBitsZero(a, b, 8);
  }

  /** The 64-byte block of a 32-byte key: the key over the fill, then fill. */
  function Block(key: Bytes32, fill: byte): (b: Bytes64) {
    seq(64, i requires 0 <= i < 64 => if i < 32 then Xor(fill, key[i]) else fill)
  }

  /** HMAC of a 32-byte key (section 2 of RFC 2104). */
  function Hmac(digest: Bytes -> Bytes32, key: Bytes32, message: Bytes): Bytes32 {
    digest(Block(key, 0x5c) + digest(Block(key, 0x36) + message))
  }

  function Flatten(parts: seq<Bytes>): Bytes {
    if parts == [] then [] else Flatten(parts[..|parts| - 1]) + parts[|parts| - 1]
  }

  method HmacSha256(digest: Bytes -> Bytes32, key: Bytes32, parts: seq<Bytes>) returns (h: Bytes32)
    ensures h == Hmac(digest, key, Flatten(parts))
  {
    hide Xor;
    var ipad := new byte[64](_ => 0x36);
    var opad := new byte[64](_ => 0x5c);
    for i := 0 to 32
      invariant forall k :: 0 <= k < 64 ==> ipad[k] == if k < i then Xor(0x36, key[k]) else 0x36
      invariant forall k :: 0 <= k < 64 ==> opad[k] == if k < i then Xor(0x5c, key[k]) else 0x5c
    {
      ipad[i] := Xor(ipad[i], key[i]);
      opad[i] := Xor(opad[i], key[i]);
    }
    assert ipad[..] == Block(key, 0x36) && opad[..] == Block(key, 0x5c);
    var fed := ipad[..];
    for i := 0 to |parts|
      invariant fed == ipad[..] + Flatten(parts[..i])
    {
      assert parts[..i + 1][..i] == parts[..i];
      fed := fed + parts[i];
    }
    assert parts[..|parts|] == parts;
    h := digest(opad[..] + digest(fed));
  }

  /** Equal, looking at every byte. */
  method CtEq32(a: Bytes32, b: Bytes) returns (equal: bool)
    ensures equal <==> a == b
  {
    hide Xor, Or;
    var diff: byte := if |b| != 32 then 1 else 0;
    var n := if |b| < 32 then |b| else 32;
    for i := 0 to n
      invariant diff == 0 <==> |b| == 32 && a[..i] == b[..i]
    {
      XorZero(a[i], b[i]);
      OrZero(diff, Xor(a[i], b[i]));
      assert a[..i + 1] == a[..i] + [a[i]] && b[..i + 1] == b[..i] + [b[i]];
      diff := Or(diff, Xor(a[i], b[i]));
    }
    assert |b| == 32 ==> a[..n] == a && b[..n] == b;
    equal := diff == 0;
  }

  // ----- the cache entries -----

  function PubTag(c: Curve, secret: Bytes32, point: Bytes): Bytes32 {
    Hmac(c.digest, secret, PUB_DOMAIN + point)
  }

  function SigTag(c: Curve, secret: Bytes32, head: Bytes): Bytes32 {
    Hmac(c.digest, secret, SIG_DOMAIN + head)
  }

  /** The 65-byte public key and its tag. */
  function PubEntry(c: Curve, secret: Bytes32): (e: Bytes)
    ensures |e| == 97
  {
    c.public(secret) + PubTag(c, secret, c.public(secret))
  }

  /** The prehash, its signature, and the tag of both. */
  function SigEntry(c: Curve, secret: Bytes32, prehash: Bytes32): (e: Bytes)
    ensures |e| == 128
  {
    var head := prehash + c.sign(secret, prehash);
    head + SigTag(c, secret, head)
  }

  /** An entry whose tag holds under `secret`. */
  predicate TaggedPub(c: Curve, secret: Bytes32, e: Bytes) {
    |e| == 97 && e[65..] == PubTag(c, secret, e[..65])
  }

  predicate TaggedSig(c: Curve, secret: Bytes32, e: Bytes) {
    |e| == 128 && e[96..] == SigTag(c, secret, e[..96])
  }

  // ----- loading -----

  /** `from_secret`: the id is checked before the scalar. */
  function FromSecret(c: Curve, secret: Bytes32, id: Bytes): Result<DeviceKey, Error> {
    if !ValidId(id) then Err(InvalidFormat)
    else if !c.isScalar(secret) then Err(Crypto)
    else Ok(DeviceKey(secret, c.public(secret), id))
  }

  /** `load`: the stored key with its public key derived. */
  function Loaded(c: Curve, s: Snapshot, id: Bytes): Result<Option<DeviceKey>, Error> {
    match Lookup(s, KV_KEY, 32)
    case Err(e) => Err(e)
    case Ok(None) => Ok(None)
    case Ok(Some(secret)) =>
      if |secret| != 32 then Err(Corrupt)
      else
        match FromSecret(c, secret, id)
        case Err(e) => Err(e)
        case Ok(key) => Ok(Some(key))
  }

  /** The public key the cache gives, if its tag holds and it is a point. */
  function CachedPub(c: Curve, s: Snapshot, secret: Bytes32): Option<Bytes65> {
    match Lookup(s, KV_PUB, 97)
    case Ok(Some(e)) => if TaggedPub(c, secret, e) && c.isPoint(e[..65]) then Some(e[..65]) else None
    case _ => None
  }

  /** `load_cached`: the stored key with the cached public key, if there is one. */
  function LoadedCached(c: Curve, s: Snapshot, id: Bytes): Result<Option<DeviceKey>, Error> {
    match Loaded(c, s, id)
    case Ok(Some(key)) =>
      (match CachedPub(c, s, key.secret)
       case Some(point) => Ok(Some(key.(public := point)))
       case None => Ok(Some(key)))
    case r => r
  }

  /** `load_cached` writes the cache when it found a key but no usable entry. */
  predicate RefreshesPub(c: Curve, s: Snapshot, id: Bytes) {
    var r := Loaded(c, s, id);
    r.Ok? && r.value.Some? && CachedPub(c, s, r.value.value.secret).None?
  }

  /** The signature the cache gives, if it is for this prehash and its tag holds. */
  function CachedSig(c: Curve, s: Snapshot, secret: Bytes32, name: Name, prehash: Bytes32): Option<Bytes64> {
    match Lookup(s, name, 128)
    case Ok(Some(e)) => if TaggedSig(c, secret, e) && e[..32] == prehash then Some(e[32..96]) else None
    case _ => None
  }

  function SignedCached(c: Curve, s: Snapshot, secret: Bytes32, name: Name, prehash: Bytes32): Bytes64 {
    match CachedSig(c, s, secret, name, prehash)
    case Some(sig) => sig
    case None => c.sign(secret, prehash)
  }

  /** What a load answers, said of the key's entry: absent, of the wrong
      length, no scalar, or the key it is. The id is looked at before the
      scalar, and neither where nothing is stored. */
  lemma LoadMeaning(c: Curve, s: Snapshot, id: Bytes, key: DeviceKey)
    requires KV_KEY !in s.faults
    ensures var r := Loaded(c, s, id);
      && (r == Ok(Some(key)) <==>
            && KV_KEY in s.entries && s.entries[KV_KEY] == key.secret && c.isScalar(key.secret)
            && key.public == c.public(key.secret) && ValidId(id) && key.id == id)
      && (r == Ok(None) <==> KV_KEY !in s.entries)
      && (KV_KEY in s.entries && |s.entries[KV_KEY]| > 32 ==> r == Err(BufferTooSmall(|s.entries[KV_KEY]|)))
      && (KV_KEY in s.entries && |s.entries[KV_KEY]| < 32 ==> r == Err(Corrupt))
      && (KV_KEY in s.entries && |s.entries[KV_KEY]| == 32 && !ValidId(id) ==> r == Err(InvalidFormat))
      && (KV_KEY in s.entries && |s.entries[KV_KEY]| == 32 && ValidId(id) && !c.isScalar(s.entries[KV_KEY]) ==>
            r == Err(Crypto))
  {
  }

  /** When the public-key cache is taken: 97 readable bytes, the last 32 the
      HMAC under the secret of the domain and the first 65, which are a point. */
  lemma CacheIsTaken(c: Curve, s: Snapshot, secret: Bytes32, point: Bytes65)
    ensures CachedPub(c, s, secret) == Some(point) <==>
      && KV_PUB !in s.faults && KV_PUB in s.entries && c.isPoint(point)
      && s.entries[KV_PUB] == point + Hmac(c.digest, secret, PUB_DOMAIN + point)
  {
    hide Hmac;
    if KV_PUB in s.entries && |s.entries[KV_PUB]| == 97 {
      var e := s.entries[KV_PUB];
      assert e == e[..65] + e[65..];
      assert (point + PubTag(c, secret, point))[..65] == point;
      assert (point + PubTag(c, secret, point))[65..] == PubTag(c, secret, point);
    }
  }

  /** When a remembered signature is: 128 readable bytes, the prehash, the
      signature, and the HMAC under the secret of the domain and both. */
  lemma SignatureIsRemembered(c: Curve, s: Snapshot, secret: Bytes32, name: Name, prehash: Bytes32, sig: Bytes64)
    ensures CachedSig(c, s, secret, name, prehash) == Some(sig) <==>
      && name !in s.faults && name in s.entries
      && s.entries[name] == prehash + sig + Hmac(c.digest, secret, SIG_DOMAIN + (prehash + sig))
  {
    hide Hmac;
    var head := prehash + sig;
    var want := head + SigTag(c, secret, head);
    assert want[..32] == prehash && want[32..96] == sig && want[..96] == head && want[96..] == SigTag(c, secret, head);
    if name in s.entries && |s.entries[name]| == 128 {
      var e := s.entries[name];
      assert e == e[..96] + e[96..] && e[..96] == e[..32] + e[32..96];
    }
  }

  method Load(c: Curve, kv: Kv, id: Bytes) returns (r: Result<Option<DeviceKey>, Error>)
    ensures r == Loaded(c, kv.Snap(), id)
  {
    var secret := new byte[32];
    var got :- kv.Get(KV_KEY, secret);
    if got.None? {
      return Ok(None);
    }
    if got.value != 32 {
      return Err(Corrupt);
    }
    assert secret[..32] == secret[..];
    var key :- FromSecret(c, secret[..], id);
    return Ok(Some(key));
  }

  method StorePub(c: Curve, kv: Kv, key: DeviceKey, secret: Bytes32)
    requires key.public == c.public(secret)
    modifies kv`entries
    ensures exists fate: Fate ::
      && kv.entries == Written(old(kv.entries), KV_PUB, PubEntry(c, secret), fate)
      && (kv.atomic ==> !fate.Torn?)
  {
    var tag := HmacSha256(c.digest, secret, [PUB_DOMAIN, key.public]);
    FlattenTwo(PUB_DOMAIN, key.public);
    var entry := new byte[97];
    CopyInto(entry, 0, key.public);
    CopyInto(entry, 65, tag);
    assert entry[..] == PubEntry(c, secret);
    ghost var was := kv.entries;
    var ignored := kv.Put(KV_PUB, entry[..]);
    if ignored.Ok? {
      assert kv.entries == Written(was, KV_PUB, PubEntry(c, secret), Done);
    }
  }

  lemma FlattenTwo(a: Bytes, b: Bytes)
    ensures Flatten([a, b]) == a + b
  {
    assert [a, b][..1] == [a];
    assert [a][..0] == [];
    assert Flatten([a]) == [] + a;
  }

  /** The store after a write of the public-key cache that may not happen. */
  ghost predicate MaybeRefreshed(c: Curve, before: Entries, after: Entries, secret: Bytes32, atomic: bool) {
    exists fate: Fate :: after == Written(before, KV_PUB, PubEntry(c, secret), fate) && (atomic ==> !fate.Torn?)
  }

  /** `load` without deriving the public key when the cache has it. Only the
      cache entry is ever written, with the right key under the right tag. */
  method LoadCached(c: Curve, kv: Kv, id: Bytes) returns (r: Result<Option<DeviceKey>, Error>)
    modifies kv`entries
    ensures r == LoadedCached(c, old(kv.Snap()), id)
    ensures !RefreshesPub(c, old(kv.Snap()), id) ==> kv.entries == old(kv.entries)
    ensures RefreshesPub(c, old(kv.Snap()), id) ==>
      MaybeRefreshed(c, old(kv.entries), kv.entries, r.value.value.secret, kv.atomic)
  {
    var secret := new byte[32];
    var got :- kv.Get(KV_KEY, secret);
    if got.None? {
      return Ok(None);
    }
    if got.value != 32 {
      return Err(Corrupt);
    }
    assert secret[..32] == secret[..];
    var key :- FromSecretCached(c, kv, secret[..], id);
    return Ok(Some(key));
  }

  method FromSecretCached(c: Curve, kv: Kv, secret: Bytes32, id: Bytes) returns (r: Result<DeviceKey, Error>)
    modifies kv`entries
    ensures FromSecret(c, secret, id).Err? ==> r == FromSecret(c, secret, id)
    ensures FromSecret(c, secret, id).Ok? ==>
      r == Ok(match CachedPub(c, old(kv.Snap()), secret)
              case Some(point) => DeviceKey(secret, point, id)
              case None => DeviceKey(secret, c.public(secret), id))
    ensures r.Ok? && CachedPub(c, old(kv.Snap()), secret).None? ==>
      MaybeRefreshed(c, old(kv.entries), kv.entries, secret, kv.atomic)
    ensures r.Err? || CachedPub(c, old(kv.Snap()), secret).Some? ==> kv.entries == old(kv.entries)
  {
    if !ValidId(id) {
      return Err(InvalidFormat);
    }
    if !c.isScalar(secret) {
      return Err(Crypto);
    }
    var entry := new byte[97];
    var got := kv.Get(KV_PUB, entry);
    if got == Ok(Some(97)) {
      assert entry[..97] == entry[..];
      var e := entry[..];
      var point, tag := e[..65], e[65..];
      var want := HmacSha256(c.digest, secret, [PUB_DOMAIN, point]);
      FlattenTwo(PUB_DOMAIN, point);
      var same := CtEq32(want, tag);
      if same && c.isPoint(point) {
        return Ok(DeviceKey(secret, point, id));
      }
    }
    assert CachedPub(c, old(kv.Snap()), secret) == None;
    var key := DeviceKey(secret, c.public(secret), id);
    StorePub(c, kv, key, secret);
    return Ok(key);
  }

  /** `sign_prehash`, remembered under `name`. */
  method SignPrehashCached(c: Curve, key: DeviceKey, kv: Kv, name: Name, prehash: Bytes32) returns (sig: Bytes64)
    modifies kv`entries
    ensures sig == SignedCached(c, old(kv.Snap()), key.secret, name, prehash)
    ensures CachedSig(c, old(kv.Snap()), key.secret, name, prehash).Some? ==> kv.entries == old(kv.entries)
    ensures CachedSig(c, old(kv.Snap()), key.secret, name, prehash).None? ==> exists fate: Fate ::
      && kv.entries == Written(old(kv.entries), name, SigEntry(c, key.secret, prehash), fate)
      && (kv.atomic ==> !fate.Torn?)
  {
    var secret := key.secret;
    var entry := new byte[128];
    var got := kv.Get(name, entry);
    if got == Ok(Some(128)) {
      assert entry[..128] == entry[..];
      var e := entry[..];
      var head, tag := e[..96], e[96..];
      assert head[..32] == e[..32];
      var samePrehash := CtEq32(prehash, head[..32]);
      var want := HmacSha256(c.digest, secret, [SIG_DOMAIN, head]);
      FlattenTwo(SIG_DOMAIN, head);
      var sameTag := CtEq32(want, tag);
      if samePrehash && sameTag {
        return head[32..96];
      }
    }
    sig := c.sign(secret, prehash);
    RememberSig(c, secret, kv, name, prehash, entry);
  }

  /** Write the entry of a fresh signature; best effort. */
  method RememberSig(c: Curve, secret: Bytes32, kv: Kv, name: Name, prehash: Bytes32, entry: array<byte>)
    requires entry.Length == 128
    modifies kv`entries, entry
    ensures exists fate: Fate ::
      && kv.entries == Written(old(kv.entries), name, SigEntry(c, secret, prehash), fate)
      && (kv.atomic ==> !fate.Torn?)
  {
    var sig := c.sign(secret, prehash);
    CopyInto(entry, 0, prehash);
    CopyInto(entry, 32, sig);
    assert entry[..96] == prehash + sig;
    var tag := HmacSha256(c.digest, secret, [SIG_DOMAIN, entry[..96]]);
    FlattenTwo(SIG_DOMAIN, entry[..96]);
    CopyInto(entry, 96, tag);
    assert entry[..] == SigEntry(c, secret, prehash);
    ghost var was := kv.entries;
    var ignored := kv.Put(name, entry[..]);
    if ignored.Ok? {
      assert kv.entries == Written(was, name, SigEntry(c, secret, prehash), Done);
    }
  }

  // ----- generating -----

  /** The first valid scalar among `tries` draws from draw `at` on. */
  function Generated(c: Curve, e: Entropy, at: nat, tries: nat): Result<Bytes32, Error>
    decreases tries
  {
    if tries == 0 then Err(Crypto)
    else
      match e.Draw(at, 32)
      case Err(error) => Err(error)
      case Ok(secret) => if c.isScalar(secret) then Ok(secret) else Generated(c, e, at + 1, tries - 1)
  }

  lemma OneTry(c: Curve, e: Entropy, at: nat, tries: nat)
    requires tries > 0
    ensures Generated(c, e, at, tries)
         == match e.Draw(at, 32)
            case Err(error) => Err(error)
            case Ok(secret) => if c.isScalar(secret) then Ok(secret) else Generated(c, e, at + 1, tries - 1)
  {
  }

  lemma NoTries(c: Curve, e: Entropy, at: nat)
    ensures Generated(c, e, at, 0) == Err(Crypto)
  {
  }

  /** Whether draw `k` is a good secret. */
  predicate GoodDraw(c: Curve, e: Entropy, k: nat) {
    e.Draw(k, 32).Ok? && c.isScalar(e.Draw(k, 32).value)
  }

  /** What generating answers: the first draw that is a scalar, when none
      before it failed; the error of the first that fails, when none before it
      is a scalar; and `Crypto` when none is either. */
  lemma {:induction false} GeneratedMeaning(c: Curve, e: Entropy, at: nat, tries: nat, k: nat)
    requires at <= k <= at + tries
    requires forall j :: at <= j < k ==> e.Draw(j, 32).Ok? && !GoodDraw(c, e, j)
    ensures k < at + tries && GoodDraw(c, e, k) ==> Generated(c, e, at, tries) == Ok(e.Draw(k, 32).value)
    ensures k < at + tries && e.Draw(k, 32).Err? ==> Generated(c, e, at, tries) == Err(e.Draw(k, 32).error)
    ensures k == at + tries ==> Generated(c, e, at, tries) == Err(Crypto)
    decreases tries
  {
    hide Entropy.Draw;
    if at < k {
      assert !GoodDraw(c, e, at);
      GeneratedMeaning(c, e, at + 1, tries - 1, k);
    }
  }

  method Generate(c: Curve, rng: Rng, id: Bytes) returns (r: Result<DeviceKey, Error>)
    modifies rng`drawn
    ensures !ValidId(id) ==> r == Err(InvalidFormat) && rng.drawn == old(rng.drawn)
    ensures ValidId(id) ==>
      r == match Generated(c, rng.entropy, old(rng.drawn), GENERATE_ATTEMPTS)
           case Ok(secret) => Ok(DeviceKey(secret, c.public(secret), id))
           case Err(e) => Err(e)
    ensures rng.drawn <= old(rng.drawn) + 8
    ensures ValidId(id) && r.Err? && (forall k :: old(rng.drawn) <= k < rng.drawn ==> rng.entropy.Draw(k, 32).Ok?) ==>
      rng.drawn == old(rng.drawn) + 8
  {
    hide Generated, ValidId;
    if !ValidId(id) {
      return Err(InvalidFormat);
    }
    var secret := new byte[32];
    for i := 0 to GENERATE_ATTEMPTS
      invariant rng.drawn == old(rng.drawn) + i
      invariant Generated(c, rng.entropy, old(rng.drawn), GENERATE_ATTEMPTS)
             == Generated(c, rng.entropy, rng.drawn, GENERATE_ATTEMPTS - i)
    {
      OneTry(c, rng.entropy, rng.drawn, GENERATE_ATTEMPTS - i);
      var _ :- rng.Fill(secret);
      if c.isScalar(secret[..]) {
        return Ok(DeviceKey(secret[..], c.public(secret[..]), id));
      }
    }
    NoTries(c, rng.entropy, rng.drawn);
    return Err(Crypto);
  }

  /** The key a boot ends with: the stored one, or a generated one. */
  function BootKey(c: Curve, s: Snapshot, id: Bytes, e: Entropy, at: nat): Result<DeviceKey, Error> {
    match Loaded(c, s, id)
    case Err(error) => Err(error)
    case Ok(Some(key)) => Ok(key)
    case Ok(None) =>
      if !ValidId(id) then Err(InvalidFormat)
      else
        match Generated(c, e, at, GENERATE_ATTEMPTS)
        case Ok(secret) => Ok(DeviceKey(secret, c.public(secret), id))
        case Err(error) => Err(error)
  }

  /** Load the key, or generate and store one. An error after generating is
      the store's. */
  method LoadOrGenerate(c: Curve, kv: Kv, rng: Rng, id: Bytes) returns (r: Result<DeviceKey, Error>)
    modifies kv`entries, rng`drawn
    ensures r.Ok? ==> r == BootKey(c, old(kv.Snap()), id, rng.entropy, old(rng.drawn))
    ensures BootKey(c, old(kv.Snap()), id, rng.entropy, old(rng.drawn)).Err? ==>
      r == BootKey(c, old(kv.Snap()), id, rng.entropy, old(rng.drawn)) && kv.entries == old(kv.entries)
    ensures forall key :: Loaded(c, old(kv.Snap()), id) == Ok(Some(key)) ==> r == Ok(key)
    ensures Loaded(c, old(kv.Snap()), id) != Ok(None) || !ValidId(id) ==> kv.entries == old(kv.entries)
    ensures r.Ok? && Loaded(c, old(kv.Snap()), id) == Ok(None) ==>
      kv.entries == old(kv.entries)[KV_KEY := r.value.secret]
    ensures forall n :: n != KV_KEY ==>
      (n in kv.entries <==> n in old(kv.entries)) && (n in kv.entries ==> kv.entries[n] == old(kv.entries[n]))
  {
    var loaded :- Load(c, kv, id);
    if loaded.Some? {
      return Ok(loaded.value);
    }
    var key :- Generate(c, rng, id);
    var _ :- kv.Put(KV_KEY, key.secret);
    return Ok(key);
  }

  /** `load_or_generate` through the public-key cache. */
  method LoadOrGenerateCached(c: Curve, kv: Kv, rng: Rng, id: Bytes) returns (r: Result<DeviceKey, Error>)
    modifies kv`entries, rng`drawn
    ensures LoadedCached(c, old(kv.Snap()), id).Err? ==> r.Err? && r.error == LoadedCached(c, old(kv.Snap()), id).error
    ensures forall key :: LoadedCached(c, old(kv.Snap()), id) == Ok(Some(key)) ==> r == Ok(key)
    ensures r.Ok? && LoadedCached(c, old(kv.Snap()), id) == Ok(None) ==>
      r == BootKey(c, old(kv.Snap()), id, rng.entropy, old(rng.drawn))
    ensures LoadedCached(c, old(kv.Snap()), id) == Ok(None)
            && BootKey(c, old(kv.Snap()), id, rng.entropy, old(rng.drawn)).Err? ==>
      r == BootKey(c, old(kv.Snap()), id, rng.entropy, old(rng.drawn)) && kv.entries == old(kv.entries)
    ensures r.Ok? && LoadedCached(c, old(kv.Snap()), id) == Ok(None) ==>
      MaybeRefreshed(c, old(kv.entries)[KV_KEY := r.value.secret], kv.entries, r.value.secret, kv.atomic)
    ensures forall n :: n != KV_KEY && n != KV_PUB ==>
      (n in kv.entries <==> n in old(kv.entries)) && (n in kv.entries ==> kv.entries[n] == old(kv.entries[n]))
    ensures LoadedCached(c, old(kv.Snap()), id) != Ok(None) ==>
      (KV_KEY in kv.entries <==> KV_KEY in old(kv.entries))
      && (KV_KEY in kv.entries ==> kv.entries[KV_KEY] == old(kv.entries[KV_KEY]))
  {
    var loaded :- LoadCached(c, kv, id);
    if loaded.Some? {
      return Ok(loaded.value);
    }
    var key :- Generate(c, rng, id);
    var _ :- kv.Put(KV_KEY, key.secret);
    StorePub(c, kv, key, key.secret);
    return Ok(key);
  }
}
