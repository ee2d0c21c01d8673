/** Secrets at rest: a store that seals what it stores, reading values left in
    the clear as they are, and able to seal them where they lie. */
module Seal {
  import opened Base
  import opened Store

  const MAGIC: Bytes := [0, 'J' as int, 'S' as int, 1]

  const NONCE_LEN: nat := 12

  const TAG_LEN: nat := 16

  const OVERHEAD: nat := 32

  const MAX_VALUE: nat := 256

  const MAX_RAW: nat := MAX_VALUE + OVERHEAD

  /** AES-256-GCM under one key: ciphertext and tag from nonce, associated
      name and plaintext, and the plaintext back. */
  datatype Cipher = Cipher(
    encrypt: (Bytes, Name, Bytes) -> (Bytes, Bytes),
    decrypt: (Bytes, Name, Bytes, Bytes) -> Option<Bytes>)

  /** What an AEAD gives: lengths kept, and decryption undoing encryption. */
  ghost predicate Correct(c: Cipher) {
    && (forall nonce, name, p :: var (body, tag) := c.encrypt(nonce, name, p);
          |body| == |p| && |tag| == TAG_LEN && c.decrypt(nonce, name, body, tag) == Some(p))
    && (forall nonce, name, body, tag :: var p := c.decrypt(nonce, name, body, tag);
          p.Some? ==> |p.value| == |body|)
  }

  // ----- what a stored value means -----

  function SealedBytes(c: Cipher, nonce: Bytes, name: Name, plain: Bytes): Bytes {
    var (body, tag) := c.encrypt(nonce, name, plain);
    MAGIC + nonce + body + tag
  }

  /** A value read as sealed: it bears the mark and is not too long to be. */
  predicate Marked(raw: Bytes) {
    |raw| <= MAX_RAW && MAGIC <= raw
  }

  /** The plaintext of a stored value, or why it does not open. */
  function Opened(c: Option<Cipher>, name: Name, raw: Bytes): Result<Bytes, Error> {
    if !Marked(raw) then Ok(raw)
    else if c.None? then Err(Crypto)
    else if |raw| < OVERHEAD then Err(Corrupt)
    else
      match c.value.decrypt(raw[4..16], name, raw[16..|raw| - TAG_LEN], raw[|raw| - TAG_LEN..])
      case Some(p) => Ok(p)
      case None => Err(Crypto)
  }

  /** What `get` answers. */
  function Got(c: Option<Cipher>, s: Snapshot, name: Name, room: nat): Result<Option<Bytes>, Error> {
    match Lookup(s, name, MAX_RAW)
    case Ok(None) => Ok(None)
    case Err(BufferTooSmall(_)) => Lookup(s, name, room)
    case Err(e) => Err(e)
    case Ok(Some(raw)) =>
      match Opened(c, name, raw)
      case Err(e) => Err(e)
      case Ok(v) => if |v| > room then Err(BufferTooSmall(|v|)) else Ok(Some(v))
  }

  /** What each stored value stands for: its plaintext, or why it does not
      open. */
  type Meanings = map<Name, Result<Bytes, Error>>

  function Meaning(c: Option<Cipher>, e: Entries): Meanings {
    map n | n in e :: Opened(c, n, e[n])
  }

  /** A read of a store that holds plaintexts and errors. */
  function Read(m: Meanings, faults: map<Name, Error>, name: Name, room: nat): Result<Option<Bytes>, Error> {
    if name in faults then Err(faults[name])
    else if name !in m then Ok(None)
    else
      var v :- m[name];
      if |v| > room then Err(BufferTooSmall(|v|)) else Ok(Some(v))
  }

  /** Every value is in the clear without the mark, or sealed so that it opens
      under its own name. */
  predicate WellStored(c: Option<Cipher>, e: Entries) {
    forall n :: n in e ==> Opened(c, n, e[n]).Ok?
  }

  /** The map such a store stands for. */
  function View(c: Option<Cipher>, e: Entries): Entries
    requires WellStored(c, e)
  {
    map n | n in e :: Opened(c, n, e[n]).value
  }

  /** A read depends on nothing but what the values stand for, so two stores
      that mean the same cannot be told apart. */
  lemma GetReadsMeaning(c: Option<Cipher>, s: Snapshot, name: Name, room: nat)
    ensures Got(c, s, name, room) == Read(Meaning(c, s.entries), s.faults, name, room)
  {
  }

  /** Where every value opens the meaning is a plain map, and reading the
      sealed store is reading the map: the value, its absence, the exact length
      a short buffer needs, and the store's own errors. */
  lemma GetSimulatesMap(c: Option<Cipher>, s: Snapshot, name: Name, room: nat)
    requires WellStored(c, s.entries)
    ensures Got(c, s, name, room) == Lookup(Snapshot(View(c, s.entries), s.faults), name, room)
  {
  }

  /** Stores that mean the same answer every read alike; and when the values
      of one all open, they stand for the same map. */
  lemma SameMeaning(c: Option<Cipher>, a: Entries, b: Entries)
    requires Meaning(c, a) == Meaning(c, b)
    ensures forall faults, name, room ::
      Got(c, Snapshot(a, faults), name, room) == Got(c, Snapshot(b, faults), name, room)
    ensures WellStored(c, a) <==> WellStored(c, b)
    ensures WellStored(c, a) ==> View(c, a) == View(c, b)
  {
    hide Opened, Got;
    forall faults, name, room
      ensures Got(c, Snapshot(a, faults), name, room) == Got(c, Snapshot(b, faults), name, room)
    {
      GetReadsMeaning(c, Snapshot(a, faults), name, room);
      GetReadsMeaning(c, Snapshot(b, faults), name, room);
    }
    forall n | n in a || n in b
      ensures n in a && n in b && Opened(c, n, a[n]) == Opened(c, n, b[n])
    {
      assert n in Meaning(c, a) && n in Meaning(c, b);
      assert Meaning(c, a)[n] == Meaning(c, b)[n];
    }
  }

  lemma SealedOpens(c: Cipher, nonce: Bytes, name: Name, plain: Bytes)
    requires Correct(c) && |nonce| == NONCE_LEN && |plain| <= MAX_VALUE
    ensures var raw := SealedBytes(c, nonce, name, plain);
      Marked(raw) && |raw| == |plain| + OVERHEAD && Opened(Some(c), name, raw) == Ok(plain)
  {
    var (body, tag) := c.encrypt(nonce, name, plain);
    assert |body| == |plain| && |tag| == TAG_LEN;
    var raw := SealedBytes(c, nonce, name, plain);
    assert raw[4..16] == nonce;
    assert raw[16..|raw| - TAG_LEN] == body;
    assert raw[|raw| - TAG_LEN..] == tag;
    assert raw[..4] == MAGIC;
  }

  /** Storing a sealed value is storing its plaintext, whatever becomes of the
      write and whatever else the store holds. */
  lemma PutSimulatesMap(c: Cipher, e: Entries, name: Name, nonce: Bytes, value: Bytes, fate: Fate)
    requires Correct(c) && |nonce| == NONCE_LEN && |value| <= MAX_VALUE
    ensures var after := Written(e, name, SealedBytes(c, nonce, name, value), fate);
      && Meaning(Some(c), after) == Written(Meaning(Some(c), e), name, Ok(value), fate)
      && (WellStored(Some(c), e) ==>
            WellStored(Some(c), after) && View(Some(c), after) == Written(View(Some(c), e), name, value, fate))
  {
    hide SealedBytes, Correct, Opened;
    SealedOpens(c, nonce, name, value);
  }

  lemma RemoveSimulatesMap(c: Option<Cipher>, e: Entries, name: Name)
    ensures Meaning(c, e - {name}) == Meaning(c, e) - {name}
    ensures WellStored(c, e) ==> WellStored(c, e - {name}) && View(c, e - {name}) == View(c, e) - {name}
  {
    hide Opened;
  }

  /** Which error answers a value that does not open: `Crypto` without a key, or
      when it does not decrypt under its own name; `Corrupt` when there is a key
      and it is too short to have been sealed. */
  lemma OpenedMeaning(c: Option<Cipher>, name: Name, raw: Bytes)
    ensures var sealed := raw[..if |raw| < 4 then |raw| else 4] == MAGIC && |raw| <= 256 + 32;
      var r := Opened(c, name, raw);
      && (!sealed ==> r == Ok(raw))
      && (r == Err(Corrupt) <==> sealed && c.Some? && |raw| < 32)
      && (r == Err(Crypto) <==>
            sealed && (c.None? || (|raw| >= 32 && c.value.decrypt(raw[4..16], name, raw[16..|raw| - 16], raw[|raw| - 16..]) == None)))
      && (r.Err? ==> r.error == Crypto || r.error == Corrupt)
  {
  }

  /** A value lying in the clear, left from before sealing or put through
      without a key, reads back exactly when it does not bear the mark within
      the length of a sealed value. With a key or without, the store takes such
      a value for a sealed one: it refuses, or opens it to something shorter. A
      marked value too long to be sealed still reads. */
  lemma ClearReadsBack(c: Option<Cipher>, e: Entries, faults: map<Name, Error>, name: Name, value: Bytes, room: nat)
    requires c.Some? ==> Correct(c.value)
    requires name !in faults && |value| <= room
    ensures Got(c, Snapshot(e[name := value], faults), name, room) == Ok(Some(value))
      <==> !(MAGIC <= value && |value| <= MAX_RAW)
  {
    if c.Some? && Marked(value) && |value| >= OVERHEAD {
      var body := value[16..|value| - TAG_LEN];
      var plain := c.value.decrypt(value[4..16], name, body, value[|value| - TAG_LEN..]);
      assert plain.Some? ==> |plain.value| == |body|;
    }
  }

  // ----- the store -----

  class SealedKv {
    const inner: Kv
    const rng: Rng
    const cipher: Option<Cipher>

    ghost predicate Valid() {
      cipher.Some? ==> Correct(cipher.value)
    }

    constructor (inner: Kv, rng: Rng, cipher: Option<Cipher>)
      requires cipher.Some? ==> Correct(cipher.value)
      ensures Valid() && this.inner == inner && this.rng == rng && this.cipher == cipher
    {
      this.inner, this.rng, this.cipher := inner, rng, cipher;
    }

    /** Whether a stored value bears the mark; `None` when it is absent. */
    method IsSealed(name: Name) returns (r: Result<Option<bool>, Error>)
      ensures r == match Lookup(inner.Snap(), name, MAX_RAW)
                   case Ok(Some(raw)) => Ok(Some(Marked(raw)))
                   case Ok(None) => Ok(None)
                   case Err(BufferTooSmall(_)) => Ok(Some(false))
                   case Err(e) => Err(e)
    {
      var raw := new byte[MAX_RAW];
      var got := inner.Get(name, raw);
      match got
      case Ok(Some(n)) =>
        var v := raw[..n];
        return Ok(Some(MAGIC <= v));
      case Ok(None) =>
        return Ok(None);
      case Err(BufferTooSmall(_)) =>
        return Ok(Some(false));
      case Err(e) =>
        return Err(e);
    }

    /** Read `name` into the front of `out`. */
    method Get(name: Name, out: array<byte>) returns (r: Result<Option<nat>, Error>)
      requires Valid()
      modifies out
      ensures match Got(cipher, inner.Snap(), name, out.Length)
              case Err(e) => r == Err(e)
              case Ok(None) => r == Ok(None)
              case Ok(Some(v)) => r == Ok(Some(|v|)) && |v| <= out.Length && out[..|v|] == v
    {
      var raw := new byte[MAX_RAW];
      var got := inner.Get(name, raw);
      match got {
        case Ok(None) =>
          return Ok(None);
        case Err(BufferTooSmall(_)) =>
          r := inner.Get(name, out);
          return;
        case Err(e) =>
          return Err(e);
        case Ok(Some(n)) =>
          var v := raw[..n];
          if !(MAGIC <= v) {
            if out.Length < n {
              return Err(BufferTooSmall(n));
            }
            CopyInto(out, 0, v);
            assert out[..n] == v;
            return Ok(Some(n));
          }
          if cipher.None? {
            return Err(Crypto);
          }
          if n < OVERHEAD {
            return Err(Corrupt);
          }
          var plain := cipher.value.decrypt(v[4..16], name, v[16..n - TAG_LEN], v[n - TAG_LEN..]);
          if plain.None? {
            return Err(Crypto);
          }
          var len := |plain.value|;
          if out.Length < len {
            return Err(BufferTooSmall(len));
          }
          CopyInto(out, 0, plain.value);
          assert out[..len] == plain.value;
          return Ok(Some(len));
      }
    }

    /** Seal `value` under `name` with a fresh nonce. A value too long is
        refused with nothing drawn or written. */
    method Put(name: Name, value: Bytes) returns (r: Result<(), Error>)
      requires Valid()
      modifies inner`entries, rng`drawn
      ensures cipher.Some? && |value| > MAX_VALUE ==>
        r == Err(Unsupported) && inner.entries == old(inner.entries) && rng.drawn == old(rng.drawn)
      ensures cipher.Some? && |value| <= MAX_VALUE && rng.entropy.Draw(old(rng.drawn), NONCE_LEN).Err? ==>
        r == Err(rng.entropy.Draw(old(rng.drawn), NONCE_LEN).error) && inner.entries == old(inner.entries)
      ensures cipher.Some? && |value| <= MAX_VALUE && rng.entropy.Draw(old(rng.drawn), NONCE_LEN).Ok? ==>
        var raw := SealedBytes(cipher.value, rng.entropy.Draw(old(rng.drawn), NONCE_LEN).value, name, value);
        exists fate: Fate ::
          && inner.entries == Written(old(inner.entries), name, raw, fate)
          && Meaning(cipher, inner.entries) == Written(Meaning(cipher, old(inner.entries)), name, Ok(value), fate)
          && (r.Ok? ==> fate.Done?) && (inner.atomic ==> !fate.Torn?)
      ensures cipher.None? ==>
        && rng.drawn == old(rng.drawn)
        && (r.Ok? ==> inner.entries == old(inner.entries)[name := value])
        && (r.Err? ==> exists fate: Fate ::
              inner.entries == Written(old(inner.entries), name, value, fate) && (inner.atomic ==> !fate.Torn?))
    {
      hide Meaning, Opened, Correct;
      ghost var was := inner.entries;
      if cipher.None? {
        r := inner.Put(name, value);
        return;
      }
      if |value| > MAX_VALUE {
        return Err(Unsupported);
      }
      var nonce := new byte[NONCE_LEN];
      var filled := rng.Fill(nonce);
      if filled.Err? {
        return Err(filled.error);
      }
      var raw := BuildRaw(name, value, nonce[..]);
      r := inner.Put(name, raw);
      ghost var fate := Done;
      if r.Err? {
        fate :| inner.entries == Written(was, name, raw, fate) && (inner.atomic ==> !fate.Torn?);
      }
      PutSimulatesMap(cipher.value, was, name, nonce[..], value, fate);
    }

    /** Lay out mark, nonce, ciphertext and tag in a fixed buffer, encrypting
        in place. */
    method BuildRaw(name: Name, value: Bytes, nonce: Bytes) returns (raw: Bytes)
      requires Valid() && cipher.Some? && |nonce| == NONCE_LEN && |value| <= MAX_VALUE
      ensures raw == SealedBytes(cipher.value, nonce, name, value)
    {
      var buf := new byte[MAX_RAW];
      CopyInto(buf, 0, MAGIC);
      CopyInto(buf, 4, nonce);
      var start := 4 + NONCE_LEN;
      var end := start + |value|;
      assert buf[..start] == MAGIC + nonce;
      CopyInto(buf, start, value);
      assert buf[start..end] == value && buf[..start] == MAGIC + nonce;
      var (body, tag) := cipher.value.encrypt(nonce, name, buf[start..end]);
      assert |body| == |value| && |tag| == TAG_LEN;
      CopyInto(buf, start, body);
      assert buf[..end] == MAGIC + nonce + body;
      CopyInto(buf, end, tag);
      raw := buf[..end + TAG_LEN];
      assert raw == (MAGIC + nonce + body) + tag;
    }

    method Remove(name: Name) returns (r: Result<bool, Error>)
      modifies inner`entries
      ensures r.Ok? ==> inner.entries == old(inner.entries) - {name} && r.value == (name in old(inner.entries))
      ensures r.Ok? ==> Meaning(cipher, inner.entries) == Meaning(cipher, old(inner.entries)) - {name}
      ensures r.Err? ==>
        || inner.entries == old(inner.entries)
        || (inner.entries == old(inner.entries) - {name}
            && Meaning(cipher, inner.entries) == Meaning(cipher, old(inner.entries)) - {name})
    {
      RemoveSimulatesMap(cipher, inner.entries, name);
      r := inner.Remove(name);
    }

    /** Seal `name` where it lies, if it is present and in the clear. */
    method SealOne(name: Name) returns (r: Result<bool, Error>)
      requires Valid() && cipher.Some?
      modifies inner`entries, rng`drawn
      ensures || Meaning(cipher, inner.entries) == Meaning(cipher, old(inner.entries))
              || (!inner.atomic && r.Err? && Meaning(cipher, inner.entries) == Meaning(cipher, old(inner.entries)) - {name})
      ensures r == Ok(false) ==>
        inner.entries == old(inner.entries) && (name !in inner.entries || Marked(inner.entries[name]))
      ensures r == Ok(true) ==>
        && name in old(inner.entries) && !Marked(old(inner.entries[name])) && |old(inner.entries[name])| <= MAX_VALUE
        && name in inner.entries && Marked(inner.entries[name])
        && inner.entries == old(inner.entries)[name := inner.entries[name]]
      ensures (name !in old(inner.entries) || Marked(old(inner.entries[name]))) && name !in inner.faults ==> r == Ok(false)
    {
      hide Meaning, Opened, Correct, SealedBytes;
      ghost var before, at := inner.entries, rng.drawn;
      var isSealed :- IsSealed(name);
      if isSealed != Some(false) {
        return Ok(false);
      }
      var plain := new byte[MAX_VALUE];
      var got :- inner.Get(name, plain);
      if got.None? {
        return Ok(false);
      }
      var n := got.value;
      assert before[name] == plain[..n];
      ClearValue(cipher, before, name);
      var put := Put(name, plain[..n]);
      if put.Err? {
        return Err(put.error);
      }
      SealedOpens(cipher.value, rng.entropy.Draw(at, NONCE_LEN).value, name, plain[..n]);
      return Ok(true);
    }

    /** Seal, where it lies, each listed value still in the clear. Whatever the
        store holds, it means the same before and after, even when this stops
        part way: values that do not open are passed over, and only a store
        whose puts tear can lose the value being sealed. On success every
        listed value is sealed and the count is how many were not. */
    method SealInPlace(keys: seq<Name>) returns (r: Result<nat, Error>)
      requires Valid()
      modifies inner`entries, rng`drawn
      ensures cipher.None? ==> r == Ok(0) && inner.entries == old(inner.entries)
      ensures || Meaning(cipher, inner.entries) == Meaning(cipher, old(inner.entries))
              || (!inner.atomic && r.Err?
                  && exists k :: k in keys && Meaning(cipher, inner.entries) == Meaning(cipher, old(inner.entries)) - {k})
      ensures cipher.Some? && r.Ok? ==>
        && Migrated(old(inner.entries), inner.entries, keys)
        && r.value == |InClear(old(inner.entries), keys)|
      ensures cipher.Some? && InClear(old(inner.entries), keys) == {}
              && (forall k :: k in keys ==> k !in inner.faults) ==>
        r == Ok(0) && inner.entries == old(inner.entries)
    {
      hide Meaning, Opened, Correct, SealedBytes;
      if cipher.None? {
        return Ok(0);
      }
      ghost var was := inner.entries;
      var sealed := 0;
      for i := 0 to |keys|
        invariant Meaning(cipher, inner.entries) == Meaning(cipher, was)
        invariant Migrated(was, inner.entries, keys[..i]) && sealed == |InClear(was, keys[..i])|
        invariant InClear(was, keys) == {} ==> inner.entries == was
      {
        ghost var before := inner.entries;
        KeyLeftAlone(was, before, keys, i);
        var one :- SealOne(keys[i]);
        if one {
          KeySealed(was, before, inner.entries, keys, i);
          sealed := sealed + 1;
        }
      }
      assert keys[..|keys|] == keys;
      return Ok(sealed);
    }
  }

  /** The listed names whose value is present and in the clear. */
  function InClear(e: Entries, keys: seq<Name>): set<Name> {
    set k | k in keys && k in e && !Marked(e[k])
  }

  /** Every listed clear value, and nothing else, was replaced by a sealed one;
      none of them was too long to seal. */
  ghost predicate Migrated(was: Entries, now: Entries, keys: seq<Name>) {
    && was.Keys == now.Keys
    && (forall n :: n in was && n !in InClear(was, keys) ==> now[n] == was[n])
    && (forall n :: n in InClear(was, keys) ==> n in now && Marked(now[n]) && |was[n]| <= MAX_VALUE)
  }

  lemma ClearValue(c: Option<Cipher>, e: Entries, name: Name)
    requires name in e && !Marked(e[name])
    ensures Meaning(c, e)[name := Ok(e[name])] == Meaning(c, e)
  {
  }

  lemma InClearGrows(e: Entries, keys: seq<Name>, i: nat)
    requires i < |keys|
    ensures InClear(e, keys[..i + 1])
         == InClear(e, keys[..i]) + if keys[i] in e && !Marked(e[keys[i]]) then {keys[i]} else {}
  {
    assert keys[..i + 1] == keys[..i] + [keys[i]];
  }

  /** A listed key that is absent or already sealed needs nothing. */
  lemma KeyLeftAlone(was: Entries, now: Entries, keys: seq<Name>, i: nat)
    requires i < |keys| && Migrated(was, now, keys[..i])
    ensures keys[i] !in now || Marked(now[keys[i]]) ==>
      InClear(was, keys[..i + 1]) == InClear(was, keys[..i]) && Migrated(was, now, keys[..i + 1])
  {
    InClearGrows(was, keys, i);
    if keys[i] !in InClear(was, keys[..i]) && keys[i] in was {
      assert now[keys[i]] == was[keys[i]];
    }
  }

  /** Sealing a listed clear key advances the migration by one. */
  lemma KeySealed(was: Entries, before: Entries, after: Entries, keys: seq<Name>, i: nat)
    requires i < |keys| && Migrated(was, before, keys[..i])
    requires keys[i] in before && !Marked(before[keys[i]]) && |before[keys[i]]| <= MAX_VALUE
    requires keys[i] in after && Marked(after[keys[i]]) && after == before[keys[i] := after[keys[i]]]
    ensures Migrated(was, after, keys[..i + 1])
    ensures |InClear(was, keys[..i + 1])| == |InClear(was, keys[..i])| + 1
    ensures InClear(was, keys) != {}
  {
    InClearGrows(was, keys, i);
    var key := keys[i];
    assert key !in InClear(was, keys[..i]);
    assert before[key] == was[key];
    assert key in InClear(was, keys);
  }
}
