/** The owner pin, and the device's acceptance of an adoption envelope. */
module Owner {
  import opened Base
  import opened Wire
  import opened Adoption
  import AdoptionCodec
  import Cap

  datatype OwnerPin = OwnerPin(key: Bytes33, roster: u32) {
    function Encoded(): (b: Bytes)
      ensures |b| == PIN_LEN
    {
      key + Be(roster, 4)
    }
  }

  const PIN_LEN: nat := 37

  function DecodePin(bytes: Bytes): Result<OwnerPin, Error> {
    if |bytes| != PIN_LEN then Err(Corrupt)
    else
      Widths();
      FromBeBound(bytes[33..]);
      Ok(OwnerPin(bytes[..33], FromBe(bytes[33..])))
  }

  /** A pin reads back as itself, and only its own encoding reads as it. */
  lemma PinRoundTrip(bytes: Bytes, pin: OwnerPin)
    ensures DecodePin(bytes) == Ok(pin) <==> bytes == pin.Encoded()
  {
    Widths();
    if |bytes| == PIN_LEN {
      assert bytes == bytes[..33] + bytes[33..];
      BeInverse(pin.roster, bytes[33..]);
    }
  }

  /** Write the pin into `out`, which may be too short for it. */
  method EncodePin(pin: OwnerPin, out: array<byte>) returns (r: Result<nat, Error>)
    modifies out
    ensures out.Length < PIN_LEN ==> r == Err(BufferTooSmall(PIN_LEN)) && out[..] == old(out[..])
    ensures out.Length >= PIN_LEN ==> r == Ok(PIN_LEN) && out[..] == pin.Encoded() + old(out[PIN_LEN..])
  {
    if out.Length < PIN_LEN {
      return Err(BufferTooSmall(PIN_LEN));
    }
    CopyInto(out, 0, pin.key);
    CopyInto(out, 33, Be(pin.roster, 4));
    return Ok(PIN_LEN);
  }

  /** The hash and the signature check, as the libraries give them. */
  datatype Crypto = Crypto(digest: Bytes -> Bytes32, verify: (Bytes33, Bytes32, Bytes64) -> bool)

  /** The pin to store, or why not: another device's adoption, a signature
      that does not verify, another owner, an older roster, or expired. */
  function Accept(c: Crypto, a: Adoption, myDid: Bytes, pin: Option<OwnerPin>, now: Option<u64>)
    : Result<OwnerPin, Error>
  {
    if a.fields.deviceDid != myDid then Err(Denied)
    else if !c.verify(a.fields.ownerKey, c.digest(a.canonical), a.signature) then Err(Error.Crypto)
    else if pin.Some? && (pin.value.key != a.fields.ownerKey || a.fields.roster < pin.value.roster) then Err(Denied)
    else if now.Some? && a.fields.expiresAt != 0 && now.value >= a.fields.expiresAt then Err(Denied)
    else Ok(OwnerPin(a.fields.ownerKey, a.fields.roster))
  }

  /** The acceptance of an envelope as it arrives. */
  function AcceptEnvelope(c: Crypto, envelope: Bytes, myDid: Bytes, pin: Option<OwnerPin>, now: Option<u64>)
    : Result<OwnerPin, Error>
  {
    var a :- Decoded(envelope);
    Accept(c, a, myDid, pin, now)
  }

  /** A pin may follow another under the same key with no older roster. */
  predicate Follows(held: Option<OwnerPin>, next: OwnerPin) {
    held.Some? ==> next.key == held.value.key && held.value.roster <= next.roster
  }

  /** Fields whose key signed them for `myDid`, current, and following the pin
      held. Nothing is asked of the owner's DID. */
  predicate Entitled(c: Crypto, f: Fields, signature: Bytes64, myDid: Bytes, pin: Option<OwnerPin>, now: Option<u64>) {
    && Valid(f) && WellFormed(f.caps) && f.deviceDid == myDid
    && c.verify(f.ownerKey, c.digest(Canonical(f)), signature)
    && Follows(pin, OwnerPin(f.ownerKey, f.roster))
    && (now.None? || f.expiresAt == 0 || now.value < f.expiresAt)
  }

  /** The envelopes accepted are exactly the signed encodings of entitled
      fields, and they pin those fields' key and roster. */
  lemma AcceptsExactly(c: Crypto, envelope: Bytes, myDid: Bytes, pin: Option<OwnerPin>, now: Option<u64>, next: OwnerPin)
    ensures AcceptEnvelope(c, envelope, myDid, pin, now) == Ok(next)
      <==> exists f: Fields, signature: Bytes64 ::
             Entitled(c, f, signature, myDid, pin, now) && envelope == Canonical(f) + signature
             && next == OwnerPin(f.ownerKey, f.roster)
  {
    hide Decoded, Canonical, Valid, WellFormed;
    if AcceptEnvelope(c, envelope, myDid, pin, now) == Ok(next) {
      var a := Decoded(envelope).value;
      AdoptionCodec.EncodeOfDecode(envelope, a);
      assert Entitled(c, a.fields, a.signature, myDid, pin, now);
    }
    forall f: Fields, signature: Bytes64 | Entitled(c, f, signature, myDid, pin, now)
      ensures AcceptEnvelope(c, Canonical(f) + signature, myDid, pin, now) == Ok(OwnerPin(f.ownerKey, f.roster))
    {
      AdoptionCodec.DecodeOfEncode(f, signature);
    }
  }

  /** Which error answers which failure, for an envelope that decodes: a
      signature that does not verify is told apart from every other refusal,
      once the adoption names this device. */
  lemma WhichRefusal(c: Crypto, a: Adoption, myDid: Bytes, pin: Option<OwnerPin>, now: Option<u64>)
    ensures var f, r := a.fields, Accept(c, a, myDid, pin, now);
      var mine, signed := f.deviceDid == myDid, c.verify(f.ownerKey, c.digest(a.canonical), a.signature);
      var expired := now.Some? && 0 < f.expiresAt <= now.value;
      && (r == Err(Error.Crypto) <==> mine && !signed)
      && (r == Err(Denied) <==> !mine || (signed && (!Follows(pin, OwnerPin(f.ownerKey, f.roster)) || expired)))
      && (r.Err? ==> r.error == Error.Crypto || r.error == Denied)
  {
  }

  /** The entry of a pin: the key, then the roster in four bytes, the most
      significant first. */
  lemma PinForm(pin: OwnerPin)
    ensures var r: nat := pin.roster;
      pin.Encoded() == pin.key + [r / 256 / 256 / 256 % 256, r / 256 / 256 % 256, r / 256 % 256, r % 256]
  {
    BigEndian(pin.roster);
  }

  /** An envelope that decodes grants every capability it lists. */
  lemma GrantsWhatItLists(bytes: Bytes, a: Adoption, s: Str)
    requires Decoded(bytes) == Ok(a) && s in a.fields.caps.Strings()
    ensures exists i :: 0 <= i < |a.fields.caps.Strings()| && Cap.GrantSatisfies(a.fields.caps.Strings()[i], s)
  {
    hide Decoded, Cap.GrantSatisfies, CapList.Strings;
    AdoptionCodec.DecodedMeaning(bytes, a);
    var i :| 0 <= i < |a.fields.caps.Strings()| && a.fields.caps.Strings()[i] == s;
  }

  /** Whether one of the adoption's own capabilities is a grant of `needed`. */
  method Grants(a: Adoption, needed: Bytes) returns (r: bool)
    ensures r <==> exists i :: 0 <= i < |a.fields.caps.Strings()| && Cap.GrantSatisfies(a.fields.caps.Strings()[i], needed)
  {
    r := Cap.AnySatisfies(a.fields.caps.Strings(), needed);
  }
}
