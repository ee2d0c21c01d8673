/** The owner-signed adoption envelope: its canonical bytes, the decoder, and
    the device's trust-on-first-use acceptance. */
module Adoption {
  import opened Base
  import opened Wire
  import Cap
  import Radix

  const DOMAIN: Bytes := Ascii("janus-adoption-v1\n")

  const VERSION: byte := 1

  const MAX_CAPS: nat := 32

  const MAX_FIELD_LEN: nat := 255

  const SIG_LEN: nat := 64

  /** Capabilities as the encoder supplies them, or as the wire carries them. */
  datatype CapList = Slice(items: seq<Str>) | Wire(count: byte, bytes: Bytes) {
    function Len(): nat {
      match this
      case Slice(items) => |items|
      case Wire(count, _) => count
    }

    /** What iterating yields. */
    function Strings(): seq<Str> {
      match this
      case Slice(items) => items
      case Wire(count, bytes) => WireStrings(count, bytes)
    }
  }

  /** Strings read from `bytes` until `count` are read or one is malformed. */
  function WireStrings(count: nat, bytes: Bytes): (s: seq<Str>)
    ensures |s| <= count
  {
    if count == 0 then []
    else
      match ReadStr(bytes)
      case Err(_) => []
      case Ok((s, rest)) => [s] + WireStrings(count - 1, rest)
  }

  /** The capability iterator: what is left to yield. */
  class CapIter {
    var left: CapList

    constructor (caps: CapList)
      ensures left == caps
    {
      left := caps;
    }

    method Next() returns (s: Option<Str>)
      modifies this
      ensures old(left.Strings()) == [] ==> s == None && left.Strings() == []
      ensures old(left.Strings()) != [] ==> s == Some(old(left.Strings())[0])
      ensures old(left.Strings()) != [] ==> left.Strings() == old(left.Strings())[1..]
      ensures old(left.Strings()) != [] && old(left).Wire? ==>
        left == Wire(old(left).count - 1, ReadStr(old(left).bytes).value.1)
    {
      match left
      case Slice(items) =>
        if items == [] {
          return None;
        }
        left := Slice(items[1..]);
        return Some(items[0]);
      case Wire(count, bytes) =>
        if count == 0 {
          return None;
        }
        left := Wire(count - 1, bytes);
        var read := ReadStr(bytes);
        if read.Err? {
          return None;
        }
        left := Wire(count - 1, read.value.1);
        return Some(read.value.0);
    }
  }

  datatype Fields = Fields(
    deviceDid: Str,
    ownerDid: Str,
    ownerKey: Bytes33,
    hubEndpoint: Bytes32,
    hubRelay: Str,
    hubHost: Str,
    caps: CapList,
    roster: u32,
    issuedAt: u64,
    expiresAt: u64)

  datatype Adoption = Adoption(fields: Fields, signature: Bytes64, canonical: Bytes)

  // ----- the canonical bytes -----

  function EncodedCaps(caps: seq<Str>): Bytes {
    if caps == [] then [] else Str16(caps[0]) + EncodedCaps(caps[1..])
  }

  /** Everything after the capability list. */
  function Trailer(f: Fields): Bytes {
    Be(f.roster, 4) + (Be(f.issuedAt, 8) + Be(f.expiresAt, 8))
  }

  /** Everything from the capability count on. */
  function CapSection(f: Fields): Bytes {
    [f.caps.Len() % 256] + (EncodedCaps(f.caps.Strings()) + Trailer(f))
  }

  /** The bytes the signature covers. */
  function Canonical(f: Fields): Bytes {
    DOMAIN + ([VERSION] + (Str16(f.deviceDid) + (Str16(f.ownerDid) + (f.ownerKey + (f.hubEndpoint
      + (Str16(f.hubRelay) + (Str16(f.hubHost) + CapSection(f))))))))
  }

  predicate GoodCap(cap: Str) {
    |cap| <= MAX_FIELD_LEN && Cap.Parse(cap).Some?
  }

  /** What `validate` accepts. */
  predicate Valid(f: Fields) {
    && |f.deviceDid| <= MAX_FIELD_LEN
    && |f.ownerDid| <= MAX_FIELD_LEN
    && |f.hubRelay| <= MAX_FIELD_LEN
    && |f.hubHost| <= MAX_FIELD_LEN
    && f.deviceDid != [] && f.ownerDid != []
    && f.caps.Len() <= MAX_CAPS
    && (forall i :: 0 <= i < |f.caps.Strings()| ==> GoodCap(f.caps.Strings()[i]))
    && (f.expiresAt != 0 ==> f.issuedAt < f.expiresAt)
  }

  /** The count a capability list announces is the number of strings it holds:
      true of every slice and of every decoded list, but a caller may build a
      wire list for which it is not. */
  predicate WellFormed(caps: CapList) {
    |caps.Strings()| == caps.Len()
  }

  /** The same fields, capabilities compared as the strings they yield. */
  predicate SameFields(f: Fields, g: Fields) {
    f.(caps := g.caps) == g && f.caps.Strings() == g.caps.Strings()
  }

  /** What is asked of fields: DIDs that are there, no string past 255 bytes, at
      most 32 capabilities, each of which would grant itself, and an expiry, if
      any, after the issue. */
  lemma ValidMeaning(f: Fields)
    ensures Valid(f) <==>
      && 1 <= |f.deviceDid| <= 255 && 1 <= |f.ownerDid| <= 255 && |f.hubRelay| <= 255 && |f.hubHost| <= 255
      && f.caps.Len() <= 32
      && (forall s :: s in f.caps.Strings() ==> |s| <= 255 && Cap.GrantSatisfies(s, s))
      && (f.expiresAt == 0 || f.issuedAt < f.expiresAt)
  {
    hide Cap.Parse, CapList.Strings, Cap.GrantSatisfies;
    forall s | s in f.caps.Strings()
      ensures GoodCap(s) <==> |s| <= 255 && Cap.GrantSatisfies(s, s)
    {
      Cap.SatisfiesItself(s);
    }
  }

  method Validate(f: Fields) returns (r: Result<(), Error>)
    ensures r == if Valid(f) then Ok(()) else Err(InvalidFormat)
  {
    if |f.deviceDid| > MAX_FIELD_LEN || |f.ownerDid| > MAX_FIELD_LEN
       || |f.hubRelay| > MAX_FIELD_LEN || |f.hubHost| > MAX_FIELD_LEN {
      return Err(InvalidFormat);
    }
    if f.deviceDid == [] || f.ownerDid == [] || f.caps.Len() > MAX_CAPS {
      return Err(InvalidFormat);
    }
    var capsGood := ValidateCaps(f.caps);
    if !capsGood || (f.expiresAt != 0 && f.expiresAt <= f.issuedAt) {
      return Err(InvalidFormat);
    }
    return Ok(());
  }

  method ValidateCaps(caps: CapList) returns (good: bool)
    ensures good <==> forall i :: 0 <= i < |caps.Strings()| ==> GoodCap(caps.Strings()[i])
  {
    hide CapList.Strings, WireStrings, Cap.Parse;
    ghost var all := caps.Strings();
    ghost var i := 0;
    var it := new CapIter(caps);
    var cap := it.Next();
    while cap.Some?
      invariant i <= |all|
      invariant cap.Some? ==> i < |all| && cap.value == all[i] && it.left.Strings() == all[i + 1..]
      invariant cap.None? ==> i == |all|
      invariant forall k :: 0 <= k < i ==> GoodCap(all[k])
      decreases |all| - i
    {
      if |cap.value| > MAX_FIELD_LEN || Cap.Parse(cap.value).None? {
        assert !GoodCap(all[i]);
        return false;
      }
      i := i + 1;
      cap := it.Next();
    }
    return true;
  }

  method CanonicalLen(f: Fields) returns (n: nat)
    ensures n == |Canonical(f)|
  {
    n := |DOMAIN| + 1;
    n := n + 2 + |f.deviceDid| + 2 + |f.ownerDid|;
    n := n + 33 + 32;
    n := n + 2 + |f.hubRelay| + 2 + |f.hubHost|;
    n := n + 1;
    ghost var base := n;
    ghost var todo := f.caps.Strings();
    var it := new CapIter(f.caps);
    var cap := it.Next();
    while cap.Some?
      invariant cap.Some? ==> todo != [] && cap.value == todo[0] && it.left.Strings() == todo[1..]
      invariant cap.None? ==> todo == []
      invariant n + |EncodedCaps(todo)| == base + |EncodedCaps(f.caps.Strings())|
      decreases |todo|
    {
      n := n + 2 + |cap.value|;
      todo := todo[1..];
      cap := it.Next();
    }
    n := n + 4 + 8 + 8;
  }

  /** Write the canonical bytes at the start of `out`. */
  method Encode(f: Fields, out: array<byte>) returns (r: Result<nat, Error>)
    modifies out
    ensures !Valid(f) ==> r == Err(InvalidFormat)
    ensures Valid(f) && out.Length < |Canonical(f)| ==> r == Err(BufferTooSmall(|Canonical(f)|))
    ensures Valid(f) && out.Length >= |Canonical(f)| ==> r == Ok(|Canonical(f)|)
    ensures r.Ok? ==> out[..] == Canonical(f) + old(out[|Canonical(f)|..])
    ensures r.Err? ==> out[..] == old(out[..])
  {
    hide Canonical, Valid, CapSection;
    var valid := Validate(f);
    if valid.Err? {
      return Err(valid.error);
    }
    var needed := CanonicalLen(f);
    if out.Length < needed {
      return Err(BufferTooSmall(needed));
    }
    var w := new Writer(out, Canonical(f));
    EncodeHead(f, w);
    EncodeCapSection(f, w);
    return Ok(w.pos);
  }

  /** What follows the owner's DID. */
  function AfterOwner(f: Fields): Bytes {
    f.ownerKey + (f.hubEndpoint + (Str16(f.hubRelay) + (Str16(f.hubHost) + CapSection(f))))
  }

  method EncodeHead(f: Fields, w: Writer)
    requires w.Valid() && w.pos == 0 && w.todo == Canonical(f)
    modifies w, w.out
    ensures w.Valid() && w.todo == CapSection(f) && w.pos + |CapSection(f)| == |Canonical(f)|
  {
    w.Put(DOMAIN, [VERSION] + (Str16(f.deviceDid) + (Str16(f.ownerDid) + AfterOwner(f))));
    w.Put([VERSION], Str16(f.deviceDid) + (Str16(f.ownerDid) + AfterOwner(f)));
    w.PutStr16(f.deviceDid, Str16(f.ownerDid) + AfterOwner(f));
    w.PutStr16(f.ownerDid, AfterOwner(f));
    w.Put(f.ownerKey, f.hubEndpoint + (Str16(f.hubRelay) + (Str16(f.hubHost) + CapSection(f))));
    w.Put(f.hubEndpoint, Str16(f.hubRelay) + (Str16(f.hubHost) + CapSection(f)));
    w.PutStr16(f.hubRelay, Str16(f.hubHost) + CapSection(f));
    w.PutStr16(f.hubHost, CapSection(f));
  }

  method EncodeCapSection(f: Fields, w: Writer)
    requires w.Valid() && w.todo == CapSection(f)
    modifies w, w.out
    ensures w.Valid() && w.todo == [] && w.pos == old(w.pos) + |CapSection(f)|
  {
    w.Put([f.caps.Len() % 256], EncodedCaps(f.caps.Strings()) + Trailer(f));
    EncodeCaps(f.caps, w, Trailer(f));
    w.Put(Be(f.roster, 4), Be(f.issuedAt, 8) + Be(f.expiresAt, 8));
    w.Put(Be(f.issuedAt, 8), Be(f.expiresAt, 8));
    w.Put(Be(f.expiresAt, 8), []);
  }

  method EncodeCaps(caps: CapList, w: Writer, ghost rest: Bytes)
    requires w.Valid() && w.todo == EncodedCaps(caps.Strings()) + rest
    modifies w, w.out
    ensures w.Valid() && w.todo == rest && w.pos == old(w.pos) + |EncodedCaps(caps.Strings())|
  {
    hide CapList.Strings, WireStrings, Str16;
    ghost var todo := caps.Strings();
    var it := new CapIter(caps);
    var cap := it.Next();
    while cap.Some?
      invariant cap.Some? ==> todo != [] && cap.value == todo[0] && it.left.Strings() == todo[1..]
      invariant cap.None? ==> todo == []
      invariant w.Valid() && w.todo == EncodedCaps(todo) + rest
      invariant w.pos + |EncodedCaps(todo)| == old(w.pos) + |EncodedCaps(caps.Strings())|
      decreases |todo|
    {
      assert w.todo == Str16(todo[0]) + (EncodedCaps(todo[1..]) + rest);
      w.PutStr16(cap.value, EncodedCaps(todo[1..]) + rest);
      todo := todo[1..];
      cap := it.Next();
    }
  }

  /** Encode, then sign the bytes written and append the signature. */
  method SignInto(f: Fields, digest: Bytes -> Bytes32, sign: Bytes32 -> Bytes64, out: array<byte>)
    returns (r: Result<nat, Error>)
    modifies out
    ensures r.Ok? <==> Valid(f) && out.Length >= |Canonical(f)| + SIG_LEN
    ensures !Valid(f) ==> r == Err(InvalidFormat)
    ensures Valid(f) && r.Err? ==>
      r == Err(BufferTooSmall(|Canonical(f)| + if out.Length < |Canonical(f)| then 0 else SIG_LEN))
    ensures r.Ok? ==> r.value == |Canonical(f)| + SIG_LEN
    ensures r.Ok? ==> out[..r.value] == Canonical(f) + sign(digest(Canonical(f)))
    ensures r.Ok? ==> out[r.value..] == old(out[r.value..])
  {
    hide Canonical, Valid;
    var n :- Encode(f, out);
    var total := n + SIG_LEN;
    if out.Length < total {
      return Err(BufferTooSmall(total));
    }
    assert out[..n] == Canonical(f);
    CopyInto(out, n, sign(digest(out[..n])));
    return Ok(total);
  }

  // ----- decoding -----

  /** `count` strings from the front of `r`: the loop of the decoder. */
  function ReadCaps(count: nat, r: Bytes): (p: Result<(seq<Str>, Bytes), Error>)
    ensures p.Ok? ==> |p.value.0| == count && |p.value.1| <= |r|
  {
    if count == 0 then Ok(([], r))
    else
      var (s, rest) :- ReadStr(r);
      var (more, end) :- ReadCaps(count - 1, rest);
      Ok(([s] + more, end))
  }

  method SkipCaps(count: byte, start: Bytes) returns (p: Result<Bytes, Error>)
    ensures p.Ok? <==> ReadCaps(count, start).Ok?
    ensures p.Ok? ==> p.value == ReadCaps(count, start).value.1
    ensures p.Err? ==> p.error == ReadCaps(count, start).error
  {
    var r := start;
    ghost var all := ReadCaps(count, start);
    for i := 0 to count
      invariant all.Ok? <==> ReadCaps(count - i, r).Ok?
      invariant all.Ok? ==> all.value.1 == ReadCaps(count - i, r).value.1
      invariant all.Err? ==> all.error == ReadCaps(count - i, r).error
    {
      var read := ReadStr(r);
      if read.Err? {
        return Err(read.error);
      }
      r := read.value.1;
    }
    return Ok(r);
  }

  /** The fields in `r`, which must hold them and nothing more. */
  function ReadTrailer(r: Bytes): Result<(u32, u64, u64), Error> {
    var (rv, rest) :- ReadArray(4, r);
    var (ia, rest) :- ReadArray(8, rest);
    var (ea, rest) :- ReadArray(8, rest);
    if rest != [] then Err(InvalidFormat)
    else
      Widths();
      FromBeBound(rv);
      FromBeBound(ia);
      FromBeBound(ea);
      Ok((FromBe(rv), FromBe(ia), FromBe(ea)))
  }

  function ReadCapSection(r: Bytes): Result<(CapList, u32, u64, u64), Error> {
    var (count, start) :- ReadU8(r);
    var (_, end) :- ReadCaps(count, start);
    var (roster, issuedAt, expiresAt) :- ReadTrailer(end);
    Ok((Wire(count, start[..|start| - |end|]), roster, issuedAt, expiresAt))
  }

  function ReadFields(canonical: Bytes): Result<Fields, Error> {
    var r :- Expect(canonical, DOMAIN);
    var (version, r) :- ReadU8(r);
    if version != VERSION then Err(Unsupported)
    else
      var (deviceDid, r) :- ReadStr(r);
      var (ownerDid, r) :- ReadStr(r);
      var (ownerKey, r) :- ReadArray(33, r);
      var (hubEndpoint, r) :- ReadArray(32, r);
      var (hubRelay, r) :- ReadStr(r);
      var (hubHost, r) :- ReadStr(r);
      var (caps, roster, issuedAt, expiresAt) :- ReadCapSection(r);
      Ok(Fields(deviceDid, ownerDid, ownerKey, hubEndpoint, hubRelay, hubHost, caps,
                roster, issuedAt, expiresAt))
  }

  /** What decoding `bytes` gives. */
  function Decoded(bytes: Bytes): Result<Adoption, Error> {
    if |bytes| < |DOMAIN| + 1 + SIG_LEN then Err(InvalidFormat)
    else
      var n := |bytes| - SIG_LEN;
      var fields :- ReadFields(bytes[..n]);
      if Valid(fields) then Ok(Adoption(fields, bytes[n..], bytes[..n])) else Err(InvalidFormat)
  }

  method DecodeCapSection(r: Bytes) returns (p: Result<(CapList, u32, u64, u64), Error>)
    ensures p == ReadCapSection(r)
  {
    var count :- ReadU8(r);
    var start := count.1;
    var end :- SkipCaps(count.0, start);
    var trailer :- ReadTrailer(end);
    return Ok((Wire(count.0, start[..|start| - |end|]), trailer.0, trailer.1, trailer.2));
  }

  method DecodeFields(canonical: Bytes) returns (f: Result<Fields, Error>)
    ensures f == ReadFields(canonical)
  {
    var r :- Expect(canonical, DOMAIN);
    var version :- ReadU8(r);
    if version.0 != VERSION {
      return Err(Unsupported);
    }
    var deviceDid :- ReadStr(version.1);
    var ownerDid :- ReadStr(deviceDid.1);
    var ownerKey :- ReadArray(33, ownerDid.1);
    var hubEndpoint :- ReadArray(32, ownerKey.1);
    var hubRelay :- ReadStr(hubEndpoint.1);
    var hubHost :- ReadStr(hubRelay.1);
    var rest :- DecodeCapSection(hubHost.1);
    return Ok(Fields(deviceDid.0, ownerDid.0, ownerKey.0, hubEndpoint.0, hubRelay.0, hubHost.0,
                     rest.0, rest.1, rest.2, rest.3));
  }

  method Decode(bytes: Bytes) returns (a: Result<Adoption, Error>)
    ensures a == Decoded(bytes)
  {
    hide ReadFields, Valid;
    if |bytes| < |DOMAIN| + 1 + SIG_LEN {
      return Err(InvalidFormat);
    }
    var n := |bytes| - SIG_LEN;
    var fields :- DecodeFields(bytes[..n]);
    var _ :- Validate(fields);
    return Ok(Adoption(fields, bytes[n..], bytes[..n]));
  }
}
