/** The other signed messages (the gateway's nonce envelope, the setup reply,
    the manifest and the maker's attestation), and what keeps all six kinds of
    message apart. */
module Messages {
  import opened Base
  import opened Wire
  import Adoption
  import AdoptionCodec
  import Status
  import Did
  import Radix

  const NONCE_DOMAIN: Bytes := Ascii("kms-nonce-v1\n")

  const ENVELOPE_VERSION: byte := 1

  const MAX_TTL_SECS: nat := 300

  const REPLY_DOMAIN: Bytes := Ascii("janus-setup-v1/reply\n")

  const MANIFEST_DOMAIN: Bytes := Ascii("janus-manifest-v1\n")

  const MAKER_DOMAIN: Bytes := Ascii("janus-maker-v1\n")

  // ----- the gateway's nonce envelope -----

  datatype Envelope = Envelope(
    version: byte,
    nonce: Bytes,
    did: Str,
    audience: Str,
    purpose: Str,
    issuedAt: u64,
    expiresAt: u64,
    issuer: Str)

  /** A length prefix that saturates at 65,535, and the bytes. */
  function Lp(b: Bytes): (r: Bytes)
    ensures |r| == 2 + |b|
  {
    Be(if |b| < 0x1_0000 then |b| else 0xFFFF, 2) + b
  }

  function EnvelopeTimes(e: Envelope): Bytes {
    Be(e.issuedAt, 8) + (Be(e.expiresAt, 8) + Lp(e.issuer))
  }

  function EnvelopeMessage(e: Envelope): Bytes {
    NONCE_DOMAIN + ([e.version] + (Lp(e.nonce) + (Lp(e.did) + (Lp(e.audience) + (Lp(e.purpose) + EnvelopeTimes(e))))))
  }

  /** The shape check, in its order. */
  function ValidateEnvelope(onCurve: Bytes -> bool, e: Envelope): Result<(), Error> {
    if e.version != ENVELOPE_VERSION then Err(Unsupported)
    else if |e.nonce| != 32 then Err(InvalidFormat)
    else
      var _ :- Did.Parse(onCurve, e.did);
      if e.expiresAt <= e.issuedAt || e.expiresAt - e.issuedAt > MAX_TTL_SECS then Err(InvalidFormat)
      else if |e.did| > 0xFFFF || |e.audience| > 0xFFFF || |e.purpose| > 0xFFFF || |e.issuer| > 0xFFFF then
        Err(InvalidFormat)
      else Ok(())
  }

  method FeedLp(b: Bytes, ghost rest: Bytes, h: Hasher)
    requires h.Valid() && h.todo == Lp(b) + rest
    modifies h
    ensures h.Valid() && h.todo == rest
  {
    var len := if |b| < 0x1_0000 then |b| else 0xFFFF;
    assert Lp(b) + rest == Be(len, 2) + (b + rest);
    h.Update(Be(len, 2), b + rest);
    h.Update(b, rest);
  }

  method CanonicalBytes(e: Envelope, digest: Bytes -> Bytes32) returns (hash: Bytes32)
    ensures hash == digest(EnvelopeMessage(e))
  {
    hide Lp;
    var h := new Hasher(digest, EnvelopeMessage(e));
    ghost var r4 := Lp(e.purpose) + EnvelopeTimes(e);
    ghost var r3 := Lp(e.audience) + r4;
    ghost var r2 := Lp(e.did) + r3;
    h.Update(NONCE_DOMAIN, [e.version] + (Lp(e.nonce) + r2));
    h.Update([e.version], Lp(e.nonce) + r2);
    FeedLp(e.nonce, r2, h);
    FeedLp(e.did, r3, h);
    FeedLp(e.audience, r4, h);
    FeedLp(e.purpose, EnvelopeTimes(e), h);
    h.Update(Be(e.issuedAt, 8), Be(e.expiresAt, 8) + Lp(e.issuer));
    h.Update(Be(e.expiresAt, 8), Lp(e.issuer));
    assert Lp(e.issuer) + [] == Lp(e.issuer);
    FeedLp(e.issuer, [], h);
    hash := h.Finalize();
  }

  /** Validate, then sign; an envelope that does not validate is not signed. */
  method SignEnvelope(onCurve: Bytes -> bool, e: Envelope, digest: Bytes -> Bytes32, sign: Bytes32 -> Bytes64)
    returns (r: Result<Bytes64, Error>)
    ensures ValidateEnvelope(onCurve, e).Err? ==> r == Err(ValidateEnvelope(onCurve, e).error)
    ensures ValidateEnvelope(onCurve, e).Ok? ==> r == Ok(sign(digest(EnvelopeMessage(e))))
    ensures r.Ok? <==>
      && e.version == 1 && |e.nonce| == 32 && Did.Parse(onCurve, e.did).Ok?
      && e.issuedAt < e.expiresAt <= e.issuedAt + 300
      && |e.did| <= 65535 && |e.audience| <= 65535 && |e.purpose| <= 65535 && |e.issuer| <= 65535
    ensures r.Err? ==>
      r.error == if e.version != 1 then Unsupported
                 else if |e.nonce| == 32 && Did.Parse(onCurve, e.did).Err? then Did.Parse(onCurve, e.did).error
                 else InvalidFormat
  {
    hide Did.Parse, EnvelopeMessage;
    var _ :- ValidateEnvelope(onCurve, e);
    var hash := CanonicalBytes(e, digest);
    return Ok(sign(hash));
  }

  /** The message by offset: each part where the one before it ends. */
  lemma EnvelopeForm(e: Envelope)
    requires EnvelopeFramed(e)
    ensures var m := EnvelopeMessage(e);
      var did := 16 + |e.nonce|;
      var audience := did + 2 + |e.did|;
      var purpose := audience + 2 + |e.audience|;
      var times := purpose + 2 + |e.purpose|;
      && Holds(m, 0, NONCE_DOMAIN) && Holds(m, 13, [e.version])
      && Holds(m, 14, Be(|e.nonce|, 2)) && Holds(m, 16, e.nonce)
      && Holds(m, did, Be(|e.did|, 2)) && Holds(m, did + 2, e.did)
      && Holds(m, audience, Be(|e.audience|, 2)) && Holds(m, audience + 2, e.audience)
      && Holds(m, purpose, Be(|e.purpose|, 2)) && Holds(m, purpose + 2, e.purpose)
      && Holds(m, times, Be(e.issuedAt, 8)) && Holds(m, times + 8, Be(e.expiresAt, 8))
      && Holds(m, times + 16, Be(|e.issuer|, 2)) && Holds(m, times + 18, e.issuer)
      && |m| == times + 18 + |e.issuer|
  {
    hide *;
    ShortFields(e);
    var m := EnvelopeMessage(e);
    var rest := Lp(e.audience) + (Lp(e.purpose) + EnvelopeTimes(e));
    EnvelopeFront(e, m, rest);
    TwoLps(m, 14, e.nonce, e.did, rest);
    var audience := 18 + |e.nonce| + |e.did|;
    TwoLps(m, audience, e.audience, e.purpose, EnvelopeTimes(e));
    TimesForm(e, m, audience + 4 + |e.audience| + |e.purpose|);
  }

  /** Two framed strings, one after the other. */
  lemma TwoLps(m: Bytes, at: nat, a: Bytes, b: Bytes, rest: Bytes)
    requires |a| < 0x1_0000 && |b| < 0x1_0000 && Tail(m, at, Lp(a) + (Lp(b) + rest))
    ensures Holds(m, at, Be(|a|, 2)) && Holds(m, at + 2, a)
    ensures Holds(m, at + 2 + |a|, Be(|b|, 2)) && Holds(m, at + 4 + |a|, b)
    ensures Tail(m, at + 4 + |a| + |b|, rest)
  {
    hide *;
    HoldsLp(m, at, a, Lp(b) + rest);
    HoldsLp(m, at + 2 + |a|, b, rest);
  }

  lemma EnvelopeIs(e: Envelope, rest: Bytes)
    requires rest == Lp(e.audience) + (Lp(e.purpose) + EnvelopeTimes(e))
    ensures EnvelopeMessage(e) == NONCE_DOMAIN + ([e.version] + (Lp(e.nonce) + (Lp(e.did) + rest))) && |NONCE_DOMAIN| == 13
  {
    hide Lp, EnvelopeTimes, Utf8;
  }

  lemma EnvelopeFront(e: Envelope, m: Bytes, rest: Bytes)
    requires m == EnvelopeMessage(e) && rest == Lp(e.audience) + (Lp(e.purpose) + EnvelopeTimes(e))
    ensures Holds(m, 0, NONCE_DOMAIN) && Holds(m, 13, [e.version]) && Tail(m, 14, Lp(e.nonce) + (Lp(e.did) + rest))
  {
    hide *;
    var body := Lp(e.nonce) + (Lp(e.did) + rest);
    EnvelopeIs(e, rest);
    HoldsFirst(m, NONCE_DOMAIN, [e.version] + body);
    HoldsNext(m, 13, [e.version], body);
  }

  lemma TimesAre(e: Envelope)
    ensures EnvelopeTimes(e) == Be(e.issuedAt, 8) + (Be(e.expiresAt, 8) + Lp(e.issuer))
  {
  }

  lemma TimesForm(e: Envelope, m: Bytes, times: nat)
    requires EnvelopeFramed(e) && Tail(m, times, EnvelopeTimes(e))
    ensures Holds(m, times, Be(e.issuedAt, 8)) && Holds(m, times + 8, Be(e.expiresAt, 8))
    ensures Holds(m, times + 16, Be(|e.issuer|, 2)) && Holds(m, times + 18, e.issuer)
    ensures |m| == times + 18 + |e.issuer|
  {
    hide *;
    ShortFields(e);
    TimesAre(e);
    var issued, expires, issuer := Be(e.issuedAt, 8), Be(e.expiresAt, 8), Lp(e.issuer);
    HoldsNext(m, times, issued, expires + issuer);
    HoldsNext(m, times + 8, expires, issuer);
    assert issuer + [] == issuer;
    HoldsLp(m, times + 16, e.issuer, []);
    TailLength(m, times + 18 + |e.issuer|, []);
  }

  lemma ShortFields(e: Envelope)
    requires EnvelopeFramed(e)
    ensures |e.nonce| < 0x1_0000 && |e.did| < 0x1_0000 && |e.audience| < 0x1_0000
    ensures |e.purpose| < 0x1_0000 && |e.issuer| < 0x1_0000
  {
  }

  lemma LpIsStr16(s: Bytes)
    requires |s| < 0x1_0000
    ensures Lp(s) == Str16(s)
  {
  }

  lemma HoldsLp(m: Bytes, at: nat, s: Bytes, rest: Bytes)
    requires |s| < 0x1_0000 && Tail(m, at, Lp(s) + rest)
    ensures Holds(m, at, Be(|s|, 2)) && Holds(m, at + 2, s) && Tail(m, at + 2 + |s|, rest)
  {
    hide *;
    LpIsStr16(s);
    HoldsStr16(m, at, s, rest);
  }

  /** Lengths the prefixes state exactly. */
  predicate EnvelopeFramed(e: Envelope) {
    |e.nonce| < 0x1_0000 && |e.did| < 0x1_0000 && |e.audience| < 0x1_0000 && |e.purpose| < 0x1_0000 && |e.issuer| < 0x1_0000
  }

  lemma ValidatedIsFramed(onCurve: Bytes -> bool, e: Envelope)
    requires ValidateEnvelope(onCurve, e).Ok?
    ensures EnvelopeFramed(e)
  {
    hide Did.Parse;
  }

  lemma PeelLp(a: Bytes, x: Bytes, b: Bytes, y: Bytes)
    requires |a| < 0x1_0000 && |b| < 0x1_0000 && Lp(a) + x == Lp(b) + y
    ensures a == b && x == y
  {
    PeelFramed(a, x, b, y);
  }

  lemma EnvelopeTimesInjective(e: Envelope, f: Envelope)
    requires EnvelopeTimes(e) == EnvelopeTimes(f) && |e.issuer| < 0x1_0000 && |f.issuer| < 0x1_0000
    ensures e.issuedAt == f.issuedAt && e.expiresAt == f.expiresAt && e.issuer == f.issuer
  {
    hide Lp, Be;
    Widths();
    PeelFixed(Be(e.issuedAt, 8), Be(e.expiresAt, 8) + Lp(e.issuer), Be(f.issuedAt, 8), Be(f.expiresAt, 8) + Lp(f.issuer));
    PeelFixed(Be(e.expiresAt, 8), Lp(e.issuer), Be(f.expiresAt, 8), Lp(f.issuer));
    BeInjective(e.issuedAt, f.issuedAt, 8);
    BeInjective(e.expiresAt, f.expiresAt, 8);
    assert Lp(e.issuer) + [] == Lp(e.issuer) && Lp(f.issuer) + [] == Lp(f.issuer);
    PeelLp(e.issuer, [], f.issuer, []);
  }

  lemma EnvelopeInjective(e: Envelope, f: Envelope)
    requires EnvelopeFramed(e) && EnvelopeFramed(f) && EnvelopeMessage(e) == EnvelopeMessage(f)
    ensures e == f
  {
    hide Lp, EnvelopeTimes;
    var e4, f4 := Lp(e.purpose) + EnvelopeTimes(e), Lp(f.purpose) + EnvelopeTimes(f);
    var e3, f3 := Lp(e.audience) + e4, Lp(f.audience) + f4;
    var e2, f2 := Lp(e.did) + e3, Lp(f.did) + f3;
    PeelFixed(NONCE_DOMAIN, [e.version] + (Lp(e.nonce) + e2), NONCE_DOMAIN, [f.version] + (Lp(f.nonce) + f2));
    PeelFixed([e.version], Lp(e.nonce) + e2, [f.version], Lp(f.nonce) + f2);
    PeelLp(e.nonce, e2, f.nonce, f2);
    PeelLp(e.did, e3, f.did, f3);
    PeelLp(e.audience, e4, f.audience, f4);
    PeelLp(e.purpose, EnvelopeTimes(e), f.purpose, EnvelopeTimes(f));
    EnvelopeTimesInjective(e, f);
  }

  // ----- the setup reply -----

  datatype Reply = Reply(context: Bytes, shareP: Bytes65, shareV: Bytes65, confirmV: Bytes32)

  function ReplyMessage(r: Reply): Bytes {
    REPLY_DOMAIN + (Be(|r.context|, 2) + r.context + (r.shareP + (r.shareV + r.confirmV)))
  }

  method ReplyPrehash(r: Reply, digest: Bytes -> Bytes32) returns (hash: Result<Bytes32, Error>)
    ensures hash == if |r.context| < 0x1_0000 then Ok(digest(ReplyMessage(r))) else Err(InvalidFormat)
  {
    if |r.context| >= 0x1_0000 {
      return Err(InvalidFormat);
    }
    var h := new Hasher(digest, ReplyMessage(r));
    var len := Be(|r.context|, 2);
    ghost var shares := r.shareP + (r.shareV + r.confirmV);
    assert len + r.context + shares == len + (r.context + shares);
    h.Update(REPLY_DOMAIN, len + (r.context + shares));
    h.Update(len, r.context + shares);
    h.Update(r.context, shares);
    h.Update(r.shareP, r.shareV + r.confirmV);
    h.Update(r.shareV, r.confirmV);
    assert r.confirmV + [] == r.confirmV;
    h.Update(r.confirmV, []);
    var done := h.Finalize();
    return Ok(done);
  }

  /** The message by offset: the context behind its length, the two shares,
      and the confirmation. */
  lemma ReplyForm(r: Reply)
    ensures var m := ReplyMessage(r);
      var shares := 23 + |r.context|;
      && Holds(m, 0, REPLY_DOMAIN) && Holds(m, 21, Be(|r.context|, 2)) && Holds(m, 23, r.context)
      && Holds(m, shares, r.shareP) && Holds(m, shares + 65, r.shareV) && Holds(m, shares + 130, r.confirmV)
      && |m| == shares + 162
  {
    hide *;
    var m, len, shares := ReplyMessage(r), Be(|r.context|, 2), r.shareP + (r.shareV + r.confirmV);
    ReplyIs(r);
    HoldsFirst(m, REPLY_DOMAIN, len + (r.context + shares));
    HoldsNext(m, 21, len, r.context + shares);
    HoldsNext(m, 23, r.context, shares);
    var at := 23 + |r.context|;
    HoldsNext(m, at, r.shareP, r.shareV + r.confirmV);
    HoldsNext(m, at + 65, r.shareV, r.confirmV);
    HoldsLast(m, at + 130, r.confirmV);
  }

  lemma ReplyIs(r: Reply)
    ensures ReplyMessage(r) == REPLY_DOMAIN + (Be(|r.context|, 2) + (r.context + (r.shareP + (r.shareV + r.confirmV))))
    ensures |REPLY_DOMAIN| == 21
  {
    hide Be;
    var shares := r.shareP + (r.shareV + r.confirmV);
    assert Be(|r.context|, 2) + r.context + shares == Be(|r.context|, 2) + (r.context + shares);
  }

  lemma ReplyInjective(r: Reply, s: Reply)
    requires |r.context| < 0x1_0000 && |s.context| < 0x1_0000 && ReplyMessage(r) == ReplyMessage(s)
    ensures r == s
  {
    var x, y := r.shareP + (r.shareV + r.confirmV), s.shareP + (s.shareV + s.confirmV);
    PeelFixed(REPLY_DOMAIN, Be(|r.context|, 2) + r.context + x, REPLY_DOMAIN, Be(|s.context|, 2) + s.context + y);
    PeelFramed(r.context, x, s.context, y);
    PeelFixed(r.shareP, r.shareV + r.confirmV, s.shareP, s.shareV + s.confirmV);
    PeelFixed(r.shareV, r.confirmV, s.shareV, s.confirmV);
  }

  // ----- the manifest and the maker -----

  function ManifestMessage(manifest: Bytes): Bytes {
    MANIFEST_DOMAIN + manifest
  }

  /** Model and firmware behind lengths that wrap at 65,536. */
  function MakerMessage(model: Str, firmware: Str): Bytes {
    MAKER_DOMAIN + (Str16(model) + Str16(firmware))
  }

  lemma MakerInjective(model: Str, firmware: Str, model': Str, firmware': Str)
    requires |model| < 0x1_0000 && |firmware| < 0x1_0000 && |model'| < 0x1_0000 && |firmware'| < 0x1_0000
    requires MakerMessage(model, firmware) == MakerMessage(model', firmware')
    ensures model == model' && firmware == firmware'
  {
    hide Str16;
    PeelFixed(MAKER_DOMAIN, Str16(model) + Str16(firmware), MAKER_DOMAIN, Str16(model') + Str16(firmware'));
    PeelStr16(model, Str16(firmware), model', Str16(firmware'));
    assert Str16(firmware) + [] == Str16(firmware) && Str16(firmware') + [] == Str16(firmware');
    PeelStr16(firmware, [], firmware', []);
  }

  // ----- where framing stops telling messages apart -----

  ghost predicate MakerInjectiveUpTo(bound: nat) {
    forall m: Str, f: Str, m': Str, f': Str ::
      |m| <= bound && |f| <= bound && |m'| <= bound && |f'| <= bound && MakerMessage(m, f) == MakerMessage(m', f')
      ==> m == m' && f == f'
  }

  lemma NulText(n: nat)
    ensures Utf8(Fill(n, 0))
  {
    AsciiIsUtf8(Fill(n, 0));
  }

  /** The wrapped length of 65,536 bytes is the length of none. */
  lemma WrappedLength()
    ensures Be(0x1_0000, 2) == Be(0, 2) == [0, 0]
  {
    assert Radix.Fixed(256, 0x1_0000, 2) == Radix.Fixed(256, 256, 1) + [0];
    assert Radix.Fixed(256, 256, 1) == Radix.Fixed(256, 1, 0) + [0];
    assert Radix.Fixed(256, 0, 2) == Radix.Fixed(256, 0, 1) + [0];
    assert Radix.Fixed(256, 0, 1) == Radix.Fixed(256, 0, 0) + [0];
  }

  /** A model of 65,536 NULs with no firmware is attested by the same bytes as
      no model with a firmware of 65,536 NULs. */
  lemma MakerCollision(big: Str)
    requires big == Fill(0x1_0000, 0)
    ensures MakerMessage(big, []) == MakerMessage([], big)
  {
    WrappedLength();
    var a, b := Str16(big) + Str16([]), Str16([]) + Str16(big);
    assert |a| == |b| && forall i :: 0 <= i < |a| ==> a[i] == 0 && b[i] == 0;
    assert a == b;
  }

  /** A maker's message names one model and firmware exactly as long as neither
      may pass 65,535 bytes. */
  lemma MakerBound(bound: nat)
    ensures MakerInjectiveUpTo(bound) <==> bound < 0x1_0000
  {
    if bound < 0x1_0000 {
      forall m: Str, f: Str, m': Str, f': Str |
        |m| <= bound && |f| <= bound && |m'| <= bound && |f'| <= bound && MakerMessage(m, f) == MakerMessage(m', f')
        ensures m == m' && f == f'
      {
        MakerInjective(m, f, m', f');
      }
    } else {
      NulText(0x1_0000);
      var big: Str := Fill(0x1_0000, 0);
      MakerCollision(big);
      var none: Str := [];
      assert MakerMessage(big, none) == MakerMessage(none, big) && big != none;
    }
  }

  ghost predicate EnvelopeInjectiveUpTo(bound: nat) {
    forall e: Envelope, f: Envelope ::
      WithinBound(e, bound) && WithinBound(f, bound) && EnvelopeMessage(e) == EnvelopeMessage(f) ==> e == f
  }

  predicate WithinBound(e: Envelope, bound: nat) {
    |e.nonce| <= bound && |e.did| <= bound && |e.audience| <= bound && |e.purpose| <= bound && |e.issuer| <= bound
  }

  lemma SmallLengths()
    ensures Be(0x100, 2) == [1, 0] && Be(0x101, 2) == [1, 1]
  {
    assert Radix.Fixed(256, 256, 2) == Radix.Fixed(256, 1, 1) + [0];
    assert Radix.Fixed(256, 257, 2) == Radix.Fixed(256, 1, 1) + [1];
    assert Radix.Fixed(256, 1, 1) == Radix.Fixed(256, 0, 0) + [1];
  }

  /** Saturating the length does not keep two messages apart either: one more
      byte, 1, on a 65,535-byte string begins the next string's length. */
  lemma LpCollision(long: Bytes, next: Bytes, rest: Bytes)
    requires |long| == 0xFFFF && |next| == 0x100
    ensures Lp(long + [1]) + (Lp(next) + rest) == Lp(long) + (Lp([0] + next) + rest)
  {
    SmallLengths();
    var ff, tail := Be(0xFFFF, 2), next + rest;
    assert Lp(next) + rest == [1, 0] + tail;
    assert Lp([0] + next) + rest == [1, 1] + ([0] + tail);
    assert Lp(long + [1]) + ([1, 0] + tail) == (ff + long) + ([1, 1, 0] + tail);
    assert Lp(long) + ([1, 1] + ([0] + tail)) == (ff + long) + ([1, 1, 0] + tail);
  }

  /** Two envelopes no one could tell apart by their prehash. */
  lemma EnvelopeCollision(e: Envelope, long: Str, longer: Str, next: Str, further: Str)
    requires |long| == 0xFFFF && longer == long + [1] && |next| == 0x100 && further == [0] + next
    ensures EnvelopeMessage(e.(did := longer, audience := next)) == EnvelopeMessage(e.(did := long, audience := further))
  {
    hide Lp;
    LpCollision(long, next, Lp(e.purpose) + EnvelopeTimes(e));
  }

  /** An envelope's canonical bytes name it exactly as long as no string may
      pass 65,535 bytes, which is why signing validates first. */
  lemma EnvelopeBound(bound: nat)
    ensures EnvelopeInjectiveUpTo(bound) <==> bound < 0x1_0000
  {
    hide EnvelopeMessage;
    if bound < 0x1_0000 {
      forall e: Envelope, f: Envelope |
        WithinBound(e, bound) && WithinBound(f, bound) && EnvelopeMessage(e) == EnvelopeMessage(f)
        ensures e == f
      {
        EnvelopeInjective(e, f);
      }
    } else {
      var a, b := TwoEnvelopes();
      assert WithinBound(a, bound) && WithinBound(b, bound);
    }
  }

  lemma TwoEnvelopes() returns (a: Envelope, b: Envelope)
    ensures WithinBound(a, 0x1_0000) && WithinBound(b, 0x1_0000)
    ensures a != b && EnvelopeMessage(a) == EnvelopeMessage(b)
  {
    hide EnvelopeMessage, Utf8;
    AsciiIsUtf8(Fill(0xFFFF, 0));
    AsciiIsUtf8(Fill(0xFFFF, 0) + [1]);
    AsciiIsUtf8(Fill(0x100, 0));
    AsciiIsUtf8([0] + Fill(0x100, 0));
    EmptyText();
    var long: Str, longer: Str := Fill(0xFFFF, 0), Fill(0xFFFF, 0) + [1];
    var next: Str, further: Str := Fill(0x100, 0), [0] + Fill(0x100, 0);
    var e := Envelope(1, [], [], [], [], 0, 0, []);
    EnvelopeCollision(e, long, longer, next, further);
    a, b := e.(did := longer, audience := next), e.(did := long, audience := further);
    assert |a.did| != |b.did|;
  }

  lemma EmptyText()
    ensures Utf8([])
  {
  }

  // ----- all six kinds -----

  datatype Message =
    | OfAdoption(fields: Adoption.Fields)
    | OfStatus(proof: Status.Proof)
    | OfEnvelope(envelope: Envelope)
    | OfReply(reply: Reply)
    | OfManifest(manifest: Bytes)
    | OfMaker(model: Str, firmware: Str)

  /** The bytes that are hashed and signed. */
  function Preimage(m: Message): Bytes {
    match m
    case OfAdoption(f) => Adoption.Canonical(f)
    case OfStatus(p) => Status.Message(p)
    case OfEnvelope(e) => EnvelopeMessage(e)
    case OfReply(r) => ReplyMessage(r)
    case OfManifest(b) => ManifestMessage(b)
    case OfMaker(model, firmware) => MakerMessage(model, firmware)
  }

  /** What each signer lets through. The maker's attestation is the exception:
      its signer checks nothing, and beyond these lengths its messages do
      collide (`MakerBound`). */
  predicate Signable(onCurve: Bytes -> bool, m: Message) {
    match m
    case OfAdoption(f) => Adoption.Valid(f)
    case OfStatus(p) => Status.Framable(p)
    case OfEnvelope(e) => ValidateEnvelope(onCurve, e).Ok?
    case OfReply(r) => |r.context| < 0x1_0000
    case OfManifest(_) => true
    case OfMaker(model, firmware) => |model| < 0x1_0000 && |firmware| < 0x1_0000
  }

  predicate SameMessage(m: Message, n: Message) {
    if m.OfAdoption? && n.OfAdoption? then Adoption.SameFields(m.fields, n.fields) else m == n
  }

  /** Three bytes of the domain that differ between any two kinds. */
  function Mark(m: Message): Bytes {
    match m
    case OfAdoption(_) => Ascii("ado")
    case OfStatus(_) => Ascii("sta")
    case OfEnvelope(_) => Ascii("nce")
    case OfReply(_) => Ascii("set")
    case OfManifest(_) => Ascii("man")
    case OfMaker(_, _) => Ascii("mak")
  }

  function Domain(m: Message): Bytes {
    match m
    case OfAdoption(_) => Adoption.DOMAIN
    case OfStatus(_) => Status.DOMAIN
    case OfEnvelope(_) => NONCE_DOMAIN
    case OfReply(_) => REPLY_DOMAIN
    case OfManifest(_) => MANIFEST_DOMAIN
    case OfMaker(_, _) => MAKER_DOMAIN
  }

  lemma DomainIsMarked(m: Message)
    ensures |Domain(m)| >= 9 && Domain(m)[6..9] == Mark(m)
  {
    var d, mark := Domain(m), Mark(m);
    assert |d| >= 9 && |mark| == 3;
    assert d[6] == mark[0] && d[7] == mark[1] && d[8] == mark[2];
    assert d[6..9] == [d[6], d[7], d[8]] && mark == [mark[0], mark[1], mark[2]];
  }

  lemma PreimageHasDomain(m: Message)
    ensures Domain(m) <= Preimage(m)
  {
    hide Adoption.CapSection, Str16, Lp, EnvelopeTimes, Status.AfterNonce;
  }

  /** Every message bears its kind's mark from byte 6 on. */
  lemma PreimageIsMarked(m: Message)
    ensures |Preimage(m)| >= 9 && Preimage(m)[6..9] == Mark(m)
  {
    hide Domain, Preimage, Mark;
    DomainIsMarked(m);
    PreimageHasDomain(m);
    assert Preimage(m)[..|Domain(m)|] == Domain(m);
    assert Preimage(m)[6..9] == Domain(m)[6..9];
  }

  lemma MarksDiffer(m: Message, n: Message)
    requires Mark(m) == Mark(n)
    ensures m.OfAdoption? == n.OfAdoption? && m.OfStatus? == n.OfStatus? && m.OfEnvelope? == n.OfEnvelope?
    ensures m.OfReply? == n.OfReply? && m.OfManifest? == n.OfManifest? && m.OfMaker? == n.OfMaker?
  {
    assert Mark(m)[0] == Mark(n)[0] && Mark(m)[1] == Mark(n)[1] && Mark(m)[2] == Mark(n)[2];
  }

  /** One signature, one message: two messages of whatever kinds, each let
      through by its signer or, for a maker's, within its lengths, have the
      same preimage only when they are the same message. */
  lemma PreimagesAreJointlyInjective(onCurve: Bytes -> bool, m: Message, n: Message)
    requires Signable(onCurve, m) && Signable(onCurve, n) && Preimage(m) == Preimage(n)
    ensures SameMessage(m, n)
  {
    hide Adoption.Canonical, Adoption.Valid, Adoption.SameFields, Status.Message,
      EnvelopeMessage, ReplyMessage, MakerMessage, ValidateEnvelope, Mark;
    PreimageIsMarked(m);
    PreimageIsMarked(n);
    MarksDiffer(m, n);
    match (m, n)
    case (OfAdoption(f), OfAdoption(g)) =>
      AdoptionCodec.ValidIsFramed(f);
      AdoptionCodec.ValidIsFramed(g);
      AdoptionCodec.CanonicalInjective(f, g);
    case (OfStatus(p), OfStatus(q)) =>
      Status.MessageInjective(p, q);
    case (OfEnvelope(e), OfEnvelope(f)) =>
      ValidatedIsFramed(onCurve, e);
      ValidatedIsFramed(onCurve, f);
      EnvelopeInjective(e, f);
    case (OfReply(r), OfReply(s)) =>
      ReplyInjective(r, s);
    case (OfManifest(a), OfManifest(b)) =>
      PeelFixed(MANIFEST_DOMAIN, a, MANIFEST_DOMAIN, b);
    case (OfMaker(a, b), OfMaker(c, d)) =>
      MakerInjective(a, b, c, d);
    case _ =>
  }
}
