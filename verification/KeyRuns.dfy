/** The caches beside the key are transparent over every run of honest use and
    foreign writes. */
module KeyRuns {
  import opened Base
  import opened Store
  import opened Key

  /** Where an entry's tag holds under `secret`, the entry says the truth. */
  predicate GenuineFor(c: Curve, secret: Bytes32, e: Bytes) {
    && (TaggedSig(c, secret, e) ==> e[32..96] == c.sign(secret, e[..32]))
    && (TaggedPub(c, secret, e) ==> e[..65] == c.public(secret))
  }

  predicate Genuine(c: Curve, keys: set<Bytes32>, e: Bytes) {
    forall s :: s in keys ==> GenuineFor(c, s, e)
  }

  /** A store, and every value that was ever in it. */
  datatype State = State(entries: Entries, seen: set<Bytes>)

  datatype Event =
      /** `sign_prehash_cached` by any of the keys, under any name. */
    | Sign(secret: Bytes32, name: Name, prehash: Bytes32, fate: Fate)
      /** `load_cached`. */
    | Load(id: Bytes, fate: Fate)
      /** Someone else writes a value. */
    | Foreign(name: Name, value: Bytes)
      /** Someone else puts back, under any name, a value seen before. */
    | Replay(name: Name, value: Bytes)
    | Remove(name: Name)

  function Keep(st: State, name: Name, value: Bytes, fate: Fate): State {
    State(Written(st.entries, name, value, fate), st.seen + {value})
  }

  function Step(c: Curve, faults: map<Name, Error>, st: State, ev: Event): State {
    var s := Snapshot(st.entries, faults);
    match ev
    case Sign(secret, name, prehash, fate) =>
      if CachedSig(c, s, secret, name, prehash).Some? then st
      else Keep(st, name, SigEntry(c, secret, prehash), fate)
    case Load(id, fate) =>
      if RefreshesPub(c, s, id) then Keep(st, KV_PUB, PubEntry(c, Loaded(c, s, id).value.value.secret), fate) else st
    case Foreign(name, value) => Keep(st, name, value, Done)
    case Replay(name, value) => Keep(st, name, value, Done)
    case Remove(name) => st.(entries := st.entries - {name})
  }

  function Run(c: Curve, faults: map<Name, Error>, st: State, evs: seq<Event>): State {
    if evs == [] then st else Step(c, faults, Run(c, faults, st, evs[..|evs| - 1]), evs[|evs| - 1])
  }

  /** `e` holds no tag that holds under one of `keys` but `writer`'s own. */
  predicate TaggedForNoOther(c: Curve, keys: set<Bytes32>, writer: Bytes32, e: Bytes) {
    forall s :: s in keys && s != writer ==> !TaggedSig(c, s, e) && !TaggedPub(c, s, e)
  }

  /** What the run's events may be: signing is by the honest keys; no entry
      written, by the keys or by anyone, carries a tag that holds under an
      honest key that did not write it; and a replayed value was in the store
      before. */
  predicate Admissible(c: Curve, faults: map<Name, Error>, keys: set<Bytes32>, st: State, ev: Event) {
    var s := Snapshot(st.entries, faults);
    match ev
    case Sign(secret, name, prehash, _) =>
      && secret in keys
      && (CachedSig(c, s, secret, name, prehash).None? ==>
            TaggedForNoOther(c, keys, secret, SigEntry(c, secret, prehash)))
    case Load(id, _) =>
      RefreshesPub(c, s, id) ==>
        var secret := Loaded(c, s, id).value.value.secret;
        TaggedForNoOther(c, keys, secret, PubEntry(c, secret))
    case Foreign(_, value) => forall s :: s in keys ==> !TaggedSig(c, s, value) && !TaggedPub(c, s, value)
    case Replay(_, value) => value in st.seen
    case Remove(_) => true
  }

  predicate AllAdmissible(c: Curve, faults: map<Name, Error>, keys: set<Bytes32>, st: State, evs: seq<Event>) {
    evs == [] ||
    (var before := evs[..|evs| - 1];
     && AllAdmissible(c, faults, keys, st, before)
     && Admissible(c, faults, keys, Run(c, faults, st, before), evs[|evs| - 1]))
  }

  /** Everything seen is genuine and everything stored was seen. */
  predicate Honest(c: Curve, keys: set<Bytes32>, st: State) {
    && (forall v :: v in st.seen ==> Genuine(c, keys, v))
    && (forall n :: n in st.entries ==> st.entries[n] in st.seen)
  }

  /** A remembered signature is genuine for every honest key. */
  lemma SigEntryGenuine(c: Curve, keys: set<Bytes32>, secret: Bytes32, prehash: Bytes32)
    requires TaggedForNoOther(c, keys, secret, SigEntry(c, secret, prehash))
    ensures Genuine(c, keys, SigEntry(c, secret, prehash)) && TaggedSig(c, secret, SigEntry(c, secret, prehash))
  {
    hide Hmac;
    var sig := c.sign(secret, prehash);
    var head := prehash + sig;
    var e := SigEntry(c, secret, prehash);
    assert e[..96] == head && e[96..] == SigTag(c, secret, head);
    assert e[..32] == prehash && e[32..96] == sig;
  }

  /** So is a cached public key. */
  lemma PubEntryGenuine(c: Curve, keys: set<Bytes32>, secret: Bytes32)
    requires TaggedForNoOther(c, keys, secret, PubEntry(c, secret))
    ensures Genuine(c, keys, PubEntry(c, secret)) && TaggedPub(c, secret, PubEntry(c, secret))
  {
    hide Hmac;
    var point := c.public(secret);
    var e := PubEntry(c, secret);
    assert e[..65] == point && e[65..] == PubTag(c, secret, point);
  }

  lemma HonestStore(c: Curve, keys: set<Bytes32>, st: State, name: Name, value: Bytes, fate: Fate)
    requires Honest(c, keys, st) && Genuine(c, keys, value)
    ensures Honest(c, keys, Keep(st, name, value, fate))
  {
  }

  lemma HonestStep(c: Curve, faults: map<Name, Error>, keys: set<Bytes32>, st: State, ev: Event)
    requires Honest(c, keys, st) && Admissible(c, faults, keys, st, ev)
    ensures Honest(c, keys, Step(c, faults, st, ev))
  {
    hide Genuine, TaggedForNoOther, SigEntry, PubEntry, Keep, Honest, TaggedPub, TaggedSig, RefreshesPub, Loaded, CachedSig;
    var s := Snapshot(st.entries, faults);
    match ev
    case Sign(secret, name, prehash, fate) =>
      if CachedSig(c, s, secret, name, prehash).None? {
        SigEntryGenuine(c, keys, secret, prehash);
        HonestStore(c, keys, st, name, SigEntry(c, secret, prehash), fate);
      }
    case Load(id, fate) =>
      if RefreshesPub(c, s, id) {
        RefreshingHasAKey(c, s, id);
        var secret := Loaded(c, s, id).value.value.secret;
        PubEntryGenuine(c, keys, secret);
        HonestStore(c, keys, st, KV_PUB, PubEntry(c, secret), fate);
      }
    case Foreign(name, value) =>
      UntaggedIsGenuine(c, keys, value);
      HonestStore(c, keys, st, name, value, Done);
    case Replay(name, value) =>
      SeenIsGenuine(c, keys, st, value);
      HonestStore(c, keys, st, name, value, Done);
    case Remove(name) =>
      HonestRemove(c, keys, st, name);
  }

  lemma RefreshingHasAKey(c: Curve, s: Snapshot, id: Bytes)
    requires RefreshesPub(c, s, id)
    ensures Loaded(c, s, id).Ok? && Loaded(c, s, id).value.Some?
  {
  }

  lemma UntaggedIsGenuine(c: Curve, keys: set<Bytes32>, value: Bytes)
    requires forall s :: s in keys ==> !TaggedSig(c, s, value) && !TaggedPub(c, s, value)
    ensures Genuine(c, keys, value)
  {
  }

  lemma SeenIsGenuine(c: Curve, keys: set<Bytes32>, st: State, value: Bytes)
    requires Honest(c, keys, st) && value in st.seen
    ensures Genuine(c, keys, value)
  {
  }

  lemma HonestRemove(c: Curve, keys: set<Bytes32>, st: State, name: Name)
    requires Honest(c, keys, st)
    ensures Honest(c, keys, st.(entries := st.entries - {name}))
  {
  }

  lemma {:induction false} HonestRun(c: Curve, faults: map<Name, Error>, keys: set<Bytes32>, st: State, evs: seq<Event>)
    requires Honest(c, keys, st) && AllAdmissible(c, faults, keys, st, evs)
    ensures Honest(c, keys, Run(c, faults, st, evs))
  {
    hide Honest, Step, Admissible;
    if evs != [] {
      var before := evs[..|evs| - 1];
      HonestRun(c, faults, keys, st, before);
      HonestStep(c, faults, keys, Run(c, faults, st, before), evs[|evs| - 1]);
    }
  }

  /** The signature cache is transparent: after any admissible run a cached
      signing returns exactly the signature signing makes, for every honest
      key, name and prehash. */
  lemma SignatureCacheTransparent(c: Curve, faults: map<Name, Error>, keys: set<Bytes32>, st: State, evs: seq<Event>,
                                  secret: Bytes32, name: Name, prehash: Bytes32)
    requires Honest(c, keys, st) && AllAdmissible(c, faults, keys, st, evs) && secret in keys
    ensures SignedCached(c, Snapshot(Run(c, faults, st, evs).entries, faults), secret, name, prehash)
         == c.sign(secret, prehash)
  {
    hide Run, TaggedSig, TaggedPub;
    HonestRun(c, faults, keys, st, evs);
    var now := Run(c, faults, st, evs);
    if name in now.entries {
      assert GenuineFor(c, secret, now.entries[name]);
    }
  }

  /** The public-key cache is transparent: after any admissible run a cached
      load returns what loading returns, errors included, as long as a stored
      secret is an honest key's. */
  lemma PublicKeyCacheTransparent(c: Curve, faults: map<Name, Error>, keys: set<Bytes32>, st: State, evs: seq<Event>, id: Bytes)
    requires Honest(c, keys, st) && AllAdmissible(c, faults, keys, st, evs)
    requires var now := Run(c, faults, st, evs).entries;
      KV_KEY in now && |now[KV_KEY]| == 32 ==> now[KV_KEY] in keys
    ensures var s := Snapshot(Run(c, faults, st, evs).entries, faults);
      LoadedCached(c, s, id) == Loaded(c, s, id)
  {
    hide Run, TaggedSig, TaggedPub;
    HonestRun(c, faults, keys, st, evs);
    var now := Run(c, faults, st, evs);
    var s := Snapshot(now.entries, faults);
    var loaded := Loaded(c, s, id);
    if loaded.Ok? && loaded.value.Some? && KV_PUB in now.entries {
      assert loaded.value.value.secret == now.entries[KV_KEY];
      assert GenuineFor(c, loaded.value.value.secret, now.entries[KV_PUB]);
    }
  }

  /** A load that refreshes the cache repairs it: once its write succeeds the
      entry is taken, and gives the right public key. */
  lemma RefreshRepairs(c: Curve, s: Snapshot, secret: Bytes32)
    requires c.isPoint(c.public(secret)) && KV_PUB !in s.faults
    ensures CachedPub(c, s.(entries := Written(s.entries, KV_PUB, PubEntry(c, secret), Done)), secret)
         == Some(c.public(secret))
  {
    hide Hmac;
    var e := PubEntry(c, secret);
    assert e[..65] == c.public(secret) && e[65..] == PubTag(c, secret, c.public(secret));
  }

  /** A signing that is remembered is answered from the cache next time. */
  lemma RememberedSignature(c: Curve, s: Snapshot, secret: Bytes32, name: Name, prehash: Bytes32)
    requires name !in s.faults
    ensures CachedSig(c, s.(entries := Written(s.entries, name, SigEntry(c, secret, prehash), Done)), secret, name, prehash)
         == Some(c.sign(secret, prehash))
  {
    hide Hmac;
    var head := prehash + c.sign(secret, prehash);
    var e := SigEntry(c, secret, prehash);
    assert e[..96] == head && e[96..] == SigTag(c, secret, head);
    assert e[..32] == prehash && e[32..96] == c.sign(secret, prehash);
  }
}
