/** The device's DID over its whole life: adoptions, forgets, cached signings,
    boots and power cuts leave the stored key, and so the DID, as it is. */
module Identity {
  import opened Base
  import opened Store
  import opened Key
  import KeyRuns
  import Owner
  import OwnerRuns
  import SettingsAdoption
  import CrashRecovery

  datatype Event =
      /** Any owner event, foreign writes to other names included. */
    | Ownership(ev: OwnerRuns.Event)
      /** A cached signing, by any key. */
    | Sign(secret: Bytes32, name: Name, prehash: Bytes32, fate: Fate)
      /** A boot: `load_or_generate`, or its cached form. */
    | Boot(id: Bytes, cached: bool, fate: Fate)

  function Step(d: OwnerRuns.Device, c: Curve, st: SettingsAdoption.State, ev: Event): SettingsAdoption.State {
    match ev
    case Ownership(e) => OwnerRuns.Step(d, st, e)
    case Sign(secret, name, prehash, fate) =>
      if CachedSig(c, st.identity, secret, name, prehash).Some? then st
      else OwnerRuns.WithIdentity(st, Written(st.identity.entries, name, SigEntry(c, secret, prehash), fate))
    case Boot(id, cached, fate) =>
      if cached && RefreshesPub(c, st.identity, id) then
        var secret := Loaded(c, st.identity, id).value.value.secret;
        OwnerRuns.WithIdentity(st, Written(st.identity.entries, KV_PUB, PubEntry(c, secret), fate))
      else st
  }

  function Run(d: OwnerRuns.Device, c: Curve, st: SettingsAdoption.State, evs: seq<Event>): SettingsAdoption.State {
    if evs == [] then st else Step(d, c, Run(d, c, st, evs[..|evs| - 1]), evs[|evs| - 1])
  }

  /** Signings and foreign writes keep off the key's own name, and a foreign
      public-key entry whose tag holds under the secret is the genuine one, put
      back. */
  predicate Admissible(c: Curve, secret: Bytes32, ev: Event) {
    match ev
    case Ownership(Unrelated(name, value)) =>
      && name != KV_KEY
      && (name == KV_PUB && value.Some? && TaggedPub(c, secret, value.value) ==> value.value[..65] == c.public(secret))
    case Sign(_, name, _, _) => name != KV_KEY
    case _ => true
  }

  /** The store holds `secret`, and no lie about it. */
  predicate Holds(c: Curve, identity: Snapshot, secret: Bytes32) {
    && KV_KEY !in identity.faults
    && KV_KEY in identity.entries && identity.entries[KV_KEY] == secret
    && (KV_PUB in identity.entries && TaggedPub(c, secret, identity.entries[KV_PUB]) ==>
          identity.entries[KV_PUB][..65] == c.public(secret))
  }

  lemma ApplyFrame(d: OwnerRuns.Device, st: SettingsAdoption.State, cut: SettingsAdoption.Cut)
    ensures var after := OwnerRuns.Step(d, st, OwnerRuns.Boot(cut)).identity;
      CrashRecovery.SameElsewhere(after.entries, st.identity.entries) && after.faults == st.identity.faults
  {
    hide SettingsAdoption.CutRun, SettingsAdoption.ApplyPlan;
    CrashRecovery.PlanCases(d.w, st, d.myDid);
    CrashRecovery.RefuseCut(st, cut);
    CrashRecovery.NoWrites(st, cut);
    var plan := SettingsAdoption.ApplyPlan(d.w, st, d.myDid);
    if plan.Does? && plan.writes != [SettingsAdoption.ClearDelivery] && plan.writes != [] {
      var container, checked :| CrashRecovery.Takes(d.w, st, d.myDid, container, checked);
      CrashRecovery.TakeCut(st, container, checked.pin, cut);
      GrantedFrame(st.identity.entries, container, checked.pin);
    }
  }

  lemma GrantedFrame(e: Entries, container: Bytes, pin: Owner.OwnerPin)
    ensures CrashRecovery.SameElsewhere(CrashRecovery.Granted(e, container, pin), e)
  {
  }

  /** An adoption, a `forget` or a boot's `apply` touches only the owner entries. */
  lemma OwnerStepFrame(d: OwnerRuns.Device, st: SettingsAdoption.State, ev: OwnerRuns.Event)
    requires !ev.Unrelated?
    ensures var after := OwnerRuns.Step(d, st, ev).identity;
      CrashRecovery.SameElsewhere(after.entries, st.identity.entries) && after.faults == st.identity.faults
  {
    hide SettingsAdoption.CutRun, SettingsAdoption.ApplyPlan, OwnerRuns.MeshPin;
    match ev
    case Boot(cut) =>
      ApplyFrame(d, st, cut);
    case Forgetting(cut) =>
      CrashRecovery.ForgetCut(st, cut);
    case _ =>
  }

  lemma SameKeyEntries(a: Entries, b: Entries, name: Name)
    requires CrashRecovery.SameElsewhere(a, b) && name !in CrashRecovery.OWNER_NAMES
    ensures name in a <==> name in b
    ensures name in a ==> a[name] == b[name]
  {
    assert name in a <==> name in a - CrashRecovery.OWNER_NAMES;
    assert name in b <==> name in b - CrashRecovery.OWNER_NAMES;
    assert name in a ==> a[name] == (a - CrashRecovery.OWNER_NAMES)[name];
  }

  lemma HoldsAfterStep(d: OwnerRuns.Device, c: Curve, st: SettingsAdoption.State, secret: Bytes32, ev: Event)
    requires Holds(c, st.identity, secret) && Admissible(c, secret, ev)
    ensures Holds(c, Step(d, c, st, ev).identity, secret)
  {
    hide Hmac, SettingsAdoption.Reached, OwnerRuns.MeshPin;
    match ev
    case Ownership(e) =>
      if !e.Unrelated? {
        OwnerStepFrame(d, st, e);
        var after := OwnerRuns.Step(d, st, e).identity.entries;
        SameKeyEntries(after, st.identity.entries, KV_KEY);
        SameKeyEntries(after, st.identity.entries, KV_PUB);
      }
    case Sign(_, _, _, _) =>
    case Boot(id, cached, fate) =>
      assert PubEntry(c, secret)[..65] == c.public(secret);
  }

  lemma {:induction false} HoldsAfterRun(d: OwnerRuns.Device, c: Curve, st: SettingsAdoption.State, secret: Bytes32,
                                         evs: seq<Event>)
    requires Holds(c, st.identity, secret) && forall i :: 0 <= i < |evs| ==> Admissible(c, secret, evs[i])
    ensures Holds(c, Run(d, c, st, evs).identity, secret)
  {
    hide Step, Holds, Admissible;
    if evs != [] {
      var before := evs[..|evs| - 1];
      HoldsAfterRun(d, c, st, secret, before);
      HoldsAfterStep(d, c, Run(d, c, st, before), secret, evs[|evs| - 1]);
    }
  }

  /** The identity is stable. Once a valid secret is stored, after any run of
      ownership events, cuts, signings and boots, every boot gives that key
      and that DID, cached or not, whatever the generator would draw. */
  lemma IdentityIsStable(d: OwnerRuns.Device, c: Curve, st: SettingsAdoption.State, secret: Bytes32, evs: seq<Event>,
                         id: Bytes, e: Entropy, at: nat)
    requires Holds(c, st.identity, secret) && c.isScalar(secret) && ValidId(id)
    requires forall i :: 0 <= i < |evs| ==> Admissible(c, secret, evs[i])
    ensures var now := Run(d, c, st, evs).identity;
      var key := DeviceKey(secret, c.public(secret), id);
      && BootKey(c, now, id, e, at) == Ok(key)
      && LoadedCached(c, now, id) == Ok(Some(key))
      && now.entries[KV_KEY] == secret
      && BootKey(c, st.identity, id, e, at).Ok?
      && BootKey(c, st.identity, id, e, at).value.DidText(c) == key.DidText(c)
  {
    hide Step, Hmac, Did.Text;
    HoldsAfterRun(d, c, st, secret, evs);
  }

  /** The same, said of the method a firmware calls at boot. */
  method BootTwice(c: Curve, kv: Kv, first: Rng, second: Rng, id: Bytes)
    returns (a: Result<DeviceKey, Error>, b: Result<DeviceKey, Error>)
    requires first != second
    requires KV_KEY in kv.entries && |kv.entries[KV_KEY]| == 32
    requires Holds(c, kv.Snap(), kv.entries[KV_KEY]) && c.isScalar(kv.entries[KV_KEY]) && ValidId(id)
    modifies kv`entries, first`drawn, second`drawn
    ensures a == b == Ok(DeviceKey(old(kv.entries[KV_KEY]), c.public(old(kv.entries[KV_KEY])), id))
    ensures KV_KEY in kv.entries && kv.entries[KV_KEY] == old(kv.entries[KV_KEY])
  {
    hide Hmac;
    ghost var secret := kv.entries[KV_KEY];
    assert LoadedCached(c, kv.Snap(), id) == Ok(Some(DeviceKey(secret, c.public(secret), id)));
    a := LoadOrGenerateCached(c, kv, first, id);
    b := LoadOrGenerate(c, kv, second, id);
  }
}
