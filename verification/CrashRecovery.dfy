/** Power cuts: `apply` and `forget` finish, on any later boot, what a cut
    interrupted, whatever the cut and however many there were. */
module CrashRecovery {
  import opened Base
  import opened Store
  import opened Owner
  import opened Statement
  import opened SettingsAdoption

  const OWNER_NAMES: set<Name> := {KV_ADOPTION, KV_ADOPTION_KIND, KV_OWNER_PIN, KV_PIN_PROVISIONAL}

  /** Equal but for the four owner entries. */
  ghost predicate SameElsewhere(a: Entries, b: Entries) {
    a - OWNER_NAMES == b - OWNER_NAMES
  }

  function Granted(e: Entries, container: Bytes, pin: OwnerPin): Entries {
    e[KV_ADOPTION := container][KV_ADOPTION_KIND := KIND_STATEMENT]
     [KV_OWNER_PIN := pin.Encoded()][KV_PIN_PROVISIONAL := [1]]
  }

  lemma GrantedForgetsOwner(a: Entries, b: Entries, container: Bytes, pin: OwnerPin)
    requires SameElsewhere(a, b)
    ensures Granted(a, container, pin) == Granted(b, container, pin)
  {
    forall n
      ensures n in Granted(a, container, pin) <==> n in Granted(b, container, pin)
      ensures n in Granted(a, container, pin) ==> Granted(a, container, pin)[n] == Granted(b, container, pin)[n]
    {
      if n !in OWNER_NAMES {
        assert n in a <==> n in a - OWNER_NAMES;
        assert n in b <==> n in b - OWNER_NAMES;
        assert n in a ==> a[n] == (a - OWNER_NAMES)[n];
        assert n in b ==> b[n] == (b - OWNER_NAMES)[n];
      }
    }
  }

  /** The identity entries after the first `k` writes of a taken adoption. */
  function Partly(e: Entries, container: Bytes, pin: OwnerPin, k: nat): Entries {
    var e1 := if k >= 1 then e[KV_ADOPTION := container] else e;
    var e2 := if k >= 2 then e1[KV_ADOPTION_KIND := KIND_STATEMENT] else e1;
    var e3 := if k >= 3 then e2[KV_OWNER_PIN := pin.Encoded()] else e2;
    if k >= 4 then e3[KV_PIN_PROVISIONAL := [1]] else e3
  }

  lemma PartlySame(e: Entries, container: Bytes, pin: OwnerPin, k: nat)
    ensures SameElsewhere(Partly(e, container, pin, k), e)
  {
  }

  lemma TakeSteps(st: State, container: Bytes, pin: OwnerPin, k: nat)
    requires k <= 5
    ensures var after := PerformAll(st, TakeWrites(container, pin)[..k]);
      && after.identity == Snapshot(Partly(st.identity.entries, container, pin, k), st.identity.faults)
      && after.settings == if k < 5 then st.settings
                           else st.settings.(entries := st.settings.entries - {SETTINGS_ADOPT})
  {
    if k > 0 {
      TakeSteps(st, container, pin, k - 1);
      PerformNext(st, TakeWrites(container, pin), k - 1);
    }
  }

  /** The entry a cut tears, if any. */
  function TornName(cut: Cut): set<Name> {
    if !cut.torn then {}
    else if cut.writes == 0 then {KV_ADOPTION}
    else if cut.writes == 1 then {KV_ADOPTION_KIND}
    else if cut.writes == 2 then {KV_OWNER_PIN}
    else if cut.writes == 3 then {KV_PIN_PROVISIONAL}
    else {}
  }

  /** What a cut of a taken adoption leaves. */
  lemma TakeCut(st: State, container: Bytes, pin: OwnerPin, cut: Cut)
    ensures var after := CutRun(st, TakeWrites(container, pin), cut);
      if cut.writes >= 5 then
        && after.identity == Snapshot(Granted(st.identity.entries, container, pin), st.identity.faults)
        && after.settings == st.settings.(entries := st.settings.entries - {SETTINGS_ADOPT})
      else
        && after.identity
             == Snapshot(Partly(st.identity.entries, container, pin, cut.writes) - TornName(cut), st.identity.faults)
        && after.settings == st.settings
        && SameElsewhere(after.identity.entries, st.identity.entries)
  {
    var ws := TakeWrites(container, pin);
    if cut.writes >= 5 {
      assert ws[..5] == ws;
      TakeSteps(st, container, pin, 5);
    } else {
      TakeSteps(st, container, pin, cut.writes);
      PartlySame(st.identity.entries, container, pin, cut.writes);
    }
  }

  /** The pin read after a cut of a taken adoption: the old one until the pin
      write, the new one after it, none if that very write was torn. */
  lemma PinAfterTakeCut(st: State, container: Bytes, pin: OwnerPin, cut: Cut, pinned: Option<OwnerPin>)
    requires StoredPin(st.identity) == Ok(pinned)
    ensures StoredPin(CutRun(st, TakeWrites(container, pin), cut).identity)
         == Ok(if cut.writes >= 3 then Some(pin) else if cut.writes == 2 && cut.torn then None else pinned)
  {
    TakeCut(st, container, pin, cut);
    PinRoundTrip(pin.Encoded(), pin);
    var e := Partly(st.identity.entries, container, pin, cut.writes);
    assert KV_OWNER_PIN !in st.identity.faults;
    if cut.writes < 3 && !(cut.writes == 2 && cut.torn) {
      assert KV_OWNER_PIN in e <==> KV_OWNER_PIN in st.identity.entries;
    }
  }

  lemma RefuseCut(st: State, cut: Cut)
    ensures CutRun(st, [ClearDelivery], cut) == if cut.writes >= 1 then Perform(st, ClearDelivery) else st
  {
    PerformNone(st, [ClearDelivery]);
    PerformNext(st, [ClearDelivery], 0);
    assert [ClearDelivery][..1] == [ClearDelivery];
    assert [ClearDelivery][..0] == [];
  }

  ghost predicate Takes(w: World, st: State, myDid: Bytes, container: Bytes, checked: Checked) {
    var plan := ApplyPlan(w, st, myDid);
    && Lookup(st.settings, SETTINGS_ADOPT, ADOPT_MAX) == Ok(Some(container))
    && Check(w, container, myDid) == Ok(checked)
    && plan.Does? && plan.writes == TakeWrites(container, checked.pin)
  }

  /** Every plan fails, does nothing, clears the delivery, or takes it. */
  lemma PlanCases(w: World, st: State, myDid: Bytes)
    ensures var plan := ApplyPlan(w, st, myDid);
      || plan.Fails?
      || plan == Does([], Nothing)
      || (plan.value.Refused? && plan.writes == [ClearDelivery])
      || exists container, checked :: Takes(w, st, myDid, container, checked)
  {
    match Lookup(st.settings, SETTINGS_ADOPT, ADOPT_MAX)
    case Ok(Some(container)) =>
      match Check(w, container, myDid) {
        case Ok(checked) =>
          var plan := ApplyPlan(w, st, myDid);
          if plan.Does? && !plan.value.Refused? {
            assert Takes(w, st, myDid, container, checked);
          }
        case Err(_) =>
      }
    case _ =>
  }

  /** With the delivery gone there is nothing to do. */
  lemma NothingDelivered(w: World, st: State, myDid: Bytes)
    requires SETTINGS_ADOPT !in st.settings.faults && SETTINGS_ADOPT !in st.settings.entries
    ensures ApplyPlan(w, st, myDid) == Does([], Nothing)
  {
  }

  /** A boot after a refusal changes nothing more. */
  lemma ClearedTwice(w: World, st: State, myDid: Bytes)
    requires ApplyPlan(w, st, myDid).Does? && ApplyPlan(w, st, myDid).writes == [ClearDelivery]
    ensures var after := Perform(st, ClearDelivery);
      Final(after, ApplyPlan(w, after, myDid)) == after
  {
    hide Check, StoredPin;
    var after := Perform(st, ClearDelivery);
    if SETTINGS_ADOPT in st.settings.faults {
      RefuseCut(after, Cut(1, false));
      FinalIsLongCut(after, [ClearDelivery]);
      assert Perform(after, ClearDelivery) == after;
    } else {
      NothingDelivered(w, after, myDid);
    }
  }

  /** A boot after a cut takes the same adoption again. */
  lemma TakenAgain(w: World, st: State, myDid: Bytes, container: Bytes, checked: Checked, cut: Cut)
    requires Takes(w, st, myDid, container, checked) && cut.writes < 5
    ensures Takes(w, CutRun(st, TakeWrites(container, checked.pin), cut), myDid, container, checked)
  {
    hide Check, CutRun, StoredPin;
    TakeCut(st, container, checked.pin, cut);
    PinAfterTakeCut(st, container, checked.pin, cut, StoredPin(st.identity).value);
  }

  /** One cut, then a boot that finishes: the stores end as if there had been
      no cut. */
  lemma OneCut(w: World, st: State, myDid: Bytes, cut: Cut)
    ensures var plan := ApplyPlan(w, st, myDid);
      var after := Reached(st, plan, cut);
      Final(after, ApplyPlan(w, after, myDid)) == Final(st, plan)
  {
    hide Check, CutRun, StoredPin, TakePlan;
    var plan := ApplyPlan(w, st, myDid);
    var after := Reached(st, plan, cut);
    PlanCases(w, st, myDid);
    if plan.Fails? {
    } else if plan == Does([], Nothing) {
      NoWrites(st, cut);
    } else if plan.value.Refused? && plan.writes == [ClearDelivery] {
      RefuseCut(st, cut);
      RefuseCut(st, Cut(1, false));
      FinalIsLongCut(st, plan.writes);
      if cut.writes >= 1 {
        ClearedTwice(w, st, myDid);
      }
    } else {
      var container, checked :| Takes(w, st, myDid, container, checked);
      FinalIsLongCut(st, plan.writes);
      TakeCut(st, container, checked.pin, cut);
      TakeCut(st, container, checked.pin, Cut(5, false));
      if cut.writes >= 5 {
        NothingDelivered(w, after, myDid);
        NoWrites(after, cut);
      } else {
        TakenAgain(w, st, myDid, container, checked, cut);
        FinalIsLongCut(after, plan.writes);
        TakeCut(after, container, checked.pin, Cut(5, false));
        GrantedForgetsOwner(after.identity.entries, st.identity.entries, container, checked.pin);
      }
    }
  }

  lemma NoWrites(st: State, cut: Cut)
    ensures CutRun(st, [], cut) == st == PerformAll(st, [])
  {
  }

  lemma FinalIsLongCut(st: State, ws: seq<Write>)
    ensures PerformAll(st, ws) == CutRun(st, ws, Cut(|ws|, false))
  {
  }

  /** Boots cut one after another, each starting where the last was stopped. */
  function CutBoots(w: World, st: State, myDid: Bytes, cuts: seq<Cut>): State
    decreases |cuts|
  {
    if cuts == [] then st
    else CutBoots(w, Reached(st, ApplyPlan(w, st, myDid), cuts[0]), myDid, cuts[1..])
  }

  /** Crash recovery of `apply`: however often it is cut, and even when a cut
      loses the entry being replaced, the boot that finishes leaves both stores
      exactly as one uninterrupted boot would have. */
  lemma {:induction false} ApplyRecovers(w: World, st: State, myDid: Bytes, cuts: seq<Cut>)
    ensures var cut := CutBoots(w, st, myDid, cuts);
      Final(cut, ApplyPlan(w, cut, myDid)) == Final(st, ApplyPlan(w, st, myDid))
    decreases |cuts|
  {
    hide ApplyPlan, Reached, Final;
    if cuts != [] {
      OneCut(w, st, myDid, cuts[0]);
      ApplyRecovers(w, Reached(st, ApplyPlan(w, st, myDid), cuts[0]), myDid, cuts[1..]);
    }
  }

  /** Whether a pin is held after the cuts of a taken adoption: one past the
      pin's write leaves one, one that tears it leaves none, and any other
      leaves things as they were. */
  function HeldAfter(held: bool, cuts: seq<Cut>): bool
    decreases |cuts|
  {
    if cuts == [] then held
    else HeldAfter(cuts[0].writes >= 3 || (held && !(cuts[0].writes == 2 && cuts[0].torn)), cuts[1..])
  }

  /** No boot finished. */
  predicate AllCutShort(cuts: seq<Cut>) {
    forall i :: 0 <= i < |cuts| ==> cuts[i].writes < 5
  }

  /** The stores converge but the outcome does not. After any sequence of cuts
      the boot takes the adoption again and calls it a rehome exactly when it
      finds a pin; once a boot has finished there is nothing left to do. */
  lemma {:induction false} OutcomeAfterCuts(w: World, st: State, myDid: Bytes, container: Bytes, checked: Checked, cuts: seq<Cut>)
    requires Takes(w, st, myDid, container, checked)
    ensures var plan := ApplyPlan(w, CutBoots(w, st, myDid, cuts), myDid);
      plan == if !AllCutShort(cuts) then Does([], Nothing)
              else if HeldAfter(StoredPin(st.identity).value.Some?, cuts) then
                Does(TakeWrites(container, checked.pin), Rehomed(checked.ownerDid, checked.pin.roster))
              else Does(TakeWrites(container, checked.pin), Adopted(checked.ownerDid, checked.pin.roster))
    decreases |cuts|
  {
    hide Check, CutRun, StoredPin, TakeWrites, ApplyPlan, Takes;
    if cuts == [] {
      TakenOutcome(w, st, myDid, container, checked);
    } else {
      var cut := cuts[0];
      var next := Reached(st, ApplyPlan(w, st, myDid), cut);
      TakenOutcome(w, st, myDid, container, checked);
      assert AllCutShort(cuts) <==> cut.writes < 5 && AllCutShort(cuts[1..]);
      TakeCut(st, container, checked.pin, cut);
      if cut.writes >= 5 {
        NothingDelivered(w, next, myDid);
        NothingLeftToCut(w, next, myDid, cuts[1..]);
      } else {
        TakenAgain(w, st, myDid, container, checked, cut);
        PinAfterTakeCut(st, container, checked.pin, cut, StoredPin(st.identity).value);
        OutcomeAfterCuts(w, next, myDid, container, checked, cuts[1..]);
      }
    }
  }

  lemma TakenOutcome(w: World, st: State, myDid: Bytes, container: Bytes, checked: Checked)
    requires Takes(w, st, myDid, container, checked)
    ensures StoredPin(st.identity).Ok? && SETTINGS_ADOPT !in st.settings.faults
    ensures ApplyPlan(w, st, myDid)
         == Does(TakeWrites(container, checked.pin),
                 if StoredPin(st.identity).value.Some? then Rehomed(checked.ownerDid, checked.pin.roster)
                 else Adopted(checked.ownerDid, checked.pin.roster))
  {
    hide Check, StoredPin;
  }

  lemma {:induction false} NothingLeftToCut(w: World, st: State, myDid: Bytes, cuts: seq<Cut>)
    requires ApplyPlan(w, st, myDid) == Does([], Nothing)
    ensures CutBoots(w, st, myDid, cuts) == st
    decreases |cuts|
  {
    hide ApplyPlan;
    if cuts != [] {
      NoWrites(st, cuts[0]);
      NothingLeftToCut(w, st, myDid, cuts[1..]);
    }
  }

  /** At every cut of a boot, the status presents what it presented before, or
      nothing, or an error because the kind cannot be read, or the adoption
      being taken: never a mixture of the two. */
  lemma CutPresents(w: World, st: State, myDid: Bytes, container: Bytes, checked: Checked, cut: Cut)
    requires JsonGrammar(w) && Takes(w, st, myDid, container, checked)
    ensures var identity := Reached(st, ApplyPlan(w, st, myDid), cut).identity;
      var after := StoredAdoption(w, identity, myDid);
      || after == StoredAdoption(w, st.identity, myDid)
      || after == Ok(None)
      || (after.Err? && KV_ADOPTION_KIND in st.identity.faults)
      || after == Ok(Some(Stored(checked.ownerDid, MataStatement, container, Provisional(identity))))
  {
    hide Check, CutRun, StoredAdoption, ApplyPlan;
    var after := Reached(st, ApplyPlan(w, st, myDid), cut).identity;
    GrantAfterTakeCut(st, container, checked.pin, cut);
    if KV_ADOPTION in st.identity.faults {
      UnreadableGrant(w, st.identity, myDid);
      UnreadableGrant(w, after, myDid);
    } else if cut.writes >= 1 {
      PresentsStatement(w, after, myDid, container, checked);
    } else if cut.torn {
      NoGrant(w, after, myDid);
    }
  }

  /** The grant a cut of a taken adoption leaves: the old one before the first
      write, the new one after it, none if that write was torn. */
  lemma GrantAfterTakeCut(st: State, container: Bytes, pin: OwnerPin, cut: Cut)
    ensures var after := CutRun(st, TakeWrites(container, pin), cut).identity;
      && after.faults == st.identity.faults
      && (cut.writes >= 1 ==> KV_ADOPTION in after.entries && after.entries[KV_ADOPTION] == container)
      && (cut.writes == 0 && cut.torn ==> KV_ADOPTION !in after.entries)
      && (cut.writes == 0 && !cut.torn ==> after == st.identity)
  {
    hide CutRun, PerformAll;
    TakeCut(st, container, pin, cut);
    if cut.writes == 0 && !cut.torn {
      assert Partly(st.identity.entries, container, pin, 0) - {} == st.identity.entries;
    }
  }

  lemma UnreadableGrant(w: World, identity: Snapshot, myDid: Bytes)
    requires KV_ADOPTION in identity.faults
    ensures StoredAdoption(w, identity, myDid)
         == if identity.faults[KV_ADOPTION].BufferTooSmall? then Ok(None) else Err(identity.faults[KV_ADOPTION])
  {
  }

  lemma NoGrant(w: World, identity: Snapshot, myDid: Bytes)
    requires KV_ADOPTION !in identity.faults && KV_ADOPTION !in identity.entries
    ensures StoredAdoption(w, identity, myDid) == Ok(None)
  {
  }

  /** A stored statement is presented as itself or not at all. */
  lemma PresentsStatement(w: World, identity: Snapshot, myDid: Bytes, container: Bytes, checked: Checked)
    requires JsonGrammar(w) && Check(w, container, myDid) == Ok(checked) && |container| <= ADOPT_MAX
    requires KV_ADOPTION !in identity.faults
    requires KV_ADOPTION in identity.entries && identity.entries[KV_ADOPTION] == container
    ensures var presented := StoredAdoption(w, identity, myDid);
      || (presented.Err? && KV_ADOPTION_KIND in identity.faults)
      || presented == Ok(None)
      || presented == Ok(Some(Stored(checked.ownerDid, MataStatement, container, Provisional(identity))))
  {
    hide Check, Adoption.Decoded;
    NotAnEnvelope(w, container, myDid);
    EnvelopesBeginWithJ(container);
  }

  lemma EnvelopesBeginWithJ(bytes: Bytes)
    ensures Adoption.Decoded(bytes).Ok? ==> bytes != [] && bytes[0] == 'j' as int
  {
    if Adoption.Decoded(bytes).Ok? {
      var canonical := bytes[..|bytes| - Adoption.SIG_LEN];
      assert Adoption.DOMAIN <= canonical;
      assert canonical[0] == Adoption.DOMAIN[0];
    }
  }

  /** A first adoption cut after its second write shows an owner the device is
      not yet pinned to. */
  lemma OwnerShownBeforePinned(w: World, st: State, myDid: Bytes, container: Bytes, checked: Checked)
    requires Takes(w, st, myDid, container, checked) && StoredPin(st.identity) == Ok(None)
    requires KV_ADOPTION !in st.identity.faults && KV_ADOPTION_KIND !in st.identity.faults
    ensures var after := Reached(st, ApplyPlan(w, st, myDid), Cut(2, false)).identity;
      && StoredPin(after) == Ok(None)
      && StoredAdoption(w, after, myDid)
           == Ok(Some(Stored(checked.ownerDid, MataStatement, container, Provisional(after))))
  {
    hide Check, CutRun, StoredPin, Adoption.Decoded;
    TakeCut(st, container, checked.pin, Cut(2, false));
    PinAfterTakeCut(st, container, checked.pin, Cut(2, false), None);
  }

  /** The delivered statement passed the check, and its grant and pin are in:
      the first when nobody was pinned, else the pinned owner's with no older
      roster. */
  ghost predicate TookGrant(w: World, before: State, after: State, myDid: Bytes, first: bool) {
    && SETTINGS_ADOPT in before.settings.entries
    && Check(w, before.settings.entries[SETTINGS_ADOPT], myDid).Ok?
    && StoredPin(before.identity).Ok?
    && (var container, held := before.settings.entries[SETTINGS_ADOPT], StoredPin(before.identity).value;
        var pin := Check(w, container, myDid).value.pin;
        && after.identity.entries == Granted(before.identity.entries, container, pin)
        && StoredPin(after.identity) == Ok(Some(pin))
        && first == held.None?
        && (held.Some? ==> held.value.key == pin.key && held.value.roster <= pin.roster))
  }

  /** What one uninterrupted boot does. The delivery is always gone, so it
      cannot be taken twice; the grant is taken, with its pin, or the identity
      store is as it was. */
  lemma OneBoot(w: World, st: State, myDid: Bytes)
    requires ApplyPlan(w, st, myDid).Does? && SETTINGS_ADOPT !in st.settings.faults
    ensures var plan := ApplyPlan(w, st, myDid);
      var after := Final(st, plan);
      && after.settings.entries == st.settings.entries - {SETTINGS_ADOPT}
      && (plan.value.Refused? || plan.value.Nothing? ==> after.identity == st.identity)
      && (plan.value.Adopted? ==> TookGrant(w, st, after, myDid, true))
      && (plan.value.Rehomed? ==> TookGrant(w, st, after, myDid, false))
  {
    hide Check, CutRun, StoredPin;
    var plan := ApplyPlan(w, st, myDid);
    PlanCases(w, st, myDid);
    FinalIsLongCut(st, plan.writes);
    if plan == Does([], Nothing) {
      NoWrites(st, Cut(0, false));
      NothingToClear(w, st, myDid);
    } else if plan.value.Refused? && plan.writes == [ClearDelivery] {
      RefuseCut(st, Cut(1, false));
    } else {
      var container, checked :| Takes(w, st, myDid, container, checked);
      TakeCut(st, container, checked.pin, Cut(5, false));
      PinAfterTakeCut(st, container, checked.pin, Cut(5, false), StoredPin(st.identity).value);
    }
  }

  /** An adoption taken is presented: as the statement delivered, under its
      owner's name, and as provisional, since only its structure was checked. */
  lemma TakenIsPresented(w: World, st: State, myDid: Bytes, container: Bytes, checked: Checked)
    requires Takes(w, st, myDid, container, checked) && OWNER_NAMES !! st.identity.faults.Keys
    ensures var after := Final(st, ApplyPlan(w, st, myDid));
      && StoredAdoption(w, after.identity, myDid) == Ok(Some(Stored(checked.ownerDid, MataStatement, container, true)))
      && StoredPin(after.identity) == Ok(Some(checked.pin))
  {
    hide Check, CutRun, StoredPin, StoredAdoption;
    var plan := ApplyPlan(w, st, myDid);
    FinalIsLongCut(st, plan.writes);
    TakeCut(st, container, checked.pin, Cut(5, false));
    PinAfterTakeCut(st, container, checked.pin, Cut(5, false), StoredPin(st.identity).value);
    var after := Final(st, plan).identity;
    assert checked == Checked(checked.ownerDid, checked.pin);
    PresentedExactly(w, after, myDid, Stored(checked.ownerDid, MataStatement, container, true));
  }

  /** A boot that adopts or rehomes presents the owner it reports. */
  lemma BootPresents(w: World, st: State, myDid: Bytes)
    requires ApplyPlan(w, st, myDid).Does? && OWNER_NAMES !! st.identity.faults.Keys
    requires ApplyPlan(w, st, myDid).value.Adopted? || ApplyPlan(w, st, myDid).value.Rehomed?
    ensures var plan := ApplyPlan(w, st, myDid);
      && SETTINGS_ADOPT in st.settings.entries
      && StoredAdoption(w, Final(st, plan).identity, myDid)
           == Ok(Some(Stored(plan.value.ownerDid, MataStatement, st.settings.entries[SETTINGS_ADOPT], true)))
  {
    hide Check, StoredPin, StoredAdoption, Final;
    PlanCases(w, st, myDid);
    var container, checked :| Takes(w, st, myDid, container, checked);
    TakenIsPresented(w, st, myDid, container, checked);
  }

  lemma NothingToClear(w: World, st: State, myDid: Bytes)
    requires ApplyPlan(w, st, myDid) == Does([], Nothing)
    ensures SETTINGS_ADOPT !in st.settings.entries
  {
    hide Check, StoredPin;
  }

  // ----- forget -----

  lemma ForgetSteps(st: State, k: nat)
    requires k <= 4
    ensures var after := PerformAll(st, FORGET_WRITES[..k]);
      && after.settings == st.settings
      && after.identity.faults == st.identity.faults
      && after.identity.entries == st.identity.entries - set i | 0 <= i < k :: FORGET_WRITES[i].name
  {
    hide PerformAll;
    if k > 0 {
      ForgetSteps(st, k - 1);
      PerformNext(st, FORGET_WRITES, k - 1);
      var fewer := set i | 0 <= i < k - 1 :: FORGET_WRITES[i].name;
      assert (set i | 0 <= i < k :: FORGET_WRITES[i].name) == fewer + {FORGET_WRITES[k - 1].name};
    } else {
      PerformNone(st, FORGET_WRITES);
    }
  }

  /** What a cut of `forget` leaves: some of the four owner entries gone, the
      pin among them only when all are. */
  lemma ForgetCut(st: State, cut: Cut)
    ensures var after := CutRun(st, FORGET_WRITES, cut);
      && after.settings == st.settings
      && after.identity.faults == st.identity.faults
      && SameElsewhere(after.identity.entries, st.identity.entries)
      && (if cut.writes >= 4 then after.identity.entries == st.identity.entries - OWNER_NAMES
          else if KV_OWNER_PIN in st.identity.entries then
            KV_OWNER_PIN in after.identity.entries
            && after.identity.entries[KV_OWNER_PIN] == st.identity.entries[KV_OWNER_PIN]
          else KV_OWNER_PIN !in after.identity.entries)
      && (cut.writes >= 1 ==> KV_ADOPTION !in after.identity.entries)
  {
    var k := if cut.writes >= 4 then 4 else cut.writes;
    assert FORGET_WRITES[..4] == FORGET_WRITES;
    ForgetSteps(st, k);
    var gone := set i | 0 <= i < k :: FORGET_WRITES[i].name;
    assert forall i :: 0 <= i < k ==> FORGET_WRITES[i].name in gone;
    assert k == 4 ==> gone == OWNER_NAMES by {
      assert k == 4 ==> {FORGET_WRITES[0].name, FORGET_WRITES[1].name, FORGET_WRITES[2].name, FORGET_WRITES[3].name} <= gone;
    }
    assert gone <= OWNER_NAMES;
    assert k >= 1 ==> FORGET_WRITES[0].name in gone;
  }

  /** What one cut of `forget` leaves, and that the next call can start from
      it: the pin reads as it did, or all four owner entries are gone. */
  lemma OneForgetCut(st: State, cut: Cut)
    ensures var after := Reached(st, ForgetPlan(st), cut);
      && (StoredPin(after.identity) == StoredPin(st.identity) || OWNER_NAMES !! after.identity.entries.Keys)
      && SameElsewhere(after.identity.entries, st.identity.entries)
      && after.settings == st.settings
      && Final(after, ForgetPlan(after)) == Final(st, ForgetPlan(st))
      && (ForgetPlan(st).Does? ==> ForgetPlan(after).Does?)
  {
    hide PerformAll, CutRun;
    if ForgetPlan(st).Does? {
      var after := Reached(st, ForgetPlan(st), cut);
      ForgetCut(st, cut);
      ForgetCut(st, Cut(4, false));
      ForgetCut(after, Cut(4, false));
      FinalIsLongCut(st, FORGET_WRITES);
      FinalIsLongCut(after, FORGET_WRITES);
      assert ForgetPlan(after).Does?;
    }
  }

  /** Calls of `forget` cut one after another. */
  function CutForgets(st: State, cuts: seq<Cut>): State
    decreases |cuts|
  {
    if cuts == [] then st else CutForgets(Reached(st, ForgetPlan(st), cuts[0]), cuts[1..])
  }

  /** Once all four owner entries are gone they stay gone. */
  lemma {:induction false} ForgottenStaysForgotten(st: State, cuts: seq<Cut>)
    requires OWNER_NAMES !! st.identity.entries.Keys
    ensures OWNER_NAMES !! CutForgets(st, cuts).identity.entries.Keys
    decreases |cuts|
  {
    hide Reached, ForgetPlan;
    if cuts != [] {
      ForgetAddsNothing(st, cuts[0]);
      ForgottenStaysForgotten(Reached(st, ForgetPlan(st), cuts[0]), cuts[1..]);
    }
  }

  lemma ForgetAddsNothing(st: State, cut: Cut)
    ensures Reached(st, ForgetPlan(st), cut).identity.entries.Keys <= st.identity.entries.Keys
  {
    hide PerformAll;
    if ForgetPlan(st).Does? {
      var k := if cut.writes >= 4 then 4 else cut.writes;
      assert FORGET_WRITES[..4] == FORGET_WRITES;
      ForgetSteps(st, k);
    }
  }

  /** `forget` however often it is cut, from any state: the pin reads as it
      did, or all four owner entries are gone; nothing else has changed; and
      the call that finishes ends where one uninterrupted call would have,
      with the four entries, and no others, removed. */
  lemma {:induction false} ForgetRecovers(st: State, cuts: seq<Cut>)
    ensures var after := CutForgets(st, cuts);
      && (StoredPin(after.identity) == StoredPin(st.identity) || OWNER_NAMES !! after.identity.entries.Keys)
      && SameElsewhere(after.identity.entries, st.identity.entries)
      && after.settings == st.settings
      && Final(after, ForgetPlan(after)) == Final(st, ForgetPlan(st))
    ensures ForgetPlan(st).Does? ==>
      Final(st, ForgetPlan(st)).identity.entries == st.identity.entries - OWNER_NAMES
    decreases |cuts|
  {
    hide Reached, Final, ForgetPlan, StoredPin, SameElsewhere;
    ForgetFinishes(st);
    if cuts == [] {
      SameAsItself(st.identity.entries);
    } else {
      var next := Reached(st, ForgetPlan(st), cuts[0]);
      OneForgetCut(st, cuts[0]);
      ForgetRecovers(next, cuts[1..]);
      if OWNER_NAMES !! next.identity.entries.Keys {
        ForgottenStaysForgotten(next, cuts[1..]);
      }
      SameTwice(CutForgets(st, cuts).identity.entries, next.identity.entries, st.identity.entries);
    }
  }

  lemma ForgetFinishes(st: State)
    ensures ForgetPlan(st).Does? ==>
      Final(st, ForgetPlan(st)).identity.entries == st.identity.entries - OWNER_NAMES
  {
    hide PerformAll, CutRun;
    ForgetCut(st, Cut(4, false));
    FinalIsLongCut(st, FORGET_WRITES);
  }

  lemma SameAsItself(a: Entries)
    ensures SameElsewhere(a, a)
  {
  }

  lemma SameTwice(a: Entries, b: Entries, c: Entries)
    requires SameElsewhere(a, b) && SameElsewhere(b, c)
    ensures SameElsewhere(a, c)
  {
  }

  /** After a finished `forget` any owner's valid statement is a first adoption. */
  lemma ForgottenAdoptsAfresh(w: World, st: State, myDid: Bytes, container: Bytes)
    requires ForgetPlan(st).Does?
    requires Lookup(st.settings, SETTINGS_ADOPT, ADOPT_MAX) == Ok(Some(container))
    requires Check(w, container, myDid).Ok?
    ensures var c := Check(w, container, myDid).value;
      var after := Final(st, ForgetPlan(st));
      && ApplyPlan(w, after, myDid) == Does(TakeWrites(container, c.pin), Adopted(c.ownerDid, c.pin.roster))
      && StoredPin(Final(after, ApplyPlan(w, after, myDid)).identity) == Ok(Some(c.pin))
  {
    hide PerformAll, CutRun, Check;
    var c := Check(w, container, myDid).value;
    ForgetCut(st, Cut(4, false));
    FinalIsLongCut(st, FORGET_WRITES);
    var after := Final(st, ForgetPlan(st));
    FinalIsLongCut(after, TakeWrites(container, c.pin));
    PinAfterTakeCut(after, container, c.pin, Cut(5, false), None);
  }
}
