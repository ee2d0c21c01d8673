/** Whole runs of a device: who owns it, over any interleaving of deliveries,
    boots, forgets, mesh adoptions and power cuts. */
module OwnerRuns {
  import opened Base
  import opened Store
  import opened Owner
  import opened Statement
  import opened SettingsAdoption
  import opened CrashRecovery
  import Adoption
  import AdoptionCodec
  import Did

  /** The device: its libraries, the signature check, and its own DID. */
  datatype Device = Device(w: World, verify: (Bytes33, Bytes32, Bytes64) -> bool, myDid: Bytes)

  datatype Event =
      /** Whoever holds the cable rewrites the settings to anything. */
    | Deliver(entries: Entries)
    | Boot(cut: Cut)
    | Forgetting(cut: Cut)
      /** An envelope from the mesh; if accepted, its pin is stored. */
    | Mesh(envelope: Bytes, now: Option<u64>, fate: Fate)
      /** Any other change to the identity store but to the pin itself. */
    | Unrelated(name: Name, value: Option<Bytes>)

  function CryptoOf(d: Device): Owner.Crypto {
    Owner.Crypto.Crypto(d.w.digest, d.verify)
  }

  /** The pin a mesh adoption would store. */
  function MeshPin(d: Device, st: State, envelope: Bytes, now: Option<u64>): Option<OwnerPin> {
    match StoredPin(st.identity)
    case Err(_) => None
    case Ok(pinned) =>
      match AcceptEnvelope(CryptoOf(d), envelope, d.myDid, pinned, now)
      case Ok(pin) => Some(pin)
      case Err(_) => None
  }

  function WithIdentity(st: State, e: Entries): State {
    st.(identity := st.identity.(entries := e))
  }

  function Step(d: Device, st: State, ev: Event): State {
    match ev
    case Deliver(e) => st.(settings := st.settings.(entries := e))
    case Boot(cut) => Reached(st, ApplyPlan(d.w, st, d.myDid), cut)
    case Forgetting(cut) => Reached(st, ForgetPlan(st), cut)
    case Mesh(envelope, now, fate) =>
      (match MeshPin(d, st, envelope, now)
       case Some(pin) => WithIdentity(st, Written(st.identity.entries, KV_OWNER_PIN, pin.Encoded(), fate))
       case None => st)
    case Unrelated(name, value) =>
      if name == KV_OWNER_PIN then st
      else if value.Some? then WithIdentity(st, st.identity.entries[name := value.value])
      else WithIdentity(st, st.identity.entries - {name})
  }

  function Run(d: Device, st: State, evs: seq<Event>): State {
    if evs == [] then st else Step(d, Run(d, st, evs[..|evs| - 1]), evs[|evs| - 1])
  }

  // ----- what one step does to the pin -----

  /** A `forget` that reached its last removal. */
  predicate Releases(st: State, ev: Event) {
    ev.Forgetting? && ForgetPlan(st).Does? && ev.cut.writes >= 4
  }

  function TakenByBoot(d: Device, st: State): Option<OwnerPin> {
    match Lookup(st.settings, SETTINGS_ADOPT, ADOPT_MAX)
    case Ok(Some(container)) =>
      (match Check(d.w, container, d.myDid)
       case Ok(checked) =>
         var plan := ApplyPlan(d.w, st, d.myDid);
         if plan.Does? && !plan.value.Refused? then Some(checked.pin) else None
       case Err(_) => None)
    case _ => None
  }

  /** The pin this step writes over the old one. */
  function Taken(d: Device, st: State, ev: Event): Option<OwnerPin> {
    match ev
    case Boot(cut) => if cut.writes >= 3 then TakenByBoot(d, st) else None
    case Mesh(envelope, now, fate) => if fate.Done? then MeshPin(d, st, envelope, now) else None
    case _ => None
  }

  /** A cut that tears the write of the pin itself. */
  predicate TearsPin(d: Device, st: State, ev: Event) {
    match ev
    case Boot(cut) => cut.writes == 2 && cut.torn && TakenByBoot(d, st).Some?
    case Mesh(envelope, now, fate) => fate.Torn? && MeshPin(d, st, envelope, now).Some?
    case _ => false
  }

  predicate LosesPin(d: Device, st: State, ev: Event) {
    Releases(st, ev) || TearsPin(d, st, ev)
  }

  lemma BootPin(d: Device, st: State, cut: Cut, pinned: Option<OwnerPin>)
    requires StoredPin(st.identity) == Ok(pinned)
    ensures var taken := TakenByBoot(d, st);
      && (taken.Some? ==> Follows(pinned, taken.value))
      && StoredPin(Step(d, st, Boot(cut)).identity)
           == Ok(if taken.None? then pinned
                 else if cut.writes >= 3 then taken
                 else if cut.writes == 2 && cut.torn then None
                 else pinned)
  {
    hide Check, CutRun, StoredPin;
    PlanCases(d.w, st, d.myDid);
    var plan := ApplyPlan(d.w, st, d.myDid);
    if plan.Does? {
      RefuseCut(st, cut);
      NoWrites(st, cut);
      if !plan.value.Refused? && plan != Does([], Nothing) {
        var container, checked :| Takes(d.w, st, d.myDid, container, checked);
        PinAfterTakeCut(st, container, checked.pin, cut, pinned);
      }
    }
  }

  lemma ForgetPin(st: State, cut: Cut, pinned: Option<OwnerPin>)
    requires StoredPin(st.identity) == Ok(pinned)
    ensures StoredPin(Reached(st, ForgetPlan(st), cut).identity) == Ok(if cut.writes >= 4 then None else pinned)
  {
    hide CutRun;
    ForgetCut(st, cut);
  }

  lemma MeshPinFollows(d: Device, st: State, envelope: Bytes, now: Option<u64>, pinned: Option<OwnerPin>)
    requires StoredPin(st.identity) == Ok(pinned)
    ensures var pin := MeshPin(d, st, envelope, now); pin.Some? ==> Follows(pinned, pin.value)
  {
    hide Adoption.Decoded;
  }

  /** A step keeps the pin, replaces it by one that follows it, or loses it. */
  lemma PinStep(d: Device, st: State, ev: Event, pinned: Option<OwnerPin>)
    requires StoredPin(st.identity) == Ok(pinned)
    ensures StoredPin(Step(d, st, ev).identity)
         == Ok(if LosesPin(d, st, ev) then None
               else if Taken(d, st, ev).Some? then Taken(d, st, ev)
               else pinned)
    ensures Taken(d, st, ev).Some? ==> Follows(pinned, Taken(d, st, ev).value)
  {
    hide ApplyPlan, Reached, MeshPin, TakenByBoot;
    match ev
    case Boot(cut) => BootPin(d, st, cut, pinned);
    case Forgetting(cut) =>
      ForgetPin(st, cut, pinned);
    case Mesh(envelope, now, fate) =>
      MeshPinFollows(d, st, envelope, now, pinned);
      if MeshPin(d, st, envelope, now).Some? {
        var pin := MeshPin(d, st, envelope, now).value;
        PinRoundTrip(pin.Encoded(), pin);
        assert KV_OWNER_PIN !in st.identity.faults;
      }
    case _ =>
  }

  // ----- runs -----

  /** No step of the run loses the pin. */
  predicate Keeps(d: Device, st: State, evs: seq<Event>) {
    evs == [] ||
    (Keeps(d, st, evs[..|evs| - 1]) && !LosesPin(d, Run(d, st, evs[..|evs| - 1]), evs[|evs| - 1]))
  }

  /** The pins the run wrote, in order. */
  function TakenPins(d: Device, st: State, evs: seq<Event>): seq<OwnerPin> {
    if evs == [] then []
    else
      var before := evs[..|evs| - 1];
      var taken := Taken(d, Run(d, st, before), evs[|evs| - 1]);
      TakenPins(d, st, before) + if taken.Some? then [taken.value] else []
  }

  function MaxRoster(first: u32, pins: seq<OwnerPin>): u32 {
    if pins == [] then first
    else
      var m, last := MaxRoster(first, pins[..|pins| - 1]), pins[|pins| - 1].roster;
      if m < last then last else m
  }

  /** The same owner throughout, the roster never going back. */
  predicate OneOwner(pin: OwnerPin, pins: seq<OwnerPin>) {
    && (forall i :: 0 <= i < |pins| ==> pins[i].key == pin.key && pin.roster <= pins[i].roster)
    && (forall i, j :: 0 <= i < j < |pins| ==> pins[i].roster <= pins[j].roster)
  }

  /** No silent rebinding. Over any run in which the pin is not lost, the owner
      stays the pinned one, every pin written is his with no older roster, and
      the pinned roster is the largest accepted. */
  lemma {:induction false} NoSilentRebinding(d: Device, st: State, evs: seq<Event>, pin: OwnerPin)
    requires StoredPin(st.identity) == Ok(Some(pin)) && Keeps(d, st, evs)
    ensures var pins := TakenPins(d, st, evs);
      && OneOwner(pin, pins)
      && StoredPin(Run(d, st, evs).identity) == Ok(Some(OwnerPin(pin.key, MaxRoster(pin.roster, pins))))
      && (forall i :: 0 <= i < |pins| ==> pins[i].roster <= MaxRoster(pin.roster, pins))
  {
    hide Step, StoredPin, LosesPin, Taken, MaxRoster, OneOwner;
    if evs == [] {
      NoPinsTaken(pin);
    } else {
      var before, ev := evs[..|evs| - 1], evs[|evs| - 1];
      NoSilentRebinding(d, st, before, pin);
      var pins := TakenPins(d, st, before);
      var taken := Taken(d, Run(d, st, before), ev);
      PinStep(d, Run(d, st, before), ev, Some(OwnerPin(pin.key, MaxRoster(pin.roster, pins))));
      if taken.Some? {
        OnePinMore(pin, pins, taken.value);
      } else {
        assert pins + [] == pins;
      }
    }
  }

  lemma NoPinsTaken(pin: OwnerPin)
    ensures OneOwner(pin, []) && MaxRoster(pin.roster, []) == pin.roster
  {
  }

  lemma OnePinMore(pin: OwnerPin, pins: seq<OwnerPin>, next: OwnerPin)
    requires OneOwner(pin, pins) && next.key == pin.key && MaxRoster(pin.roster, pins) <= next.roster
    requires forall i :: 0 <= i < |pins| ==> pins[i].roster <= MaxRoster(pin.roster, pins)
    ensures OneOwner(pin, pins + [next]) && MaxRoster(pin.roster, pins + [next]) == next.roster
  {
    hide MaxRoster;
    MaxAtLeast(pin.roster, pins);
    MaxGrows(pin.roster, pins, next);
    StillOneOwner(pin, pins, next);
  }

  lemma MaxGrows(first: u32, pins: seq<OwnerPin>, next: OwnerPin)
    requires MaxRoster(first, pins) <= next.roster
    ensures MaxRoster(first, pins + [next]) == next.roster
  {
    assert (pins + [next])[..|pins|] == pins;
  }

  lemma StillOneOwner(pin: OwnerPin, pins: seq<OwnerPin>, next: OwnerPin)
    requires OneOwner(pin, pins) && next.key == pin.key && pin.roster <= next.roster
    requires forall i :: 0 <= i < |pins| ==> pins[i].roster <= next.roster
    ensures OneOwner(pin, pins + [next])
  {
  }

  lemma {:induction false} MaxAtLeast(first: u32, pins: seq<OwnerPin>)
    ensures first <= MaxRoster(first, pins)
  {
    if pins != [] {
      MaxAtLeast(first, pins[..|pins| - 1]);
    }
  }

  /** If the owner did change, some step of the run lost the pin: a `forget`
      that finished, or, on a store whose puts are not atomic, a cut that tore
      the pin itself. */
  lemma {:induction false} RebindingNeedsALoss(d: Device, st: State, evs: seq<Event>, pin: OwnerPin, other: OwnerPin)
    requires StoredPin(st.identity) == Ok(Some(pin))
    requires StoredPin(Run(d, st, evs).identity) == Ok(Some(other)) && other.key != pin.key
    ensures exists i :: 0 <= i < |evs| && LosesPin(d, Run(d, st, evs[..i]), evs[i])
  {
    hide Step, StoredPin, LosesPin, Taken;
    if Keeps(d, st, evs) {
      NoSilentRebinding(d, st, evs, pin);
    } else {
      LossHasAStep(d, st, evs);
    }
  }

  lemma {:induction false} LossHasAStep(d: Device, st: State, evs: seq<Event>)
    requires !Keeps(d, st, evs)
    ensures exists i :: 0 <= i < |evs| && LosesPin(d, Run(d, st, evs[..i]), evs[i])
  {
    hide Step, LosesPin;
    var before := evs[..|evs| - 1];
    if !Keeps(d, st, before) {
      LossHasAStep(d, st, before);
      var i :| 0 <= i < |before| && LosesPin(d, Run(d, st, before[..i]), before[i]);
      assert before[..i] == evs[..i] && before[i] == evs[i];
    }
  }

  predicate Atomic(ev: Event) {
    match ev
    case Boot(cut) => !cut.torn
    case Mesh(_, _, fate) => !fate.Torn?
    case _ => true
  }

  /** With atomic puts only a finished `forget` lets the owner change. */
  lemma AtomicRebindingNeedsForget(d: Device, st: State, evs: seq<Event>, pin: OwnerPin, other: OwnerPin)
    requires forall i :: 0 <= i < |evs| ==> Atomic(evs[i])
    requires StoredPin(st.identity) == Ok(Some(pin))
    requires StoredPin(Run(d, st, evs).identity) == Ok(Some(other)) && other.key != pin.key
    ensures exists i :: 0 <= i < |evs| && Releases(Run(d, st, evs[..i]), evs[i])
  {
    hide Step, StoredPin, Run;
    RebindingNeedsALoss(d, st, evs, pin, other);
    var i :| 0 <= i < |evs| && LosesPin(d, Run(d, st, evs[..i]), evs[i]);
    assert !TearsPin(d, Run(d, st, evs[..i]), evs[i]);
  }

  /** The torn put is a real exception: a pinned device whose own owner's newer
      statement is cut in the write of the pin takes the next owner who comes,
      with nobody having asked it to forget. */
  lemma TornPinRebinds(d: Device, st: State, mine: Bytes, theirs: Bytes, pin: OwnerPin)
    requires StoredPin(st.identity) == Ok(Some(pin)) && SETTINGS_ADOPT !in st.settings.faults
    requires |mine| <= ADOPT_MAX && |theirs| <= ADOPT_MAX
    requires Check(d.w, mine, d.myDid).Ok? && Follows(Some(pin), Check(d.w, mine, d.myDid).value.pin)
    requires Check(d.w, theirs, d.myDid).Ok? && Check(d.w, theirs, d.myDid).value.pin.key != pin.key
    ensures var cut := Boot(Cut(2, true));
      var s1 := Step(d, Step(d, st, Deliver(map[SETTINGS_ADOPT := mine])), cut);
      var s2 := Step(d, Step(d, s1, Deliver(map[SETTINGS_ADOPT := theirs])), Boot(Cut(5, false)));
      StoredPin(s2.identity) == Ok(Some(Check(d.w, theirs, d.myDid).value.pin))
  {
    hide Check, CutRun;
    var d1 := Step(d, st, Deliver(map[SETTINGS_ADOPT := mine]));
    assert TakenByBoot(d, d1).Some?;
    BootPin(d, d1, Cut(2, true), Some(pin));
    var s1 := Step(d, d1, Boot(Cut(2, true)));
    var d2 := Step(d, s1, Deliver(map[SETTINGS_ADOPT := theirs]));
    StepKeepsFaults(d, d1, Cut(2, true));
    assert TakenByBoot(d, d2).Some?;
    BootPin(d, d2, Cut(5, false), None);
  }

  lemma StepKeepsFaults(d: Device, st: State, cut: Cut)
    ensures Step(d, st, Boot(cut)).settings.faults == st.settings.faults
    ensures Step(d, st, Boot(cut)).identity.faults == st.identity.faults
  {
    hide Check, CutRun, StoredPin;
    PlanCases(d.w, st, d.myDid);
    RefuseCut(st, cut);
    NoWrites(st, cut);
    var plan := ApplyPlan(d.w, st, d.myDid);
    if plan.Does? && !plan.value.Refused? && plan != Does([], Nothing) {
      var container, checked :| Takes(d.w, st, d.myDid, container, checked);
      TakeCut(st, container, checked.pin, cut);
    }
  }

  lemma OneStepMore(d: Device, st: State, evs: seq<Event>, ev: Event)
    ensures Run(d, st, evs + [ev]) == Step(d, Run(d, st, evs), ev)
  {
    assert (evs + [ev])[..|evs|] == evs;
  }

  lemma RunOfTwo(d: Device, st: State, a: Event, b: Event)
    ensures Run(d, st, [a, b]) == Step(d, Step(d, st, a), b)
  {
    hide Step;
    OneStepMore(d, st, [], a);
    OneStepMore(d, st, [a], b);
    assert [] + [a] == [a] && [a] + [b] == [a, b];
  }

  /** Such a run exists from any owner to any other, without a `forget`. */
  lemma SilentRebindingHappens(myDid: Str, pin: OwnerPin, other: OwnerPin)
    returns (d: Device, st: State, evs: seq<Event>)
    requires pin.key[0] in {2, 3} && other.key[0] in {2, 3} && other.key != pin.key
    ensures JsonGrammar(d.w) && d.myDid == myDid
    ensures StoredPin(st.identity) == Ok(Some(pin)) && StoredPin(Run(d, st, evs).identity) == Ok(Some(other))
    ensures forall i :: 0 <= i < |evs| ==> Delivered(evs[i]) && !evs[i].Forgetting?
  {
    hide Check, CutRun, Step;
    var w, mine, theirs := StatementsExist(myDid, pin, other);
    d := Device(w, (_, _, _) => false, myDid);
    st := State(Snapshot(map[], map[]), Snapshot(map[KV_OWNER_PIN := pin.Encoded()], map[]));
    PinRoundTrip(pin.Encoded(), pin);
    evs := [Deliver(map[SETTINGS_ADOPT := mine]), Boot(Cut(2, true)), Deliver(map[SETTINGS_ADOPT := theirs]),
            Boot(Cut(5, false))];
    RunOfTwo(d, st, evs[0], evs[1]);
    OneStepMore(d, st, [evs[0], evs[1]], evs[2]);
    OneStepMore(d, st, [evs[0], evs[1], evs[2]], evs[3]);
    assert [evs[0], evs[1]] + [evs[2]] == [evs[0], evs[1], evs[2]] && [evs[0], evs[1], evs[2]] + [evs[3]] == evs;
    TornPinRebinds(d, st, mine, theirs, pin);
  }

  /** A pin stored at the wrong length is never repaired: no boot, `forget` or
      mesh adoption can change it, so the device is stuck with no owner. */
  lemma {:induction false} MalformedPinIsStuck(d: Device, st: State, evs: seq<Event>)
    requires StoredPin(st.identity).Err?
    ensures StoredPin(Run(d, st, evs).identity) == StoredPin(st.identity)
    ensures TakenPins(d, st, evs) == []
  {
    hide ApplyPlan, Step, StoredPin, Taken;
    if evs != [] {
      var before := evs[..|evs| - 1];
      MalformedPinIsStuck(d, st, before);
      MalformedStep(d, Run(d, st, before), evs[|evs| - 1]);
    }
  }

  lemma MalformedStep(d: Device, st: State, ev: Event)
    requires StoredPin(st.identity).Err?
    ensures StoredPin(Step(d, st, ev).identity) == StoredPin(st.identity) && Taken(d, st, ev) == None
  {
    hide Check, CutRun;
    if ev.Boot? {
      RefuseCut(st, ev.cut);
      NoWrites(st, ev.cut);
    }
  }

  // ----- grant and pin -----

  /** If a statement is presented, it names the DID of `key`. */
  predicate NamesOnly(d: Device, identity: Snapshot, key: Bytes33) {
    match StoredAdoption(d.w, identity, d.myDid)
    case Ok(Some(s)) => s.kind == MataStatement ==> s.ownerDid == Did.Text(key)
    case _ => true
  }

  /** A statement presented while a pin is held names the pinned key. */
  predicate Agrees(d: Device, st: State) {
    match StoredPin(st.identity)
    case Ok(Some(pin)) => NamesOnly(d, st.identity, pin.key)
    case _ => true
  }

  lemma PresentedIsTheEntry(d: Device, identity: Snapshot, s: Stored)
    requires StoredAdoption(d.w, identity, d.myDid) == Ok(Some(s))
    ensures KV_ADOPTION in identity.entries && identity.entries[KV_ADOPTION] == s.bytes
    ensures s.kind == MataStatement ==>
      Check(d.w, s.bytes, d.myDid).Ok? && Check(d.w, s.bytes, d.myDid).value.ownerDid == s.ownerDid
  {
    hide Check, Adoption.Decoded;
  }

  lemma BootAgrees(d: Device, st: State, cut: Cut)
    requires Agrees(d, st)
    ensures Agrees(d, Step(d, st, Boot(cut)))
  {
    hide Check, CutRun, StoredAdoption, Did.Text, StoredPin;
    var plan := ApplyPlan(d.w, st, d.myDid);
    PlanCases(d.w, st, d.myDid);
    RefuseCut(st, cut);
    NoWrites(st, cut);
    if plan.Does? && !plan.value.Refused? && plan != Does([], Nothing) {
      var container, checked :| Takes(d.w, st, d.myDid, container, checked);
      TakenAgrees(d, st, cut, container, checked);
    }
  }

  lemma TakenAgrees(d: Device, st: State, cut: Cut, container: Bytes, checked: Checked)
    requires Agrees(d, st) && Takes(d.w, st, d.myDid, container, checked)
    ensures Agrees(d, Step(d, st, Boot(cut)))
  {
    hide Check, CutRun, StoredAdoption, Did.Text, StoredPin;
    TakeCut(st, container, checked.pin, cut);
    PinAfterTakeCut(st, container, checked.pin, cut, StoredPin(st.identity).value);
    AcceptedOwnerIsPinned(d.w, container, d.myDid);
    var after := Step(d, st, Boot(cut));
    var presented := StoredAdoption(d.w, after.identity, d.myDid);
    if presented.Ok? && presented.value.Some? {
      PresentedIsTheEntry(d, after.identity, presented.value.value);
      if cut.writes == 0 && !cut.torn {
        assert after.identity.entries == st.identity.entries;
      }
    }
  }

  lemma ForgetAgrees(d: Device, st: State, cut: Cut)
    requires Agrees(d, st)
    ensures Agrees(d, Step(d, st, Forgetting(cut)))
  {
    hide Check, CutRun, StoredAdoption, Did.Text;
    if ForgetPlan(st).Does? {
      ForgetCut(st, cut);
      var after := Step(d, st, Forgetting(cut));
      var presented := StoredAdoption(d.w, after.identity, d.myDid);
      if cut.writes == 0 {
        PerformNone(st, FORGET_WRITES);
        ForgetUncut(st, cut.torn);
      } else if presented.Ok? && presented.value.Some? {
        PresentedIsTheEntry(d, after.identity, presented.value.value);
      }
    }
  }

  lemma ForgetUncut(st: State, torn: bool)
    ensures CutRun(st, FORGET_WRITES, Cut(0, torn)) == st
  {
    PerformNone(st, FORGET_WRITES);
  }

  predicate Delivered(ev: Event) {
    ev.Deliver? || ev.Boot? || ev.Forgetting?
  }

  lemma DeliverAgrees(d: Device, st: State, ev: Event)
    requires Agrees(d, st) && ev.Deliver?
    ensures Agrees(d, Step(d, st, ev))
  {
    hide StoredPin, StoredAdoption;
  }

  /** A mesh adoption keeps to the statement presented: it pins nobody, or the
      key already pinned, or the key that statement names. */
  predicate MeshFits(d: Device, st: State, envelope: Bytes, now: Option<u64>, fate: Fate) {
    || StoredPin(st.identity) != Ok(None)
    || MeshPin(d, st, envelope, now) == None
    || !fate.Done?
    || NamesOnly(d, st.identity, MeshPin(d, st, envelope, now).value.key)
  }

  /** Exactly such a mesh adoption leaves grant and pin in agreement. */
  lemma MeshAgrees(d: Device, st: State, envelope: Bytes, now: Option<u64>, fate: Fate)
    requires Agrees(d, st)
    ensures Agrees(d, Step(d, st, Mesh(envelope, now, fate))) <==> MeshFits(d, st, envelope, now, fate)
  {
    hide MeshPin, StoredPin, Did.Text, StoredAdoption;
    if MeshPin(d, st, envelope, now).Some? {
      var pinned := PinnedForMesh(d, st, envelope, now);
      PinStep(d, st, Mesh(envelope, now, fate), pinned);
      MeshPinFollows(d, st, envelope, now, pinned);
      var pin := MeshPin(d, st, envelope, now).value;
      PinKeepsPresented(d, st.identity, Written(st.identity.entries, KV_OWNER_PIN, pin.Encoded(), fate));
    }
  }

  lemma PinnedForMesh(d: Device, st: State, envelope: Bytes, now: Option<u64>) returns (pinned: Option<OwnerPin>)
    requires MeshPin(d, st, envelope, now).Some?
    ensures StoredPin(st.identity) == Ok(pinned)
  {
    hide AcceptEnvelope, StoredPin;
    pinned := StoredPin(st.identity).value;
  }

  /** What is presented does not depend on the pin entry. */
  lemma PinKeepsPresented(d: Device, identity: Snapshot, entries: Entries)
    requires entries - {KV_OWNER_PIN} == identity.entries - {KV_OWNER_PIN}
    ensures StoredAdoption(d.w, identity.(entries := entries), d.myDid) == StoredAdoption(d.w, identity, d.myDid)
  {
    hide PresentedAs;
    forall n | n in {KV_ADOPTION, KV_ADOPTION_KIND, KV_PIN_PROVISIONAL}
      ensures n in entries <==> n in identity.entries
      ensures n in entries ==> entries[n] == identity.entries[n]
    {
      assert n in entries <==> n in entries - {KV_OWNER_PIN};
      assert n in identity.entries <==> n in identity.entries - {KV_OWNER_PIN};
      assert n in entries ==> entries[n] == (entries - {KV_OWNER_PIN})[n];
    }
  }

  /** Other writers store no statement: an adoption entry of theirs passes no
      statement check, and their kind entry does not call it one. */
  predicate StoresNoStatement(d: Device, name: Name, value: Option<Bytes>) {
    && (name == KV_ADOPTION && value.Some? ==> Check(d.w, value.value, d.myDid).Err?)
    && (name == KV_ADOPTION_KIND ==> value != Some(KIND_STATEMENT))
  }

  /** Storing a mesh adoption's envelope is such a write. */
  lemma EnvelopeIsNoStatement(d: Device, envelope: Bytes)
    requires JsonGrammar(d.w) && Adoption.Decoded(envelope).Ok?
    ensures StoresNoStatement(d, KV_ADOPTION, Some(envelope))
  {
    hide Check, Adoption.Decoded;
    EnvelopesBeginWithJ(envelope);
    if Check(d.w, envelope, d.myDid).Ok? {
      NotAnEnvelope(d.w, envelope, d.myDid);
    }
  }

  lemma UnrelatedAgrees(d: Device, st: State, name: Name, value: Option<Bytes>)
    requires Agrees(d, st) && StoresNoStatement(d, name, value)
    ensures Agrees(d, Step(d, st, Unrelated(name, value)))
  {
    hide Check, Did.Text, DecodePin, Adoption.Decoded;
  }

  /** Mesh adoptions that fit, and writers that store no statement. */
  predicate Fitting(d: Device, st: State, ev: Event) {
    match ev
    case Mesh(envelope, now, fate) => MeshFits(d, st, envelope, now, fate)
    case Unrelated(name, value) => StoresNoStatement(d, name, value)
    case _ => true
  }

  predicate AllFitting(d: Device, st: State, evs: seq<Event>) {
    evs == [] ||
    (AllFitting(d, st, evs[..|evs| - 1]) && Fitting(d, Run(d, st, evs[..|evs| - 1]), evs[|evs| - 1]))
  }

  /** Grant and pin agree in every reachable state: whatever was delivered,
      however often the device was cut, even when puts tear, and across mesh
      adoptions that fit the statement presented. */
  lemma {:induction false} GrantAgreesWithPin(d: Device, st: State, evs: seq<Event>)
    requires Agrees(d, st) && AllFitting(d, st, evs)
    ensures Agrees(d, Run(d, st, evs))
  {
    hide ApplyPlan, Reached, Agrees, Step, MeshFits, StoresNoStatement;
    if evs != [] {
      var before, ev := evs[..|evs| - 1], evs[|evs| - 1];
      GrantAgreesWithPin(d, st, before);
      match ev
      case Boot(cut) => BootAgrees(d, Run(d, st, before), cut);
      case Forgetting(cut) => ForgetAgrees(d, Run(d, st, before), cut);
      case Deliver(_) => DeliverAgrees(d, Run(d, st, before), ev);
      case Mesh(envelope, now, fate) => MeshAgrees(d, Run(d, st, before), envelope, now, fate);
      case Unrelated(name, value) => UnrelatedAgrees(d, Run(d, st, before), name, value);
    }
  }

  /** In particular no run of deliveries, boots and forgets can part them. */
  lemma {:induction false} DeliveredFits(d: Device, st: State, evs: seq<Event>)
    requires forall i :: 0 <= i < |evs| ==> Delivered(evs[i])
    ensures AllFitting(d, st, evs)
  {
    hide Step, MeshFits, StoresNoStatement;
    if evs != [] {
      DeliveredFits(d, st, evs[..|evs| - 1]);
    }
  }

  /** A mesh adoption that does not fit is a real exception. A first adoption
      cut before its pin is written leaves its statement presented; an envelope
      of another owner then pins him under it. */
  lemma MeshAfterCutParts(d: Device, st: State, container: Bytes, checked: Checked, f: Adoption.Fields, signature: Bytes64,
                          now: Option<u64>)
    requires Takes(d.w, st, d.myDid, container, checked) && StoredPin(st.identity) == Ok(None)
    requires KV_ADOPTION !in st.identity.faults && KV_ADOPTION_KIND !in st.identity.faults
    requires Entitled(CryptoOf(d), f, signature, d.myDid, None, now) && f.ownerKey != checked.pin.key
    ensures var after := Run(d, st, [Boot(Cut(2, false)), Mesh(Adoption.Canonical(f) + signature, now, Done)]);
      && StoredPin(after.identity) == Ok(Some(OwnerPin(f.ownerKey, f.roster)))
      && StoredAdoption(d.w, after.identity, d.myDid)
           == Ok(Some(Stored(checked.ownerDid, MataStatement, container, Provisional(after.identity))))
      && !Agrees(d, after)
  {
    hide Check, CutRun, StoredPin, StoredAdoption, Entitled, MeshPin, ApplyPlan, Adoption.Canonical, Did.Text, Takes, Provisional,
      Reached, Run;
    var envelope := Adoption.Canonical(f) + signature;
    var cut := Step(d, st, Boot(Cut(2, false)));
    RunOfTwo(d, st, Boot(Cut(2, false)), Mesh(envelope, now, Done));
    OwnerShownBeforePinned(d.w, st, d.myDid, container, checked);
    MeshTakes(d, cut, f, signature, None, now);
    PinStep(d, cut, Mesh(envelope, now, Done), None);
    var entries := Written(cut.identity.entries, KV_OWNER_PIN, OwnerPin(f.ownerKey, f.roster).Encoded(), Done);
    PinKeepsPresented(d, cut.identity, entries);
    ProvisionalWithoutPin(cut.identity, entries);
    TakenNamesItsKey(d, st, container, checked);
    if Did.Text(f.ownerKey) == Did.Text(checked.pin.key) {
      Did.TextInjective(f.ownerKey, checked.pin.key);
    }
  }

  lemma ProvisionalWithoutPin(identity: Snapshot, entries: Entries)
    requires entries - {KV_OWNER_PIN} == identity.entries - {KV_OWNER_PIN}
    ensures Provisional(identity.(entries := entries)) == Provisional(identity)
  {
    var n := KV_PIN_PROVISIONAL;
    assert n in entries <==> n in entries - {KV_OWNER_PIN};
    assert n in identity.entries <==> n in identity.entries - {KV_OWNER_PIN};
    assert n in entries ==> entries[n] == (entries - {KV_OWNER_PIN})[n];
  }

  lemma TakenNamesItsKey(d: Device, st: State, container: Bytes, checked: Checked)
    requires Takes(d.w, st, d.myDid, container, checked)
    ensures checked.ownerDid == Did.Text(checked.pin.key)
  {
    hide Check, ApplyPlan, Did.Text;
    AcceptedOwnerIsPinned(d.w, container, d.myDid);
  }

  // ----- what a mesh adoption presents -----

  /** Whatever its kind, what is presented names the DID of the pinned key. */
  predicate OwnersAgree(d: Device, st: State) {
    match (StoredPin(st.identity), StoredAdoption(d.w, st.identity, d.myDid))
    case (Ok(Some(pin)), Ok(Some(s))) => s.ownerDid == Did.Text(pin.key)
    case _ => true
  }

  /** An adoption stored now would be read as an envelope. */
  predicate ReadsEnvelopes(identity: Snapshot) {
    && KV_ADOPTION !in identity.faults
    && Lookup(identity, KV_ADOPTION_KIND, 32).Ok?
    && Lookup(identity, KV_ADOPTION_KIND, 32) != Ok(Some(KIND_STATEMENT))
  }

  function StoreEnvelope(envelope: Bytes): Event {
    Unrelated(KV_ADOPTION, Some(envelope))
  }

  /** A first adoption over the mesh, or a later one by the pinned key: the pin
      is the key that signed, while the owner presented is whoever the envelope
      names, in whichever order the two are stored. They agree exactly when the
      name is the key's own DID, so `Agrees` speaks of statements only. An
      envelope longer than the buffer it is read back through pins its owner
      and presents nobody. */
  lemma MeshOwnerIsOnlyClaimed(d: Device, st: State, f: Adoption.Fields, signature: Bytes64, pinned: Option<OwnerPin>,
                               now: Option<u64>)
    requires Entitled(CryptoOf(d), f, signature, d.myDid, pinned, now)
    requires StoredPin(st.identity) == Ok(pinned) && ReadsEnvelopes(st.identity)
    ensures var envelope := Adoption.Canonical(f) + signature;
      var after := Step(d, Step(d, st, Mesh(envelope, now, Done)), StoreEnvelope(envelope));
      && Step(d, Step(d, st, StoreEnvelope(envelope)), Mesh(envelope, now, Done)) == after
      && StoredPin(after.identity) == Ok(Some(OwnerPin(f.ownerKey, f.roster)))
      && StoredAdoption(d.w, after.identity, d.myDid)
           == Ok(if |envelope| > ADOPT_MAX then None
                 else Some(Stored(f.ownerDid, AdoptionV1, envelope, Provisional(st.identity))))
      && (OwnersAgree(d, after) <==> |envelope| > ADOPT_MAX || f.ownerDid == Did.Text(f.ownerKey))
  {
    hide Adoption.Canonical, Entitled, Did.Text, MeshPin, StoredPin, StoredAdoption;
    var envelope, pin := Adoption.Canonical(f) + signature, OwnerPin(f.ownerKey, f.roster);
    var stored := Step(d, st, StoreEnvelope(envelope));
    var e: Entries := st.identity.entries;
    assert e[KV_ADOPTION := envelope][KV_OWNER_PIN := pin.Encoded()]
        == e[KV_OWNER_PIN := pin.Encoded()][KV_ADOPTION := envelope];
    SamePin(st.identity, envelope);
    MeshTakes(d, st, f, signature, pinned, now);
    MeshTakes(d, stored, f, signature, pinned, now);
    BothStored(d, st.identity, f, signature, pinned, now);
  }

  lemma SamePin(identity: Snapshot, envelope: Bytes)
    ensures StoredPin(identity.(entries := identity.entries[KV_ADOPTION := envelope])) == StoredPin(identity)
  {
  }

  lemma MeshTakes(d: Device, st: State, f: Adoption.Fields, signature: Bytes64, pinned: Option<OwnerPin>, now: Option<u64>)
    requires Entitled(CryptoOf(d), f, signature, d.myDid, pinned, now) && StoredPin(st.identity) == Ok(pinned)
    ensures MeshPin(d, st, Adoption.Canonical(f) + signature, now) == Some(OwnerPin(f.ownerKey, f.roster))
  {
    hide Adoption.Canonical, Entitled, StoredPin, AcceptEnvelope;
    AcceptsExactly(CryptoOf(d), Adoption.Canonical(f) + signature, d.myDid, pinned, now, OwnerPin(f.ownerKey, f.roster));
  }

  lemma BothStored(d: Device, identity: Snapshot, f: Adoption.Fields, signature: Bytes64, pinned: Option<OwnerPin>,
                   now: Option<u64>)
    requires Entitled(CryptoOf(d), f, signature, d.myDid, pinned, now)
    requires StoredPin(identity).Ok? && ReadsEnvelopes(identity)
    ensures var envelope, pin := Adoption.Canonical(f) + signature, OwnerPin(f.ownerKey, f.roster);
      var after := identity.(entries := identity.entries[KV_OWNER_PIN := pin.Encoded()][KV_ADOPTION := envelope]);
      && StoredPin(after) == Ok(Some(pin))
      && StoredAdoption(d.w, after, d.myDid)
           == Ok(if |envelope| > ADOPT_MAX then None
                 else Some(Stored(f.ownerDid, AdoptionV1, envelope, Provisional(identity))))
  {
    hide Adoption.Canonical, Adoption.Decoded, Adoption.Valid, Adoption.WellFormed, DecodePin, OwnerPin.Encoded;
    var pin := OwnerPin(f.ownerKey, f.roster);
    PinRoundTrip(pin.Encoded(), pin);
    AdoptionCodec.DecodeOfEncode(f, signature);
  }

  const BLANK: State := State(Snapshot(map[], map[]), Snapshot(map[], map[]))

  /** They need not agree: on a blank device a key that signs for it is pinned
      and presents itself as whichever owner it claims to be. */
  lemma AnyOwnerCanBeClaimed(d: Device, key: Bytes33, claimed: Str, signature: Bytes64)
    requires Utf8(d.myDid) && 0 < |d.myDid| <= Adoption.MAX_FIELD_LEN && 0 < |claimed| <= Adoption.MAX_FIELD_LEN
    requires d.verify(key, d.w.digest(Adoption.Canonical(ClaimOf(d.myDid, key, claimed))), signature)
    ensures var envelope := Adoption.Canonical(ClaimOf(d.myDid, key, claimed)) + signature;
      var after := Run(d, BLANK, [Mesh(envelope, None, Done), StoreEnvelope(envelope)]);
      && StoredPin(after.identity) == Ok(Some(OwnerPin(key, 0)))
      && StoredAdoption(d.w, after.identity, d.myDid) == Ok(Some(Stored(claimed, AdoptionV1, envelope, false)))
  {
    hide Adoption.Canonical, Entitled, Step, StoredAdoption, StoredPin, Utf8, Run;
    var envelope := Adoption.Canonical(ClaimOf(d.myDid, key, claimed)) + signature;
    RunOfTwo(d, BLANK, Mesh(envelope, None, Done), StoreEnvelope(envelope));
    ClaimIsShort(d.myDid, key, claimed);
    ClaimIsEntitled(CryptoOf(d), d.myDid, key, claimed, signature);
    BlankReads();
    MeshOwnerIsOnlyClaimed(d, BLANK, ClaimOf(d.myDid, key, claimed), signature, None, None);
  }

  /** An adoption of `myDid` under `key` in the name of `claimed`. */
  function ClaimOf(myDid: Str, key: Bytes33, claimed: Str): Adoption.Fields {
    Adoption.Fields(myDid, claimed, key, Fill(32, 0), [], [], Adoption.Slice([]), 0, 0, 0)
  }

  lemma ClaimIsShort(myDid: Str, key: Bytes33, claimed: Str)
    requires |myDid| <= Adoption.MAX_FIELD_LEN && |claimed| <= Adoption.MAX_FIELD_LEN
    ensures |Adoption.Canonical(ClaimOf(myDid, key, claimed))| + 64 <= ADOPT_MAX
  {
    hide Utf8;
    assert |Adoption.CapSection(ClaimOf(myDid, key, claimed))| == 21;
  }

  lemma ClaimIsEntitled(c: Owner.Crypto, myDid: Str, key: Bytes33, claimed: Str, signature: Bytes64)
    requires 0 < |myDid| <= Adoption.MAX_FIELD_LEN && 0 < |claimed| <= Adoption.MAX_FIELD_LEN
    requires c.verify(key, c.digest(Adoption.Canonical(ClaimOf(myDid, key, claimed))), signature)
    ensures Entitled(c, ClaimOf(myDid, key, claimed), signature, myDid, None, None)
  {
    hide Adoption.Canonical, Utf8;
  }

  lemma BlankReads()
    ensures StoredPin(BLANK.identity) == Ok(None) && ReadsEnvelopes(BLANK.identity) && !Provisional(BLANK.identity)
  {
  }

  /** Such a parting exists for any two keys, on a device that begins without
      an owner. */
  lemma PartingHappens(myDid: Str, stated: OwnerPin, key: Bytes33) returns (d: Device, st: State, evs: seq<Event>)
    requires stated.key[0] in {2, 3} && key != stated.key && 0 < |myDid| <= Adoption.MAX_FIELD_LEN
    ensures JsonGrammar(d.w) && d.myDid == myDid && st.identity == BLANK.identity
    ensures Agrees(d, st) && !Agrees(d, Run(d, st, evs))
  {
    hide Check, Adoption.Canonical, Entitled, Agrees, Run, Utf8;
    var w, container, _ := StatementsExist(myDid, stated, stated);
    d := Device(w, (_, _, _) => true, myDid);
    st := State(Snapshot(map[SETTINGS_ADOPT := container], map[]), BLANK.identity);
    var f, signature := ClaimOf(myDid, key, myDid), Fill(64, 0);
    evs := [Boot(Cut(2, false)), Mesh(Adoption.Canonical(f) + signature, None, Done)];
    BlankReads();
    BlankAgrees(d, st);
    ClaimIsEntitled(CryptoOf(d), myDid, key, myDid, signature);
    var checked := Check(w, container, myDid).value;
    assert Takes(w, st, myDid, container, checked);
    MeshAfterCutParts(d, st, container, checked, f, signature, None);
  }

  lemma BlankAgrees(d: Device, st: State)
    requires StoredPin(st.identity) == Ok(None)
    ensures Agrees(d, st)
  {
  }

  /** Stored bytes are never presented under the wrong kind: what is presented
      as a statement is no envelope, and what is presented as an envelope is no
      statement. */
  lemma KindIsRight(d: Device, identity: Snapshot, s: Stored)
    requires JsonGrammar(d.w) && StoredAdoption(d.w, identity, d.myDid) == Ok(Some(s))
    ensures s.kind == MataStatement <==> Check(d.w, s.bytes, d.myDid).Ok?
    ensures s.kind == AdoptionV1 <==> Adoption.Decoded(s.bytes).Ok?
  {
    hide Check, Adoption.Decoded;
    EnvelopesBeginWithJ(s.bytes);
    if Check(d.w, s.bytes, d.myDid).Ok? {
      NotAnEnvelope(d.w, s.bytes, d.myDid);
    }
  }
}
