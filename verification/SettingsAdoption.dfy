/** An adoption delivered with the settings: `apply`, `forget` and `stored`,
    each a plan of store writes and a method that carries it out. */
module SettingsAdoption {
  import opened Base
  import opened Store
  import opened Owner
  import opened Statement
  import Adoption

  const SETTINGS_ADOPT: Name := "adopt"

  const ADOPT_MAX: nat := 8192

  const KV_ADOPTION: Name := "mid.adopt"

  const KV_ADOPTION_KIND: Name := "mid.adopt.kind"

  const KV_OWNER_PIN: Name := "mid.owner"

  const KV_PIN_PROVISIONAL: Name := "mid.owner.prov"

  const KIND_STATEMENT: Bytes := Ascii("mata-statement-v1")

  datatype Outcome =
    | Nothing
    | Adopted(ownerDid: Str, roster: u32)
    | Rehomed(ownerDid: Str, roster: u32)
    | Refused(why: Why)

  // ----- writes, plans and cuts -----

  /** The two stores. */
  datatype State = State(settings: Snapshot, identity: Snapshot)

  datatype Write =
    | PutIdentity(name: Name, value: Bytes)
    | RemoveIdentity(name: Name)
    | ClearDelivery

  function Perform(st: State, w: Write): State {
    match w
    case PutIdentity(name, value) => st.(identity := st.identity.(entries := st.identity.entries[name := value]))
    case RemoveIdentity(name) => st.(identity := st.identity.(entries := st.identity.entries - {name}))
    case ClearDelivery => st.(settings := st.settings.(entries := st.settings.entries - {SETTINGS_ADOPT}))
  }

  function PerformAll(st: State, ws: seq<Write>): State {
    if ws == [] then st else Perform(PerformAll(st, ws[..|ws| - 1]), ws[|ws| - 1])
  }

  /** The state a write torn by the cut leaves: a put has lost its own entry. */
  function Torn(st: State, w: Write): State {
    if w.PutIdentity? then Perform(st, RemoveIdentity(w.name)) else st
  }

  /** Power lost after `writes` writes, the next one possibly torn. A cut past
      the last write is no cut. */
  datatype Cut = Cut(writes: nat, torn: bool)

  function CutRun(st: State, ws: seq<Write>, cut: Cut): State {
    if cut.writes >= |ws| then PerformAll(st, ws)
    else
      var reached := PerformAll(st, ws[..cut.writes]);
      if cut.torn then Torn(reached, ws[cut.writes]) else reached
  }

  /** What a call will do: fail having written nothing, or carry out `writes`
      and return `value`. */
  datatype Plan<+T> = Fails(error: Error) | Does(writes: seq<Write>, value: T)

  /** The state a plan cut at `cut` leaves. */
  function Reached<T>(st: State, plan: Plan<T>, cut: Cut): State {
    match plan
    case Fails(_) => st
    case Does(writes, _) => CutRun(st, writes, cut)
  }

  /** The state an uninterrupted plan leaves. */
  function Final<T>(st: State, plan: Plan<T>): State {
    match plan
    case Fails(_) => st
    case Does(writes, _) => PerformAll(st, writes)
  }

  lemma PerformNext(st: State, ws: seq<Write>, k: nat)
    requires k < |ws|
    ensures PerformAll(st, ws[..k + 1]) == Perform(PerformAll(st, ws[..k]), ws[k])
  {
    assert ws[..k + 1][..k] == ws[..k];
  }

  lemma PerformNone(st: State, ws: seq<Write>)
    ensures PerformAll(st, ws[..0]) == st
  {
  }

  // ----- what the stores hold -----

  function StoredPin(identity: Snapshot): Result<Option<OwnerPin>, Error> {
    match Lookup(identity, KV_OWNER_PIN, PIN_LEN)
    case Err(e) => Err(e)
    case Ok(None) => Ok(None)
    case Ok(Some(bytes)) =>
      match DecodePin(bytes)
      case Ok(pin) => Ok(Some(pin))
      case Err(e) => Err(e)
  }

  /** A pin is read exactly where a readable entry of 37 bytes is; any other
      entry is an error. */
  lemma PinIsTheEntry(identity: Snapshot)
    ensures var pin := StoredPin(identity);
      if KV_OWNER_PIN in identity.faults then pin == Err(identity.faults[KV_OWNER_PIN])
      else if KV_OWNER_PIN !in identity.entries then pin == Ok(None)
      else if |identity.entries[KV_OWNER_PIN]| > 37 then pin == Err(BufferTooSmall(|identity.entries[KV_OWNER_PIN]|))
      else if |identity.entries[KV_OWNER_PIN]| < 37 then pin == Err(Corrupt)
      else exists held: OwnerPin :: pin == Ok(Some(held)) && identity.entries[KV_OWNER_PIN] == held.Encoded()
  {
    hide OwnerPin.Encoded;
    if KV_OWNER_PIN in identity.entries && DecodePin(identity.entries[KV_OWNER_PIN]).Ok? {
      PinRoundTrip(identity.entries[KV_OWNER_PIN], DecodePin(identity.entries[KV_OWNER_PIN]).value);
    }
  }

  datatype Kind = MataStatement | AdoptionV1

  /** The adoption as the status presents it. */
  datatype Stored = Stored(ownerDid: Str, kind: Kind, bytes: Bytes, provisional: bool)

  function PresentedAs(w: World, bytes: Bytes, isStatement: bool, provisional: bool, myDid: Bytes): Option<Stored> {
    if isStatement then
      match Check(w, bytes, myDid)
      case Ok(c) => Some(Stored(c.ownerDid, MataStatement, bytes, provisional))
      case Err(_) => None
    else
      match Adoption.Decoded(bytes)
      case Ok(a) =>
        if a.fields.deviceDid == myDid then Some(Stored(a.fields.ownerDid, AdoptionV1, bytes, provisional)) else None
      case Err(_) => None
  }

  function Provisional(identity: Snapshot): bool {
    Lookup(identity, KV_PIN_PROVISIONAL, 1) == Ok(Some([1]))
  }

  /** The adoption `identity` holds for `myDid`, if any. */
  function StoredAdoption(w: World, identity: Snapshot, myDid: Bytes): Result<Option<Stored>, Error> {
    match Lookup(identity, KV_ADOPTION, ADOPT_MAX)
    case Ok(None) => Ok(None)
    case Err(BufferTooSmall(_)) => Ok(None)
    case Err(e) => Err(e)
    case Ok(Some(bytes)) =>
      match Lookup(identity, KV_ADOPTION_KIND, 32)
      case Err(BufferTooSmall(_)) => Ok(None)
      case Err(e) => Err(e)
      case Ok(kind) => Ok(PresentedAs(w, bytes, kind == Some(KIND_STATEMENT), Provisional(identity), myDid))
  }

  /** What is presented, said of the entries: the adoption entry's bytes, as a
      statement exactly where the kind entry calls them one; in that case a
      checked statement's owner, else the owner a decoded envelope for this
      device names; provisional exactly where the mark is readable and is one
      byte, 1. */
  lemma PresentedExactly(w: World, identity: Snapshot, myDid: Bytes, s: Stored)
    ensures StoredAdoption(w, identity, myDid) == Ok(Some(s)) <==>
      && Readable(identity, KV_ADOPTION, 8192) && KV_ADOPTION in identity.entries
      && identity.entries[KV_ADOPTION] == s.bytes
      && Readable(identity, KV_ADOPTION_KIND, 32)
      && (s.kind == MataStatement <==>
            KV_ADOPTION_KIND in identity.entries && identity.entries[KV_ADOPTION_KIND] == Ascii("mata-statement-v1"))
      && (s.kind == MataStatement ==> exists pin :: Check(w, s.bytes, myDid) == Ok(Checked(s.ownerDid, pin)))
      && (s.kind == AdoptionV1 ==>
            && Adoption.Decoded(s.bytes).Ok?
            && Adoption.Decoded(s.bytes).value.fields.deviceDid == myDid
            && Adoption.Decoded(s.bytes).value.fields.ownerDid == s.ownerDid)
      && (s.provisional <==>
            && KV_PIN_PROVISIONAL !in identity.faults && KV_PIN_PROVISIONAL in identity.entries
            && identity.entries[KV_PIN_PROVISIONAL] == [1])
  {
    hide Check, Adoption.Decoded;
    if s.kind == MataStatement && Check(w, s.bytes, myDid).Ok? {
      var c := Check(w, s.bytes, myDid).value;
      assert c == Checked(c.ownerDid, c.pin);
    }
  }

  /** Reading `name` into `room` bytes is no error. */
  predicate Readable(s: Snapshot, name: Name, room: nat) {
    name !in s.faults && (name in s.entries ==> |s.entries[name]| <= room)
  }

  /** When it is an error instead: one of the store's own about the adoption
      entry, or about the kind of one that is there. */
  lemma PresentedError(w: World, identity: Snapshot, myDid: Bytes, e: Error)
    ensures StoredAdoption(w, identity, myDid) == Err(e) <==>
      && !e.BufferTooSmall?
      && if KV_ADOPTION in identity.faults then e == identity.faults[KV_ADOPTION]
         else
           && KV_ADOPTION in identity.entries && |identity.entries[KV_ADOPTION]| <= 8192
           && KV_ADOPTION_KIND in identity.faults && e == identity.faults[KV_ADOPTION_KIND]
  {
    hide PresentedAs, Provisional;
  }

  // ----- the plans -----

  /** The grant, then its kind, then the pin, then the mark, then the delivery
      cleared. */
  function TakeWrites(container: Bytes, pin: OwnerPin): seq<Write> {
    [ PutIdentity(KV_ADOPTION, container),
      PutIdentity(KV_ADOPTION_KIND, KIND_STATEMENT),
      PutIdentity(KV_OWNER_PIN, pin.Encoded()),
      PutIdentity(KV_PIN_PROVISIONAL, [1]),
      ClearDelivery ]
  }

  function Refuse(why: Why): Plan<Outcome> {
    Does([ClearDelivery], Refused(why))
  }

  /** What is done with a container that passed the check. */
  function TakePlan(container: Bytes, checked: Checked, pinned: Option<OwnerPin>): Plan<Outcome> {
    if pinned.Some? && pinned.value.key != checked.pin.key then Refuse(PinnedToAnother)
    else if pinned.Some? && checked.pin.roster < pinned.value.roster then Refuse(RosterOlder)
    else
      var outcome := if pinned.Some? then Rehomed(checked.ownerDid, checked.pin.roster)
                     else Adopted(checked.ownerDid, checked.pin.roster);
      Does(TakeWrites(container, checked.pin), outcome)
  }

  function ApplyPlan(w: World, st: State, myDid: Bytes): Plan<Outcome> {
    match Lookup(st.settings, SETTINGS_ADOPT, ADOPT_MAX)
    case Ok(None) => Does([], Nothing)
    case Err(BufferTooSmall(_)) => Refuse(TooLong)
    case Err(e) => Fails(e)
    case Ok(Some(container)) =>
      match Check(w, container, myDid)
      case Err(why) => Refuse(why)
      case Ok(checked) =>
        match StoredPin(st.identity)
        case Err(e) => Fails(e)
        case Ok(pinned) => TakePlan(container, checked, pinned)
  }

  /** Which outcome answers which circumstance. Nothing is written but the
      clearing of a delivery that is refused; an adoption goes to a device with
      no owner, a rehome to the same owner with no older roster. */
  lemma OutcomeMeaning(w: World, st: State, myDid: Bytes)
    requires SETTINGS_ADOPT !in st.settings.faults
    ensures var plan := ApplyPlan(w, st, myDid);
      if SETTINGS_ADOPT !in st.settings.entries then plan == Does([], Nothing)
      else
        var container := st.settings.entries[SETTINGS_ADOPT];
        if |container| > 8192 then plan == Does([ClearDelivery], Refused(TooLong))
        else match Check(w, container, myDid)
          case Err(why) => plan == Does([ClearDelivery], Refused(why))
          case Ok(checked) =>
            var pinned, next := StoredPin(st.identity), checked.pin;
            && (pinned.Err? ==> plan == Fails(pinned.error))
            && (pinned == Ok(None) ==>
                  plan == Does(TakeWrites(container, next), Adopted(checked.ownerDid, next.roster)))
            && (forall pin: OwnerPin :: pinned == Ok(Some(pin)) ==>
                  && (pin.key != next.key ==> plan == Does([ClearDelivery], Refused(PinnedToAnother)))
                  && (pin.key == next.key && next.roster < pin.roster ==>
                        plan == Does([ClearDelivery], Refused(RosterOlder)))
                  && (pin.key == next.key && pin.roster <= next.roster ==>
                        plan == Does(TakeWrites(container, next), Rehomed(checked.ownerDid, next.roster))))
  {
    hide Check, StoredPin;
  }

  /** The grant first and the pin last. */
  const FORGET_WRITES: seq<Write> :=
    [ RemoveIdentity(KV_ADOPTION),
      RemoveIdentity(KV_ADOPTION_KIND),
      RemoveIdentity(KV_PIN_PROVISIONAL),
      RemoveIdentity(KV_OWNER_PIN) ]

  function ForgetPlan(st: State): Plan<bool> {
    match StoredPin(st.identity)
    case Err(e) => Fails(e)
    case Ok(pinned) => Does(FORGET_WRITES, pinned.Some?)
  }

  // ----- the methods -----

  /** Some cut of `plan` leads from `before` to `after`; `tears` says whether
      the store under it may tear a write. */
  ghost predicate SomeCut<T>(before: State, plan: Plan<T>, after: State, tears: bool) {
    exists cut: Cut :: after == Reached(before, plan, cut) && (cut.torn ==> tears)
  }

  ghost function StateOf(settings: Kv, identity: Kv): State
    reads settings, identity
  {
    State(settings.Snap(), identity.Snap())
  }

  lemma CutAfter<T>(before: State, ws: seq<Write>, value: T, k: nat, after: State, torn: bool, tears: bool)
    requires k <= |ws| && after == CutRun(before, ws, Cut(k, torn)) && (torn ==> tears)
    ensures SomeCut(before, Does(ws, value), after, tears)
  {
    assert after == Reached(before, Does(ws, value), Cut(k, torn));
  }

  /** Write `k` of a plan, a put to the identity store. */
  method PutStep<T>(ghost settings: Kv, identity: Kv, name: Name, value: Bytes,
                    ghost before: State, ghost plan: Plan<T>, ghost k: nat)
    returns (r: Result<(), Error>)
    requires settings != identity && plan.Does?
    requires k < |plan.writes| && plan.writes[k] == PutIdentity(name, value)
    requires StateOf(settings, identity) == PerformAll(before, plan.writes[..k])
    modifies identity`entries
    ensures r.Ok? ==> StateOf(settings, identity) == PerformAll(before, plan.writes[..k + 1])
    ensures r.Err? ==> SomeCut(before, plan, StateOf(settings, identity), !identity.atomic)
  {
    PerformNext(before, plan.writes, k);
    ghost var was := identity.entries;
    r := identity.Put(name, value);
    if r.Err? {
      ghost var fate: Fate :| identity.entries == Written(was, name, value, fate) && (identity.atomic ==> fate != Fate.Torn);
      var written := if fate.Done? then k + 1 else k;
      assert k + 1 == |plan.writes| ==> plan.writes[..k + 1] == plan.writes;
      CutAfter(before, plan.writes, plan.value, written, StateOf(settings, identity), fate.Torn?, !identity.atomic);
    }
  }

  /** Write `k` of a plan, a removal from the identity store. */
  method RemoveStep<T>(ghost settings: Kv, identity: Kv, name: Name,
                       ghost before: State, ghost plan: Plan<T>, ghost k: nat)
    returns (r: Result<bool, Error>)
    requires settings != identity && plan.Does?
    requires k < |plan.writes| && plan.writes[k] == RemoveIdentity(name)
    requires StateOf(settings, identity) == PerformAll(before, plan.writes[..k])
    modifies identity`entries
    ensures r.Ok? ==> StateOf(settings, identity) == PerformAll(before, plan.writes[..k + 1])
    ensures r.Err? ==> SomeCut(before, plan, StateOf(settings, identity), !identity.atomic)
  {
    PerformNext(before, plan.writes, k);
    ghost var was := identity.entries;
    r := identity.Remove(name);
    if r.Err? {
      assert k + 1 == |plan.writes| ==> plan.writes[..k + 1] == plan.writes;
      CutAfter(before, plan.writes, plan.value, if identity.entries == was then k else k + 1,
               StateOf(settings, identity), false, !identity.atomic);
    }
  }

  /** The last write of a plan, clearing the delivery. */
  method ClearStep<T>(settings: Kv, ghost identity: Kv, ghost before: State, ghost plan: Plan<T>, ghost k: nat)
    returns (r: Result<bool, Error>)
    requires settings != identity && plan.Does?
    requires k + 1 == |plan.writes| && plan.writes[k] == ClearDelivery
    requires StateOf(settings, identity) == PerformAll(before, plan.writes[..k])
    modifies settings`entries
    ensures r.Ok? ==> StateOf(settings, identity) == Final(before, plan)
    ensures r.Err? ==> SomeCut(before, plan, StateOf(settings, identity), !identity.atomic)
  {
    PerformNext(before, plan.writes, k);
    assert plan.writes[..k + 1] == plan.writes;
    ghost var was := settings.entries;
    r := settings.Remove(SETTINGS_ADOPT);
    if r.Err? {
      CutAfter(before, plan.writes, plan.value, if settings.entries == was then k else k + 1,
               StateOf(settings, identity), false, !identity.atomic);
    }
  }

  method ReadPin(identity: Kv) returns (r: Result<Option<OwnerPin>, Error>)
    ensures r == StoredPin(identity.Snap())
  {
    var buf := new byte[PIN_LEN];
    var got :- identity.Get(KV_OWNER_PIN, buf);
    if got.None? {
      return Ok(None);
    }
    if got.value != PIN_LEN {
      return Err(Corrupt);
    }
    assert buf[..got.value] == buf[..];
    // the buffer has the pin's length, so this cannot fail
    return Ok(Some(DecodePin(buf[..]).value));
  }

  /** Put the grant, its kind, the pin and the mark, then clear the delivery. */
  method Take(settings: Kv, identity: Kv, container: Bytes, pin: OwnerPin, ghost plan: Plan<Outcome>)
    returns (r: Result<(), Error>)
    requires settings != identity
    requires plan.Does? && plan.writes == TakeWrites(container, pin)
    modifies settings`entries, identity`entries
    ensures r.Ok? ==> StateOf(settings, identity) == Final(old(StateOf(settings, identity)), plan)
    ensures r.Err? ==> SomeCut(old(StateOf(settings, identity)), plan, StateOf(settings, identity), !identity.atomic)
  {
    hide PerformAll, Reached, CutRun, SomeCut, Perform;
    ghost var before := StateOf(settings, identity);
    PerformNone(before, plan.writes);
    var _ :- PutStep(settings, identity, KV_ADOPTION, container, before, plan, 0);
    var _ :- PutStep(settings, identity, KV_ADOPTION_KIND, KIND_STATEMENT, before, plan, 1);
    var buf := new byte[PIN_LEN];
    var encoded := EncodePin(pin, buf);
    assert buf[..] == pin.Encoded();
    var _ :- PutStep(settings, identity, KV_OWNER_PIN, buf[..], before, plan, 2);
    var _ :- PutStep(settings, identity, KV_PIN_PROVISIONAL, [1], before, plan, 3);
    var _ :- ClearStep(settings, identity, before, plan, 4);
    return Ok(());
  }

  /** Clear a delivery that is refused. */
  method Clear(settings: Kv, ghost identity: Kv, ghost plan: Plan<Outcome>) returns (r: Result<(), Error>)
    requires settings != identity
    requires plan.Does? && plan.writes == [ClearDelivery]
    modifies settings`entries
    ensures r.Ok? ==> StateOf(settings, identity) == Final(old(StateOf(settings, identity)), plan)
    ensures r.Err? ==> SomeCut(old(StateOf(settings, identity)), plan, StateOf(settings, identity), !identity.atomic)
  {
    ghost var before := StateOf(settings, identity);
    PerformNone(before, plan.writes);
    var _ :- ClearStep(settings, identity, before, plan, 0);
    return Ok(());
  }

  /** Take the settings' adoption into the identity store. When every write
      succeeds the stores are exactly as the plan leaves them; an error leaves
      them as some cut of it does. */
  method Apply(w: World, settings: Kv, identity: Kv, myDid: Bytes) returns (r: Result<Outcome, Error>)
    requires settings != identity
    modifies settings`entries, identity`entries
    ensures var before := old(StateOf(settings, identity));
      var plan := ApplyPlan(w, before, myDid);
      var after := StateOf(settings, identity);
      && (r.Ok? ==> plan.Does? && r.value == plan.value && after == Final(before, plan))
      && (r.Err? ==> SomeCut(before, plan, after, !identity.atomic))
      && (plan.Fails? ==> r == Err(plan.error) && after == before)
  {
    hide PerformAll, Reached, CutRun, Perform, Check, StoredPin;
    ghost var before := StateOf(settings, identity);
    ghost var plan := ApplyPlan(w, before, myDid);
    NothingDone(before, plan);
    var buf := new byte[ADOPT_MAX];
    var got := settings.Get(SETTINGS_ADOPT, buf);
    match got
    case Ok(None) =>
      return Ok(Nothing);
    case Err(BufferTooSmall(_)) =>
      var _ :- Clear(settings, identity, plan);
      return Ok(Refused(TooLong));
    case Err(e) =>
      return Err(e);
    case Ok(Some(n)) =>
      var container := buf[..n];
      var check := Check(w, container, myDid);
      if check.Err? {
        var _ :- Clear(settings, identity, plan);
        return Ok(Refused(check.error));
      }
      var checked := check.value;
      var pinned := ReadPin(identity);
      if pinned.Err? {
        return Err(pinned.error);
      }
      if pinned.value.Some? {
        var pin := pinned.value.value;
        if pin.key != checked.pin.key {
          var _ :- Clear(settings, identity, plan);
          return Ok(Refused(PinnedToAnother));
        }
        if checked.pin.roster < pin.roster {
          var _ :- Clear(settings, identity, plan);
          return Ok(Refused(RosterOlder));
        }
      }
      var _ :- Take(settings, identity, container, checked.pin, plan);
      if pinned.value.Some? {
        return Ok(Rehomed(checked.ownerDid, checked.pin.roster));
      } else {
        return Ok(Adopted(checked.ownerDid, checked.pin.roster));
      }
  }

  lemma NothingDone<T>(before: State, plan: Plan<T>)
    ensures SomeCut(before, plan, before, false) && SomeCut(before, plan, before, true)
    ensures plan.Does? && plan.writes == [] ==> Final(before, plan) == before
    ensures plan.Fails? ==> Final(before, plan) == before
  {
    var cut := Cut(0, false);
    if plan.Does? {
      PerformNone(before, plan.writes);
    }
    assert before == Reached(before, plan, cut);
  }

  /** Remove the grant, its kind, the mark and the pin; whether an owner was
      held. */
  method Forget(ghost settings: Kv, identity: Kv) returns (r: Result<bool, Error>)
    requires settings != identity
    modifies identity`entries
    ensures var before := old(StateOf(settings, identity));
      var plan := ForgetPlan(before);
      var after := StateOf(settings, identity);
      && (r.Ok? ==> plan.Does? && r.value == plan.value && after == Final(before, plan))
      && (r.Err? ==> SomeCut(before, plan, after, !identity.atomic))
      && (plan.Fails? ==> r == Err(plan.error) && after == before)
    ensures r.Ok? ==> (r.value <==> KV_OWNER_PIN in old(identity.entries))
  {
    hide PerformAll, Reached, CutRun, Perform, StoredPin;
    ghost var before := StateOf(settings, identity);
    ghost var plan := ForgetPlan(before);
    PinIsTheEntry(identity.Snap());
    NothingDone(before, plan);
    var pinned := ReadPin(identity);
    if pinned.Err? {
      return Err(pinned.error);
    }
    var held := pinned.value.Some?;
    PerformNone(before, plan.writes);
    var _ :- RemoveStep(settings, identity, KV_ADOPTION, before, plan, 0);
    var _ :- RemoveStep(settings, identity, KV_ADOPTION_KIND, before, plan, 1);
    var _ :- RemoveStep(settings, identity, KV_PIN_PROVISIONAL, before, plan, 2);
    var _ :- RemoveStep(settings, identity, KV_OWNER_PIN, before, plan, 3);
    assert plan.writes[..4] == plan.writes;
    return Ok(held);
  }

  method ReadMark(identity: Kv) returns (provisional: bool)
    ensures provisional == Provisional(identity.Snap())
    ensures provisional <==>
      && KV_PIN_PROVISIONAL !in identity.faults && KV_PIN_PROVISIONAL in identity.entries
      && identity.entries[KV_PIN_PROVISIONAL] == [1]
  {
    var flag := new byte[1];
    var got := identity.Get(KV_PIN_PROVISIONAL, flag);
    provisional := got == Ok(Some(1)) && flag[0] == 1;
    assert flag[..1] == [flag[0]];
  }

  /** What the status presents. */
  method ReadStored(w: World, identity: Kv, myDid: Bytes) returns (r: Result<Option<Stored>, Error>)
    ensures r == StoredAdoption(w, identity.Snap(), myDid)
    ensures r.Ok? && r.value.Some? ==>
      (r.value.value.provisional <==>
         && KV_PIN_PROVISIONAL !in identity.faults && KV_PIN_PROVISIONAL in identity.entries
         && identity.entries[KV_PIN_PROVISIONAL] == [1])
  {
    hide Check, Adoption.Decoded, Utf8, Provisional;
    var buf := new byte[ADOPT_MAX];
    var got := identity.Get(KV_ADOPTION, buf);
    var bytes := [];
    match got {
      case Ok(Some(n)) =>
        bytes := buf[..n];
      case Ok(None) =>
        return Ok(None);
      case Err(BufferTooSmall(_)) =>
        return Ok(None);
      case Err(e) =>
        return Err(e);
    }
    var kind := new byte[32];
    var gotKind := identity.Get(KV_ADOPTION_KIND, kind);
    var isStatement := false;
    match gotKind {
      case Ok(Some(k)) =>
        isStatement := kind[..k] == KIND_STATEMENT;
      case Ok(None) =>
        isStatement := false;
      case Err(BufferTooSmall(_)) =>
        return Ok(None);
      case Err(e) =>
        return Err(e);
    }
    var provisional := ReadMark(identity);
    if isStatement {
      var check := Check(w, bytes, myDid);
      return Ok(if check.Ok? then Some(Stored(check.value.ownerDid, MataStatement, bytes, provisional)) else None);
    }
    var decoded := Adoption.Decode(bytes);
    if decoded.Ok? && decoded.value.fields.deviceDid == myDid {
      return Ok(Some(Stored(decoded.value.fields.ownerDid, AdoptionV1, bytes, provisional)));
    }
    return Ok(None);
  }
}
