/** The key-value seam: names to byte strings, reads that may fail, and writes
    that a power cut may lose. */
module Store {
  import opened Base

  type Name = string

  type Entries = map<Name, Bytes>

  /** What a store holds, and the names whose reads fail and how. */
  datatype Snapshot = Snapshot(entries: Entries, faults: map<Name, Error>)

  /** A read of `name` into `room` bytes: its value, that it is absent, that
      the room is too small (and how much it needs), or the store's error. */
  function Lookup(s: Snapshot, name: Name, room: nat): Result<Option<Bytes>, Error> {
    if name in s.faults then Err(s.faults[name])
    else if name !in s.entries then Ok(None)
    else if |s.entries[name]| > room then Err(BufferTooSmall(|s.entries[name]|))
    else Ok(Some(s.entries[name]))
  }

  /** What became of one write: done; lost, the old entry kept; or torn, the
      entry gone (a replace that removes the old value first). */
  datatype Fate = Done | Lost | Torn

  function Written<V>(e: map<Name, V>, name: Name, value: V, fate: Fate): map<Name, V> {
    match fate
    case Done => e[name := value]
    case Lost => e
    case Torn => e - {name}
  }

  /** A store. `atomic` stores never tear a write. */
  class Kv {
    var entries: Entries
    const faults: map<Name, Error>
    const atomic: bool

    function Snap(): Snapshot
      reads this
    {
      Snapshot(entries, faults)
    }

    constructor (faults: map<Name, Error>, atomic: bool)
      ensures entries == map[] && this.faults == faults && this.atomic == atomic
    {
      this.entries, this.faults, this.atomic := map[], faults, atomic;
    }

    /** Read `name` into the front of `out`. */
    method Get(name: Name, out: array<byte>) returns (r: Result<Option<nat>, Error>)
      modifies out
      ensures match Lookup(Snap(), name, out.Length)
              case Err(e) => r == Err(e)
              case Ok(None) => r == Ok(None)
              case Ok(Some(v)) =>
                r == Ok(Some(|v|)) && |v| <= out.Length && out[..|v|] == v && out[|v|..] == old(out[|v|..])
    {
      var found :- Lookup(Snap(), name, out.Length);
      if found.None? {
        return Ok(None);
      }
      CopyInto(out, 0, found.value);
      assert out[..|found.value|] == found.value;
      return Ok(Some(|found.value|));
    }

    /** Write `name`. An error may leave the old entry, the new one, or, when
        the store is not atomic, none. */
    method Put(name: Name, value: Bytes) returns (r: Result<(), Error>)
      modifies this`entries
      ensures r.Ok? ==> entries == Written(old(entries), name, value, Done)
      ensures r.Err? ==> exists fate: Fate ::
        entries == Written(old(entries), name, value, fate) && (atomic ==> fate != Torn)
    {
      var fails: bool, fate: Fate := *, *;
      if !fails || (atomic && fate.Torn?) {
        entries := Written(entries, name, value, Done);
        return Ok(());
      }
      entries := Written(entries, name, value, fate);
      return Err(Hardware);
    }

    /** Remove `name`; whether it was there. An error may leave it or not. */
    method Remove(name: Name) returns (r: Result<bool, Error>)
      modifies this`entries
      ensures r.Ok? ==> entries == old(entries) - {name} && r.value == (name in old(entries))
      ensures r.Err? ==> entries == old(entries) || entries == old(entries) - {name}
    {
      var fails: bool, gone: bool := *, *;
      if fails {
        if gone {
          entries := entries - {name};
        }
        return Err(Hardware);
      }
      r := Ok(name in entries);
      entries := entries - {name};
    }
  }

  /** What a generator will give: draw `k` fails, or fills with `bytes(k, _)`. */
  datatype Entropy = Entropy(fails: nat -> Option<Error>, bytes: (nat, nat) -> byte) {
    function Draw(k: nat, len: nat): (r: Result<Bytes, Error>)
      ensures r.Ok? ==> |r.value| == len
    {
      if fails(k).Some? then Err(fails(k).value) else Ok(seq(len, i requires 0 <= i => bytes(k, i)))
    }
  }

  /** The chip's random generator. */
  class Rng {
    const entropy: Entropy
    var drawn: nat

    constructor (entropy: Entropy)
      ensures this.entropy == entropy && drawn == 0
    {
      this.entropy, this.drawn := entropy, 0;
    }

    /** Fill `out`. */
    method Fill(out: array<byte>) returns (r: Result<(), Error>)
      modifies this`drawn, out
      ensures drawn == old(drawn) + 1
      ensures entropy.Draw(old(drawn), out.Length).Ok? ==>
        r == Ok(()) && out[..] == entropy.Draw(old(drawn), out.Length).value
      ensures entropy.Draw(old(drawn), out.Length).Err? ==>
        r == Err(entropy.Draw(old(drawn), out.Length).error)
    {
      var got := entropy.Draw(drawn, out.Length);
      drawn := drawn + 1;
      if got.Err? {
        return Err(got.error);
      }
      CopyInto(out, 0, got.value);
      return Ok(());
    }
  }
}
