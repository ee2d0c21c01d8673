/** Two partitions open at once on one flash: each behaves as an array of its
    own. */
module Flash {
  import opened Base

  const PAGE_SIZE: u32 := 4096

  const WORD: nat := 4

  /** What programming a byte over another leaves (on NOR flash, bits only
      clear). */
  type Program = (byte, byte) -> byte

  function Programmed(program: Program, was: Bytes, data: Bytes): (r: Bytes)
    requires |was| == |data|
    ensures |r| == |data|
  {
    seq(|data|, i requires 0 <= i < |data| => program(was[i], data[i]))
  }

  /** Bytes `at` to `at + |new|` of `mem` replaced. */
  function Patched(mem: Bytes, at: nat, patch: Bytes): (r: Bytes)
    requires at + |patch| <= |mem|
    ensures |r| == |mem|
  {
    mem[..at] + patch + mem[at + |patch|..]
  }

  /** The chip takes whole words inside its memory. */
  predicate Words(size: nat, at: nat, count: nat) {
    at % WORD == 0 && count % WORD == 0 && at + count <= size
  }

  predicate Sectors(size: nat, from: nat, to: nat) {
    from % PAGE_SIZE == 0 && to % PAGE_SIZE == 0 && from <= to <= size
  }

  // ----- the chip -----

  class FlashStorage {
    const mem: array<byte>
    const program: Program

    constructor (size: nat, program: Program)
      ensures fresh(mem) && mem.Length == size && this.program == program
    {
      this.mem := new byte[size];
      this.program := program;
    }

    method ReadNor(at: u32, buf: array<byte>) returns (ok: bool)
      requires buf != mem
      modifies buf
      ensures ok == Words(mem.Length, at, buf.Length)
      ensures ok ==> buf[..] == mem[at..at + buf.Length]
    {
      if !Words(mem.Length, at, buf.Length) {
        return false;
      }
      CopyInto(buf, 0, mem[at..at + buf.Length]);
      return true;
    }

    method WriteNor(at: u32, data: Bytes) returns (ok: bool)
      modifies mem
      ensures ok == Words(mem.Length, at, |data|)
      ensures ok ==> mem[..] == Patched(old(mem[..]), at, Programmed(program, old(mem[at..at + |data|]), data))
      ensures !ok ==> mem[..] == old(mem[..])
    {
      if !Words(mem.Length, at, |data|) {
        return false;
      }
      CopyInto(mem, at, Programmed(program, mem[at..at + |data|], data));
      return true;
    }

    method Erase(from: u32, to: u32) returns (ok: bool)
      modifies mem
      ensures ok == Sectors(mem.Length, from, to)
      ensures ok ==> mem[..] == Patched(old(mem[..]), from, Fill(to - from, 0xFF))
      ensures !ok ==> mem[..] == old(mem[..])
    {
      if !Sectors(mem.Length, from, to) {
        return false;
      }
      CopyInto(mem, from, Fill(to - from, 0xFF));
      return true;
    }
  }

  // ----- a partition -----

  datatype Partition = Partition(base: u32, len: u32) {
    /** Whole pages, not empty, and the end is a `u32`. */
    predicate Valid() {
      len != 0 && base % PAGE_SIZE == 0 && len % PAGE_SIZE == 0 && base + len < 0x1_0000_0000
    }

    predicate Fits(size: nat) {
      Valid() && base + len <= size
    }
  }

  predicate Disjoint(p: Partition, q: Partition) {
    p.base + p.len <= q.base || q.base + q.len <= p.base
  }

  /** The absolute address of `offset` when `count` bytes from it fit. */
  function At(p: Partition, offset: u32, count: nat): (r: Result<u32, Error>)
    requires p.Valid()
    ensures r.Ok? ==> p.base <= r.value && r.value + count <= p.base + p.len
  {
    if count >= 0x1_0000_0000 then Err(InvalidGeometry)
    else if offset + count >= 0x1_0000_0000 || offset + count > p.len then Err(InvalidGeometry)
    else Ok(p.base + offset)
  }

  datatype Op = Read(offset: u32, count: nat) | Write(offset: u32, data: Bytes) | ErasePage(offset: u32)

  datatype Reply = Data(bytes: Bytes) | Done | Failed(error: Error)

  /** An operation on a partition of the chip's memory. */
  function Step(program: Program, mem: Bytes, p: Partition, op: Op): (r: (Bytes, Reply))
    ensures |r.0| == |mem|
  {
    if !p.Valid() then (mem, Failed(InvalidGeometry))
    else
      match op
      case Read(offset, count) =>
        (match At(p, offset, count)
         case Err(e) => (mem, Failed(e))
         case Ok(at) =>
           if Words(|mem|, at, count) then (mem, Data(mem[at..at + count])) else (mem, Failed(Hardware)))
      case Write(offset, data) =>
        (match At(p, offset, |data|)
         case Err(e) => (mem, Failed(e))
         case Ok(at) =>
           if Words(|mem|, at, |data|) then
             (Patched(mem, at, Programmed(program, mem[at..at + |data|], data)), Done)
           else (mem, Failed(Hardware)))
      case ErasePage(offset) =>
        (match At(p, offset, PAGE_SIZE)
         case Err(e) => (mem, Failed(e))
         case Ok(at) =>
           if Sectors(|mem|, at, at + PAGE_SIZE) then (Patched(mem, at, Fill(PAGE_SIZE, 0xFF)), Done)
           else (mem, Failed(Hardware)))
  }

  /** One partition of the flash, borrowed. */
  class PartitionFlash {
    const storage: FlashStorage
    const part: Partition

    constructor (storage: FlashStorage, part: Partition)
      ensures this.storage == storage && this.part == part
    {
      this.storage, this.part := storage, part;
    }

    method Read(offset: u32, buf: array<byte>) returns (r: Result<(), Error>)
      requires part.Valid() && buf != storage.mem
      modifies buf
      ensures var (_, reply) := Step(storage.program, storage.mem[..], part, Op.Read(offset, buf.Length));
        match r
        case Ok(_) => reply == Data(buf[..])
        case Err(e) => reply == Failed(e)
    {
      var at :- At(part, offset, buf.Length);
      var ok := storage.ReadNor(at, buf);
      assert Words(storage.mem.Length, at, buf.Length) ==> storage.mem[..][at..at + buf.Length] == storage.mem[at..at + buf.Length];
      return if ok then Ok(()) else Err(Hardware);
    }

    method Write(offset: u32, data: Bytes) returns (r: Result<(), Error>)
      requires part.Valid()
      modifies storage.mem
      ensures var (mem, reply) := Step(storage.program, old(storage.mem[..]), part, Op.Write(offset, data));
        storage.mem[..] == mem && reply == match r case Ok(_) => Done case Err(e) => Failed(e)
    {
      var at :- At(part, offset, |data|);
      assert Words(storage.mem.Length, at, |data|) ==> storage.mem[..][at..at + |data|] == storage.mem[at..at + |data|];
      var ok := storage.WriteNor(at, data);
      return if ok then Ok(()) else Err(Hardware);
    }

    /** The end of the page is a `u32`: the addition cannot overflow. */
    method ErasePage(offset: u32) returns (r: Result<(), Error>)
      requires part.Valid()
      modifies storage.mem
      ensures var (mem, reply) := Step(storage.program, old(storage.mem[..]), part, Op.ErasePage(offset));
        storage.mem[..] == mem && reply == match r case Ok(_) => Done case Err(e) => Failed(e)
    {
      var at :- At(part, offset, PAGE_SIZE);
      var end: u32 := at + PAGE_SIZE;
      var ok := storage.Erase(at, end);
      return if ok then Ok(()) else Err(Hardware);
    }
  }

  /** Open a partition, or `InvalidGeometry`. */
  method Open(storage: FlashStorage, part: Partition) returns (r: Result<PartitionFlash, Error>)
    ensures r.Ok? <==> part.Valid()
    ensures r.Ok? ==> r.value.storage == storage && r.value.part == part
    ensures r.Err? ==> r.error == InvalidGeometry
  {
    if part.len == 0 || part.base % PAGE_SIZE != 0 || part.len % PAGE_SIZE != 0
       || part.base + part.len >= 0x1_0000_0000 {
      return Err(InvalidGeometry);
    }
    var p := new PartitionFlash(storage, part);
    return Ok(p);
  }

  /** A partition of a flash others hold too: it is opened for each operation. */
  class SharedPartition {
    const storage: FlashStorage
    const part: Partition

    constructor (storage: FlashStorage, part: Partition)
      ensures this.storage == storage && this.part == part
    {
      this.storage, this.part := storage, part;
    }

    method Read(offset: u32, buf: array<byte>) returns (r: Result<(), Error>)
      requires buf != storage.mem
      modifies buf
      ensures var (_, reply) := Step(storage.program, storage.mem[..], part, Op.Read(offset, buf.Length));
        match r
        case Ok(_) => reply == Data(buf[..])
        case Err(e) => reply == Failed(e)
    {
      var p :- Open(storage, part);
      r := p.Read(offset, buf);
    }

    method Write(offset: u32, data: Bytes) returns (r: Result<(), Error>)
      modifies storage.mem
      ensures var (mem, reply) := Step(storage.program, old(storage.mem[..]), part, Op.Write(offset, data));
        storage.mem[..] == mem && reply == match r case Ok(_) => Done case Err(e) => Failed(e)
    {
      var p :- Open(storage, part);
      r := p.Write(offset, data);
    }

    method ErasePage(offset: u32) returns (r: Result<(), Error>)
      modifies storage.mem
      ensures var (mem, reply) := Step(storage.program, old(storage.mem[..]), part, Op.ErasePage(offset));
        storage.mem[..] == mem && reply == match r case Ok(_) => Done case Err(e) => Failed(e)
    {
      var p :- Open(storage, part);
      r := p.ErasePage(offset);
    }
  }

  // ----- isolation -----

  function Slice(mem: Bytes, p: Partition): (s: Bytes)
    requires p.Fits(|mem|)
    ensures |s| == p.len
  {
    mem[p.base..p.base + p.len]
  }

  /** The partition as a flash of its own. */
  function Alone(p: Partition): (q: Partition)
    requires p.Valid()
    ensures q.Valid()
  {
    Partition(0, p.len)
  }

  lemma PatchedRange(mem: Bytes, base: nat, len: nat, at: nat, patch: Bytes)
    requires base <= at && at + |patch| <= base + len <= |mem|
    ensures Patched(mem, at, patch)[base..base + len] == Patched(mem[base..base + len], at - base, patch)
  {
  }

  lemma PatchedElsewhere(mem: Bytes, base: nat, len: nat, at: nat, patch: Bytes)
    requires base + len <= |mem| && at + |patch| <= |mem|
    requires at + |patch| <= base || base + len <= at
    ensures Patched(mem, at, patch)[base..base + len] == mem[base..base + len]
  {
  }

  lemma RangeOfRange(mem: Bytes, base: nat, len: nat, offset: nat, count: nat)
    requires base + len <= |mem| && offset + count <= len
    ensures mem[base..base + len][offset..offset + count] == mem[base + offset..base + offset + count]
  {
    var whole := mem[base..base + len];
    var a, b := whole[offset..offset + count], mem[base + offset..base + offset + count];
    forall i | 0 <= i < count
      ensures a[i] == b[i]
    {
      assert a[i] == whole[offset + i] == mem[base + offset + i];
    }
  }

  lemma PatchInside(mem: Bytes, p: Partition, at: nat, patch: Bytes)
    requires p.Fits(|mem|) && p.base <= at && at + |patch| <= p.base + p.len
    ensures Slice(Patched(mem, at, patch), p) == Patched(Slice(mem, p), at - p.base, patch)
  {
    hide Partition.Valid, Patched;
    PatchedRange(mem, p.base, p.len, at, patch);
  }

  lemma PatchOutside(mem: Bytes, p: Partition, q: Partition, at: nat, patch: Bytes)
    requires p.Fits(|mem|) && q.Fits(|mem|) && Disjoint(p, q)
    requires p.base <= at && at + |patch| <= p.base + p.len
    ensures Slice(Patched(mem, at, patch), q) == Slice(mem, q)
  {
    hide Partition.Valid, Patched;
    PatchedElsewhere(mem, q.base, q.len, at, patch);
  }

  lemma SliceRange(mem: Bytes, p: Partition, offset: nat, count: nat)
    requires p.Fits(|mem|) && offset + count <= p.len
    ensures Slice(mem, p)[offset..offset + count] == mem[p.base + offset..p.base + offset + count]
  {
    hide Partition.Valid;
    RangeOfRange(mem, p.base, p.len, offset, count);
  }

  lemma PageMultiple(k: nat, offset: nat)
    ensures (4096 * k + offset) % 4096 == offset % 4096
  {
  }

  lemma WordMultiple(k: nat, offset: nat)
    ensures (4 * k + offset) % 4 == offset % 4
  {
  }

  lemma PageOffset(base: nat, offset: nat)
    requires base % 4096 == 0
    ensures (base + offset) % 4 == offset % 4
    ensures (base + offset) % 4096 == offset % 4096
  {
    var k := base / 4096;
    assert base == 4096 * k;
    PageMultiple(k, offset);
    assert base == 4 * (1024 * k);
    WordMultiple(1024 * k, offset);
  }

  /** What answers an operation on a partition that is on the chip: no geometry
      error exactly when it stays inside the partition, and success exactly
      when it is of whole words, or of one whole page, besides. */
  lemma StepMeaning(program: Program, mem: Bytes, p: Partition, op: Op)
    requires p.Fits(|mem|)
    ensures var count := match op case Read(_, n) => n case Write(_, data) => |data| case ErasePage(_) => 4096;
      var inside := op.offset + count <= p.len;
      var aligned := if op.ErasePage? then op.offset % 4096 == 0 else op.offset % 4 == 0 && count % 4 == 0;
      var (after, reply) := Step(program, mem, p, op);
      && (!inside ==> reply == Failed(InvalidGeometry))
      && (inside && !aligned ==> reply == Failed(Hardware))
      && (inside && aligned ==> !reply.Failed?)
      && (reply.Failed? ==> after == mem)
  {
    hide Patched, Programmed;
    PageOffset(p.base, op.offset);
    PageOffset(p.base, op.offset + 4096);
  }

  /** A partition that is not of whole pages, or is empty, or ends past a
      `u32`, answers nothing. */
  lemma BadGeometry(program: Program, mem: Bytes, p: Partition, op: Op)
    requires p.len == 0 || p.base % 4096 != 0 || p.len % 4096 != 0 || p.base + p.len > 0xFFFF_FFFF
    ensures Step(program, mem, p, op) == (mem, Failed(InvalidGeometry))
  {
  }

  /** What was written reads back: byte by byte, what programming it over the
      old contents leaves. */
  lemma WriteReadsBack(program: Program, mem: Bytes, p: Partition, offset: u32, data: Bytes)
    requires p.Fits(|mem|) && Step(program, mem, p, Op.Write(offset, data)).1 == Done
    ensures var was := Step(program, mem, p, Op.Read(offset, |data|)).1;
      var now := Step(program, Step(program, mem, p, Op.Write(offset, data)).0, p, Op.Read(offset, |data|)).1;
      && was.Data? && now.Data? && |was.bytes| == |now.bytes| == |data|
      && (forall i :: 0 <= i < |data| ==> now.bytes[i] == program(was.bytes[i], data[i]))
  {
    hide Partition.Valid, Programmed, Patched;
    var at := p.base + offset;
    var patch := Programmed(program, mem[at..at + |data|], data);
    PatchReads(mem, at, patch);
    ProgrammedByte(program, mem[at..at + |data|], data);
  }

  lemma ProgrammedByte(program: Program, was: Bytes, data: Bytes)
    requires |was| == |data|
    ensures forall i :: 0 <= i < |data| ==> Programmed(program, was, data)[i] == program(was[i], data[i])
  {
  }

  /** An erased page reads as 255 throughout. */
  lemma EraseReadsBack(program: Program, mem: Bytes, p: Partition, offset: u32)
    requires p.Fits(|mem|) && Step(program, mem, p, Op.ErasePage(offset)).1 == Done
    ensures Step(program, Step(program, mem, p, Op.ErasePage(offset)).0, p, Op.Read(offset, 4096)).1 == Data(Fill(4096, 255))
  {
    hide Patched;
    var at := p.base + offset;
    PatchReads(mem, at, Fill(4096, 255));
    PageIsWords(at);
  }

  lemma PatchReads(mem: Bytes, at: nat, patch: Bytes)
    requires at + |patch| <= |mem|
    ensures Patched(mem, at, patch)[at..at + |patch|] == patch
  {
  }

  lemma PageIsWords(at: nat)
    requires at % 4096 == 0
    ensures at % 4 == 0
  {
    assert at == 4 * (1024 * (at / 4096));
  }

  /** An operation on a partition is the operation on an array of its own. */
  lemma OwnStep(program: Program, mem: Bytes, p: Partition, op: Op)
    requires p.Fits(|mem|)
    ensures var (after, reply) := Step(program, mem, p, op);
      Step(program, Slice(mem, p), Alone(p), op) == (Slice(after, p), reply)
  {
    hide Patched, Programmed;
    PageOffset(p.base, op.offset);
    PageOffset(p.base, op.offset + 4096);
    match op
    case Read(offset, count) =>
      if At(p, offset, count).Ok? {
        SliceRange(mem, p, offset, count);
      }
    case Write(offset, data) =>
      if At(p, offset, |data|).Ok? {
        var at := p.base + offset;
        SliceRange(mem, p, offset, |data|);
        PatchInside(mem, p, at, Programmed(program, mem[at..at + |data|], data));
      }
    case ErasePage(offset) =>
      if At(p, offset, PAGE_SIZE).Ok? {
        PatchInside(mem, p, p.base + offset, Fill(PAGE_SIZE, 0xFF));
      }
  }

  /** It does not touch another partition. */
  lemma OtherStep(program: Program, mem: Bytes, p: Partition, q: Partition, op: Op)
    requires p.Fits(|mem|) && q.Fits(|mem|) && Disjoint(p, q)
    ensures Slice(Step(program, mem, p, op).0, q) == Slice(mem, q)
  {
    hide Patched, Programmed;
    match op
    case Read(_, _) =>
    case Write(offset, data) =>
      if At(p, offset, |data|).Ok? {
        var at := p.base + offset;
        PatchOutside(mem, p, q, at, Programmed(program, mem[at..at + |data|], data));
      }
    case ErasePage(offset) =>
      if At(p, offset, PAGE_SIZE).Ok? {
        PatchOutside(mem, p, q, p.base + offset, Fill(PAGE_SIZE, 0xFF));
      }
  }

  /** An operation, and whether it is on the first partition. */
  datatype Turn = Turn(first: bool, op: Op)

  /** Interleaved operations on two partitions of one memory, and their replies. */
  function Shared(program: Program, mem: Bytes, p: Partition, q: Partition, turns: seq<Turn>): (r: (Bytes, seq<Reply>))
    ensures |r.0| == |mem| && |r.1| == |turns|
  {
    if turns == [] then (mem, [])
    else
      var (before, replies) := Shared(program, mem, p, q, turns[..|turns| - 1]);
      var turn := turns[|turns| - 1];
      var (after, reply) := Step(program, before, if turn.first then p else q, turn.op);
      (after, replies + [reply])
  }

  /** One partition's operations by themselves, on an array of its own. */
  function Single(program: Program, mem: Bytes, p: Partition, ops: seq<Op>): (Bytes, seq<Reply>) {
    if ops == [] then (mem, [])
    else
      var (before, replies) := Single(program, mem, p, ops[..|ops| - 1]);
      var (after, reply) := Step(program, before, p, ops[|ops| - 1]);
      (after, replies + [reply])
  }

  function OpsOf(turns: seq<Turn>, first: bool): seq<Op> {
    if turns == [] then []
    else
      var last := turns[|turns| - 1];
      OpsOf(turns[..|turns| - 1], first) + if last.first == first then [last.op] else []
  }

  function RepliesOf(turns: seq<Turn>, replies: seq<Reply>, first: bool): seq<Reply>
    requires |turns| == |replies|
  {
    if turns == [] then []
    else
      var n := |turns| - 1;
      RepliesOf(turns[..n], replies[..n], first) + if turns[n].first == first then [replies[n]] else []
  }

  lemma SingleNone(program: Program, mem: Bytes, p: Partition)
    ensures Single(program, mem, p, []) == (mem, [])
  {
  }

  lemma SingleNext(program: Program, mem: Bytes, p: Partition, ops: seq<Op>, op: Op)
    ensures var (before, replies) := Single(program, mem, p, ops);
      var (after, reply) := Step(program, before, p, op);
      Single(program, mem, p, ops + [op]) == (after, replies + [reply])
  {
    hide Step;
    assert (ops + [op])[..|ops|] == ops;
  }

  /** Partitions are isolated: in any interleaving of reads, writes and erases
      on two disjoint partitions, each partition's bytes and replies are those
      of its own operations run on an array of its own. */
  lemma {:induction false} PartitionsAreIsolated(program: Program, mem: Bytes, p: Partition, q: Partition,
                                                 turns: seq<Turn>, first: bool)
    requires p.Fits(|mem|) && q.Fits(|mem|) && Disjoint(p, q)
    ensures var mine := if first then p else q;
      var (after, replies) := Shared(program, mem, p, q, turns);
      Single(program, Slice(mem, mine), Alone(mine), OpsOf(turns, first))
        == (Slice(after, mine), RepliesOf(turns, replies, first))
  {
    hide Step, Slice, Single;
    var mine := if first then p else q;
    if turns == [] {
      SingleNone(program, Slice(mem, mine), Alone(mine));
    } else {
      var earlier, turn := turns[..|turns| - 1], turns[|turns| - 1];
      PartitionsAreIsolated(program, mem, p, q, earlier, first);
      var (before, replies) := Shared(program, mem, p, q, earlier);
      var theirs := if turn.first then p else q;
      var (after, reply) := Step(program, before, theirs, turn.op);
      var ops := OpsOf(earlier, first);
      assert (replies + [reply])[..|earlier|] == replies;
      if turn.first == first {
        OwnStep(program, before, mine, turn.op);
        SingleNext(program, Slice(mem, mine), Alone(mine), ops, turn.op);
      } else {
        OtherStep(program, before, theirs, mine, turn.op);
        assert ops + [] == ops;
        assert RepliesOf(earlier, replies, first) + [] == RepliesOf(earlier, replies, first);
      }
    }
  }

  /** No byte outside the two partitions is ever changed. */
  lemma {:induction false} NothingElseChanges(program: Program, mem: Bytes, p: Partition, q: Partition,
                                              turns: seq<Turn>, i: nat)
    requires i < |mem| && p.Fits(|mem|) && q.Fits(|mem|)
    requires !(p.base <= i < p.base + p.len) && !(q.base <= i < q.base + q.len)
    ensures Shared(program, mem, p, q, turns).0[i] == mem[i]
  {
    hide Programmed;
    if turns != [] {
      NothingElseChanges(program, mem, p, q, turns[..|turns| - 1], i);
    }
  }
}
