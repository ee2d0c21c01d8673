/** The partition table: where it is, and how a label is found in it. */
module Partitions {
  import opened Base
  import Flash
  import Radix
  import Wire

  const MAX_ENTRIES: nat := 95

  const ENTRY_LEN: nat := 32

  const LABEL_LEN: nat := 16

  const MAGIC: Bytes := [0xAA, 0x50]

  const MD5_MAGIC: Bytes := [0xEB, 0xEB]

  const BLANK: Bytes := [0xFF, 0xFF]

  // ----- the table's offset, a build setting -----

  function Digit(c: byte, radix: nat): (d: Option<nat>)
    requires radix == 10 || radix == 16
    ensures d.Some? ==> d.value < radix
  {
    if '0' as int <= c <= '9' as int then Some(c - '0' as int)
    else if radix == 16 && 'a' as int <= c <= 'f' as int then Some(c - 'a' as int + 10)
    else if radix == 16 && 'A' as int <= c <= 'F' as int then Some(c - 'A' as int + 10)
    else None
  }

  /** The digits of a text, when all of it is digits. */
  function DigitsOf(s: Bytes, radix: nat): (d: Option<seq<nat>>)
    requires radix == 10 || radix == 16
  {
    if s == [] then Some([])
    else
      match (DigitsOf(s[..|s| - 1], radix), Digit(s[|s| - 1], radix))
      case (Some(front), Some(last)) => Some(front + [last])
      case _ => None
  }

  predicate IsHex(s: Bytes) {
    |s| > 2 && s[0] == '0' as int && (s[1] == 'x' as int || s[1] == 'X' as int)
  }

  /** The setting's number, or `None` where the build stops: no digits, a
      character that is none, or a value that is no `u32`. */
  function Setting(s: Bytes): (v: Option<u32>) {
    var (body, radix) := if IsHex(s) then (s[2..], 16) else (s, 10);
    if body == [] then None
    else
      match DigitsOf(body, radix)
      case Some(d) => if Radix.Value(radix, d) < 0x1_0000_0000 then Some(Radix.Value(radix, d)) else None
      case None => None
  }

  /** `s` is `d` in characters: decimal digits, or with the letters of either
      case for ten and more. */
  predicate Spells(s: Bytes, d: seq<nat>, radix: nat) {
    && |s| == |d|
    && forall i :: 0 <= i < |s| ==>
         && d[i] < radix
         && if d[i] < 10 then s[i] == '0' as int + d[i]
            else s[i] == 'a' as int + d[i] - 10 || s[i] == 'A' as int + d[i] - 10
  }

  lemma {:induction false} DigitsAreSpelled(s: Bytes, d: seq<nat>, radix: nat)
    requires radix == 10 || radix == 16
    ensures DigitsOf(s, radix) == Some(d) <==> Spells(s, d, radix)
  {
    if s != [] && d != [] {
      var n, m := |s| - 1, |d| - 1;
      DigitsAreSpelled(s[..n], d[..m], radix);
      assert d == d[..m] + [d[m]];
      if Spells(s, d, radix) {
        assert Digit(s[n], radix) == Some(d[n]);
      }
    }
  }

  /** The setting is the number its text writes: hexadecimal behind `0x` or
      `0X`, else decimal, with at least one digit and within a `u32`. */
  lemma SettingMeaning(s: Bytes, v: u32)
    ensures Setting(s) == Some(v) <==>
      exists d: seq<nat> :: d != [] &&
        if |s| > 2 && s[0] == 0x30 && (s[1] == 0x78 || s[1] == 0x58) then
          Spells(s[2..], d, 16) && Radix.Value(16, d) == v
        else
          Spells(s, d, 10) && Radix.Value(10, d) == v
  {
    hide DigitsOf, Radix.Value, Spells;
    var (body, radix) := if IsHex(s) then (s[2..], 16) else (s, 10);
    if Setting(s) == Some(v) {
      DigitsAreSpelled(body, DigitsOf(body, radix).value, radix);
      SpellsAll(body, DigitsOf(body, radix).value, radix);
    }
    forall d: seq<nat> | d != [] && Spells(body, d, radix) && Radix.Value(radix, d) == v
      ensures Setting(s) == Some(v)
    {
      DigitsAreSpelled(body, d, radix);
      SpellsAll(body, d, radix);
    }
  }

  lemma SpellsAll(s: Bytes, d: seq<nat>, radix: nat)
    requires Spells(s, d, radix)
    ensures |s| == |d|
  {
  }

  /** A longer text of digits is no smaller a number, so an overflow on the way
      is an overflow of the whole. */
  lemma {:induction false} PrefixIsSmaller(s: Bytes, k: nat, radix: nat)
    requires (radix == 10 || radix == 16) && k <= |s| && DigitsOf(s, radix).Some?
    ensures DigitsOf(s[..k], radix).Some?
    ensures Radix.Value(radix, DigitsOf(s[..k], radix).value) <= Radix.Value(radix, DigitsOf(s, radix).value)
    decreases |s|
  {
    if k == |s| {
      assert s[..k] == s;
    } else {
      var front := s[..|s| - 1];
      PrefixIsSmaller(front, k, radix);
      assert front[..k] == s[..k];
      var d := DigitsOf(front, radix).value;
      Radix.ValueSnoc(radix, d, Digit(s[|s| - 1], radix).value);
      Radix.MulMono(1, radix, Radix.Value(radix, d));
    }
  }

  lemma NoDigits(s: Bytes, radix: nat)
    requires s == [] && (radix == 10 || radix == 16)
    ensures DigitsOf(s, radix) == Some([]) && Radix.Value(radix, []) == 0
  {
  }

  method ParseU32(s: Bytes) returns (v: Option<u32>)
    ensures v == Setting(s)
  {
    hide DigitsOf, Digit;
    var i, radix := 0, 10;
    if IsHex(s) {
      i, radix := 2, 16;
    }
    if i >= |s| {
      return None;
    }
    ghost var body := s[i..];
    ghost var start := i;
    assert body[..0] == [];
    var n: u32 := 0;
    NoDigits(body[..0], radix);
    while i < |s|
      invariant start <= i <= |s| && body == s[start..]
      invariant DigitsOf(body[..i - start], radix) == Some(Front(body, i - start, radix))
      invariant n == Radix.Value(radix, Front(body, i - start, radix))
    {
      NextDigit(body, i - start, radix);
      var d := Digit(s[i], radix);
      if d.None? {
        return None;
      }
      if n * radix + d.value >= 0x1_0000_0000 {
        return None;
      }
      n := n * radix + d.value;
      i := i + 1;
    }
    assert body[..|body|] == body;
    return Some(n);
  }

  /** The digits of the first `k` characters, if they are digits. */
  ghost function Front(s: Bytes, k: nat, radix: nat): seq<nat>
    requires (radix == 10 || radix == 16) && k <= |s|
  {
    if DigitsOf(s[..k], radix).Some? then DigitsOf(s[..k], radix).value else []
  }

  /** One more character: a digit extends the number, and an overflow of it is
      an overflow of the whole; anything else spoils the text. */
  lemma NextDigit(s: Bytes, k: nat, radix: nat)
    requires (radix == 10 || radix == 16) && k < |s| && DigitsOf(s[..k], radix).Some?
    ensures DigitsOf(s[..k + 1], radix).Some? <==> Digit(s[k], radix).Some?
    ensures Digit(s[k], radix).None? ==> DigitsOf(s, radix) == None
    ensures Digit(s[k], radix).Some? ==>
      Radix.Value(radix, Front(s, k + 1, radix)) == Radix.Value(radix, Front(s, k, radix)) * radix + Digit(s[k], radix).value
    ensures DigitsOf(s, radix).Some? ==>
      Radix.Value(radix, Front(s, k + 1, radix)) <= Radix.Value(radix, DigitsOf(s, radix).value)
  {
    var front := s[..k + 1];
    assert front[..k] == s[..k] && front[k] == s[k];
    if Digit(s[k], radix).Some? {
      Radix.ValueSnoc(radix, DigitsOf(s[..k], radix).value, Digit(s[k], radix).value);
    }
    if DigitsOf(s, radix).Some? {
      PrefixIsSmaller(s, k + 1, radix);
    }
  }

  // ----- the table -----

  datatype Entry = Entry(kind: byte, subtype: byte, offset: u32, len: u32, rawLabel: Bytes) {
    function Range(): Flash.Partition {
      Flash.Partition(offset, len)
    }

    /** The label, as far as its first NUL or blank byte; none when it is not
        text. */
    function Label(): Bytes {
      var text := rawLabel[..LabelEnd(rawLabel)];
      if Utf8(text) then text else []
    }
  }

  function LabelEnd(raw: Bytes): (n: nat)
    ensures n <= |raw|
    ensures forall i :: 0 <= i < n ==> raw[i] != 0 && raw[i] != 0xFF
    ensures n < |raw| ==> raw[n] == 0 || raw[n] == 0xFF
  {
    if raw == [] || raw[0] == 0 || raw[0] == 0xFF then 0 else 1 + LabelEnd(raw[1..])
  }

  /** Least significant byte first. */
  function FromLe(b: Bytes): (n: u32)
    requires |b| == 4
    ensures n == b[0] as int + 256 * b[1] as int + 65536 * b[2] as int + 16777216 * b[3] as int
  {
    var digits := [b[3], b[2], b[1], b[0]];
    Wire.Widths();
    Wire.FromBeBound(digits);
    ValueOfFour(digits);
    Wire.FromBe(digits)
  }

  lemma ValueOfFour(d: Bytes)
    requires |d| == 4
    ensures Wire.FromBe(d) == 16777216 * d[0] as int + 65536 * d[1] as int + 256 * d[2] as int + d[3] as int
  {
    assert d[..3][..2] == d[..2] && d[..2][..1] == d[..1] && d[..1][..0] == [];
    assert Radix.Value(256, d[..1]) == d[0];
    assert Radix.Value(256, d[..2]) == 256 * Radix.Value(256, d[..1]) + d[1];
    assert Radix.Value(256, d[..3]) == 256 * Radix.Value(256, d[..2]) + d[2];
  }

  function Le(n: u32): (b: Bytes)
    ensures |b| == 4
  {
    [n % 256, n / 256 % 256, n / 256 / 256 % 256, n / 256 / 256 / 256]
  }

  lemma LeInverse(n: u32, b: Bytes)
    requires |b| == 4
    ensures b == Le(n) <==> FromLe(b) == n
  {
    Quotients(n);
    if FromLe(b) == n {
      Remainders(b[0], b[1], b[2], b[3]);
    }
  }

  lemma Quotients(n: nat)
    ensures n == n % 256 + 256 * (n / 256 % 256) + 65536 * (n / 256 / 256 % 256) + 16777216 * (n / 256 / 256 / 256)
  {
  }

  lemma Remainders(b0: byte, b1: byte, b2: byte, b3: byte)
    ensures var n: int := b0 + 256 * b1 + 65536 * b2 + 16777216 * b3;
      n % 256 == b0 && n / 256 % 256 == b1 && n / 256 / 256 % 256 == b2 && n / 256 / 256 / 256 == b3
  {
    var n: int := b0 + 256 * b1 + 65536 * b2 + 16777216 * b3;
    assert n / 256 == b1 + 256 * b2 + 65536 * b3;
    assert n / 256 / 256 == b2 + 256 * b3;
  }

  function Chunk(table: Bytes, k: nat): (c: Bytes)
    requires |table| == MAX_ENTRIES * ENTRY_LEN && k < MAX_ENTRIES
    ensures |c| == ENTRY_LEN
  {
    table[k * ENTRY_LEN..(k + 1) * ENTRY_LEN]
  }

  function EntryOf(c: Bytes): Entry
    requires |c| == ENTRY_LEN
  {
    Entry(c[2], c[3], FromLe(c[4..8]), FromLe(c[8..12]), c[12..28])
  }

  /** An entry as the table holds it, but for its four bytes of flags. */
  function EntryBytes(e: Entry): Bytes {
    [0xAA, 0x50, e.kind, e.subtype] + Le(e.offset) + Le(e.len) + e.rawLabel
  }

  /** An entry reads back as itself, and nothing else reads as it. */
  lemma EntryRoundTrip(c: Bytes, e: Entry)
    requires |c| == ENTRY_LEN && |e.rawLabel| == LABEL_LEN
    ensures Live(c) && EntryOf(c) == e <==> c[..28] == EntryBytes(e)
  {
    hide Le, FromLe;
    LeInverse(e.offset, c[4..8]);
    LeInverse(e.len, c[8..12]);
    var b := EntryBytes(e);
    assert b[4..8] == Le(e.offset) && b[8..12] == Le(e.len) && b[12..28] == e.rawLabel;
    if c[..28] == b {
      assert c[..2] == b[..2] && c[2] == b[2] && c[3] == b[3];
      assert c[4..8] == b[4..8] && c[8..12] == b[8..12] && c[12..28] == b[12..28];
    }
    if Live(c) && EntryOf(c) == e {
      assert c[0] == c[..2][0] && c[1] == c[..2][1];
      assert c[..28] == c[..4] + c[4..8] + c[8..12] + c[12..28];
    }
  }

  /** A label in its field, the rest of it `fill`. */
  function Padded(name: Bytes, fill: byte): (raw: Bytes)
    requires |name| <= LABEL_LEN
    ensures |raw| == LABEL_LEN
  {
    name + Fill(LABEL_LEN - |name|, fill)
  }

  lemma {:induction false} TextHasNoBlank(t: Bytes)
    requires Utf8(t)
    ensures 0xFF !in t
  {
    if t != [] {
      var n := CharLen(t);
      TextHasNoBlank(t[n..]);
      assert t == t[..n] + t[n..];
    }
  }

  lemma {:induction false} LabelEndIsFirst(raw: Bytes, n: nat)
    requires n <= |raw| && 0 !in raw[..n] && 0xFF !in raw[..n]
    requires n < |raw| ==> raw[n] == 0 || raw[n] == 0xFF
    ensures LabelEnd(raw) == n
  {
    if n > 0 {
      assert raw[0] == raw[..n][0];
      assert raw[1..][..n - 1] == raw[..n][1..];
      LabelEndIsFirst(raw[1..], n - 1);
    }
  }

  /** A label of at most 16 bytes reads back, padded with NULs or blank. */
  lemma LabelReadsBack(e: Entry, name: Bytes, fill: byte)
    requires |name| <= LABEL_LEN && Utf8(name) && 0 !in name && (fill == 0 || fill == 0xFF)
    requires e.rawLabel == Padded(name, fill)
    ensures e.Label() == name
  {
    hide Utf8;
    TextHasNoBlank(name);
    assert e.rawLabel[..|name|] == name;
    LabelEndIsFirst(e.rawLabel, |name|);
  }

  predicate Ends(c: Bytes)
    requires |c| == ENTRY_LEN
  {
    c[..2] == MD5_MAGIC || c[..2] == BLANK
  }

  predicate Live(c: Bytes)
    requires |c| == ENTRY_LEN
  {
    c[..2] == MAGIC
  }

  /** The entries before `k` are live and bear other labels. */
  predicate PassedOver(table: Bytes, k: nat, wanted: Bytes)
    requires |table| == MAX_ENTRIES * ENTRY_LEN && k <= MAX_ENTRIES
  {
    forall j :: 0 <= j < k ==> Live(Chunk(table, j)) && EntryOf(Chunk(table, j)).Label() != wanted
  }

  /** The scan found `wanted` at entry `k`. */
  predicate FoundAt(table: Bytes, k: nat, wanted: Bytes)
    requires |table| == MAX_ENTRIES * ENTRY_LEN && k < MAX_ENTRIES
  {
    PassedOver(table, k, wanted) && Live(Chunk(table, k)) && EntryOf(Chunk(table, k)).Label() == wanted
  }

  /** What scanning from entry `k` on finds. */
  function Scan(table: Bytes, k: nat, wanted: Bytes): Result<Option<Entry>, Error>
    requires |table| == MAX_ENTRIES * ENTRY_LEN && k <= MAX_ENTRIES
    decreases MAX_ENTRIES - k
  {
    if k == MAX_ENTRIES || Ends(Chunk(table, k)) then Ok(None)
    else if !Live(Chunk(table, k)) then Err(Corrupt)
    else if EntryOf(Chunk(table, k)).Label() == wanted then Ok(Some(EntryOf(Chunk(table, k))))
    else Scan(table, k + 1, wanted)
  }

  /** The first live entry of that label; nothing once an end mark or the end
      of the table is reached first; `Corrupt` at an entry that is neither. The
      table is absent when the flash could not be read. */
  method FindPartition(flash: Option<Bytes>, wanted: Bytes) returns (r: Result<Option<Entry>, Error>)
    requires flash.Some? ==> |flash.value| == MAX_ENTRIES * ENTRY_LEN
    ensures flash.None? <==> r == Err(Hardware)
    ensures flash.Some? ==> r == Scan(flash.value, 0, wanted)
    ensures flash.Some? && r.Ok? && r.value.Some? ==>
      exists k :: 0 <= k < MAX_ENTRIES && FoundAt(flash.value, k, wanted) && r.value.value == EntryOf(Chunk(flash.value, k))
    ensures flash.Some? && r == Ok(None) ==>
      exists k :: 0 <= k <= MAX_ENTRIES && PassedOver(flash.value, k, wanted)
        && (k < MAX_ENTRIES ==> Ends(Chunk(flash.value, k)))
    ensures flash.Some? && r.Err? ==> r.error == Corrupt
    ensures flash.Some? && r.Err? ==>
      exists k :: 0 <= k < MAX_ENTRIES && PassedOver(flash.value, k, wanted)
        && !Live(Chunk(flash.value, k)) && !Ends(Chunk(flash.value, k))
  {
    if flash.None? {
      return Err(Hardware);
    }
    var table := flash.value;
    for k := 0 to MAX_ENTRIES
      invariant PassedOver(table, k, wanted)
      invariant Scan(table, 0, wanted) == Scan(table, k, wanted)
    {
      var c := Chunk(table, k);
      if Ends(c) {
        return Ok(None);
      }
      if !Live(c) {
        return Err(Corrupt);
      }
      var p := EntryOf(c);
      if p.Label() == wanted {
        assert FoundAt(table, k, wanted);
        return Ok(Some(p));
      }
    }
    return Ok(None);
  }

  function FirstNamed(entries: seq<Entry>, wanted: Bytes): Option<Entry> {
    if entries == [] then None
    else if entries[0].Label() == wanted then Some(entries[0])
    else FirstNamed(entries[1..], wanted)
  }

  /** The table holds these entries, whatever their flags, and then an end mark
      if there is room for one. */
  predicate TableOf(table: Bytes, entries: seq<Entry>)
    requires |table| == MAX_ENTRIES * ENTRY_LEN
  {
    && |entries| <= MAX_ENTRIES
    && (forall k :: 0 <= k < |entries| ==>
          |entries[k].rawLabel| == LABEL_LEN && Chunk(table, k)[..28] == EntryBytes(entries[k]))
    && (|entries| < MAX_ENTRIES ==> Ends(Chunk(table, |entries|)))
  }

  /** Scanning a table of written entries finds the first of that label, kind,
      subtype, offset, length and label as they were written, or nothing. */
  lemma {:induction false} ScanFindsWritten(table: Bytes, entries: seq<Entry>, k: nat, wanted: Bytes)
    requires |table| == MAX_ENTRIES * ENTRY_LEN && TableOf(table, entries) && k <= |entries|
    ensures Scan(table, k, wanted) == Ok(FirstNamed(entries[k..], wanted))
    decreases |entries| - k
  {
    hide EntryBytes, EntryOf, Entry.Label, Chunk;
    if k < |entries| {
      EntryRoundTrip(Chunk(table, k), entries[k]);
      LiveIsNoEnd(Chunk(table, k));
      ScanFindsWritten(table, entries, k + 1, wanted);
      assert entries[k..][0] == entries[k] && entries[k..][1..] == entries[k + 1..];
    }
  }

  lemma LiveIsNoEnd(c: Bytes)
    requires |c| == ENTRY_LEN && Live(c)
    ensures !Ends(c)
  {
    assert MAGIC[0] != MD5_MAGIC[0] && MAGIC[0] != BLANK[0];
  }

  /** A scan can come as far as entry `k`. */
  predicate InReach(table: Bytes, k: nat)
    requires |table| == MAX_ENTRIES * ENTRY_LEN && k < MAX_ENTRIES
  {
    forall i :: 0 <= i <= k ==> Live(Chunk(table, i))
  }

  /** No two entries that a scan can come to overlap; what follows an end mark
      is not asked about. */
  predicate NoOverlap(table: Bytes)
    requires |table| == MAX_ENTRIES * ENTRY_LEN
  {
    forall j, k :: 0 <= j < k < MAX_ENTRIES && InReach(table, k) ==>
      Flash.Disjoint(EntryOf(Chunk(table, j)).Range(), EntryOf(Chunk(table, k)).Range())
  }

  lemma FoundApart(table: Bytes, j: nat, k: nat, a: Bytes, b: Bytes)
    requires |table| == MAX_ENTRIES * ENTRY_LEN && NoOverlap(table) && j < MAX_ENTRIES && k < MAX_ENTRIES
    requires FoundAt(table, j, a) && FoundAt(table, k, b) && a != b
    ensures Flash.Disjoint(EntryOf(Chunk(table, j)).Range(), EntryOf(Chunk(table, k)).Range())
  {
    hide EntryOf, Chunk, Entry.Label, Live, Entry.Range;
    assert j != k && InReach(table, j) && InReach(table, k);
  }

  /** Two partitions opened by different labels from a table without overlaps
      are isolated from each other. */
  lemma NamedPartitionsAreIsolated(table: Bytes, j: nat, k: nat, a: Bytes, b: Bytes, program: Flash.Program, mem: Bytes,
                                   turns: seq<Flash.Turn>, first: bool)
    requires |table| == MAX_ENTRIES * ENTRY_LEN && NoOverlap(table) && j < MAX_ENTRIES && k < MAX_ENTRIES
    requires FoundAt(table, j, a) && FoundAt(table, k, b) && a != b
    requires EntryOf(Chunk(table, j)).Range().Fits(|mem|) && EntryOf(Chunk(table, k)).Range().Fits(|mem|)
    ensures var p, q := EntryOf(Chunk(table, j)).Range(), EntryOf(Chunk(table, k)).Range();
      var mine := if first then p else q;
      var (after, replies) := Flash.Shared(program, mem, p, q, turns);
      Flash.Single(program, Flash.Slice(mem, mine), Flash.Alone(mine), Flash.OpsOf(turns, first))
        == (Flash.Slice(after, mine), Flash.RepliesOf(turns, replies, first))
  {
    hide *;
    FoundApart(table, j, k, a, b);
    Flash.PartitionsAreIsolated(program, mem, EntryOf(Chunk(table, j)).Range(), EntryOf(Chunk(table, k)).Range(), turns, first);
  }
}
