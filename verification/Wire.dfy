/** The pieces every signed message is made of: big-endian integers,
    length-prefixed strings, a cursor that writes them, the readers that take
    them back, and the streaming hash. */
module Wire {
  import opened Base
  import Radix

  /** The low `width` bytes of `n`, big-endian: what `(n as uN).to_be_bytes()`
      gives, wrapping included. */
  function Be(n: nat, width: nat): (b: Bytes)
    ensures |b| == width
  {
    Radix.Fixed(256, n, width)
  }

  function FromBe(b: Bytes): nat {
    Radix.Value(256, b)
  }

  lemma Widths()
    ensures Radix.Pow(256, 2) == 0x1_0000
    ensures Radix.Pow(256, 4) == 0x1_0000_0000
    ensures Radix.Pow(256, 8) == 0x1_0000_0000_0000_0000
  {
  }

  /** Most significant byte first. */
  lemma BigEndian(n: nat)
    ensures Be(n, 2) == [n / 256 % 256, n % 256]
    ensures Be(n, 4) == [n / 256 / 256 / 256 % 256, n / 256 / 256 % 256, n / 256 % 256, n % 256]
    ensures Be(n, 8) == Be(n / 256 / 256 / 256 / 256, 4) + Be(n, 4)
  {
    var n1 := n / 256;
    var n2 := n1 / 256;
    var n3 := n2 / 256;
    var n4 := n3 / 256;
    FixedSteps(n4, n3, n2, n1, n, 0);
    FixedSteps(n4, n3, n2, n1, n, 4);
    assert Radix.Fixed(256, n1, 1) == Radix.Fixed(256, n2, 0) + [n1 % 256];
    assert Radix.Fixed(256, n, 2) == Radix.Fixed(256, n1, 1) + [n % 256];
  }

  lemma FixedSteps(n4: nat, n3: nat, n2: nat, n1: nat, n: nat, width: nat)
    requires n1 == n / 256 && n2 == n1 / 256 && n3 == n2 / 256 && n4 == n3 / 256
    ensures Radix.Fixed(256, n, width + 4)
         == Radix.Fixed(256, n4, width) + [n3 % 256, n2 % 256, n1 % 256, n % 256]
  {
    assert Radix.Fixed(256, n3, width + 1) == Radix.Fixed(256, n4, width) + [n3 % 256];
    assert Radix.Fixed(256, n2, width + 2) == Radix.Fixed(256, n3, width + 1) + [n2 % 256];
    assert Radix.Fixed(256, n1, width + 3) == Radix.Fixed(256, n2, width + 2) + [n1 % 256];
  }

  /** `piece` stands in `b` at `at`. */
  predicate Holds(b: Bytes, at: nat, piece: Bytes) {
    at + |piece| <= |b| && b[at..at + |piece|] == piece
  }

  /** From `at` on `b` is `rest`. */
  predicate Tail(b: Bytes, at: nat, rest: Bytes) {
    at <= |b| && b[at..] == rest
  }

  lemma TailLength(b: Bytes, at: nat, rest: Bytes)
    requires Tail(b, at, rest)
    ensures |b| == at + |rest|
  {
  }

  lemma HoldsFirst(b: Bytes, piece: Bytes, rest: Bytes)
    requires b == piece + rest
    ensures Holds(b, 0, piece) && Tail(b, |piece|, rest)
  {
  }

  lemma HoldsNext(b: Bytes, at: nat, piece: Bytes, rest: Bytes)
    requires Tail(b, at, piece + rest)
    ensures Holds(b, at, piece) && Tail(b, at + |piece|, rest)
  {
    assert |b| == at + |piece| + |rest|;
    assert b[at..][..|piece|] == piece && b[at..][|piece|..] == rest;
  }

  lemma HoldsLast(b: Bytes, at: nat, piece: Bytes)
    requires Tail(b, at, piece)
    ensures Holds(b, at, piece) && |b| == at + |piece|
  {
  }

  /** A string behind its length. */
  lemma HoldsStr16(b: Bytes, at: nat, s: Bytes, rest: Bytes)
    requires Tail(b, at, Str16(s) + rest)
    ensures Holds(b, at, Be(|s|, 2)) && Holds(b, at + 2, s) && Tail(b, at + 2 + |s|, rest)
  {
    assert Str16(s) + rest == Be(|s|, 2) + (s + rest);
    hide Tail, Holds;
    HoldsNext(b, at, Be(|s|, 2), s + rest);
    HoldsNext(b, at + 2, s, rest);
  }

  lemma BeInverse(n: nat, b: Bytes)
    requires n < Radix.Pow(256, |b|)
    ensures b == Be(n, |b|) <==> FromBe(b) == n
  {
    assert Radix.DigitsBelow(256, b);
    Radix.ValueOfFixed(256, n, |b|);
    Radix.FixedOfValue(256, b);
  }

  lemma FromBeBound(b: Bytes)
    ensures FromBe(b) < Radix.Pow(256, |b|)
  {
    assert Radix.DigitsBelow(256, b);
    Radix.ValueBound(256, b);
  }

  lemma BeInjective(m: nat, n: nat, width: nat)
    requires m < Radix.Pow(256, width) && n < Radix.Pow(256, width)
    requires Be(m, width) == Be(n, width)
    ensures m == n
  {
    BeInverse(m, Be(m, width));
    BeInverse(n, Be(n, width));
  }

  /** A string behind its two-byte length; the length wraps at 65,536. */
  function Str16(s: Bytes): (b: Bytes)
    ensures |b| == 2 + |s|
  {
    Be(|s|, 2) + s
  }

  // ----- readers -----

  function Expect(r: Bytes, lit: Bytes): Result<Bytes, Error> {
    if lit <= r then Ok(r[|lit|..]) else Err(InvalidFormat)
  }

  function ReadU8(r: Bytes): Result<(byte, Bytes), Error> {
    if r == [] then Err(InvalidFormat) else Ok((r[0], r[1..]))
  }

  function ReadArray(n: nat, r: Bytes): (p: Result<(Bytes, Bytes), Error>)
    ensures p.Ok? ==> |p.value.0| == n
  {
    if |r| < n then Err(InvalidFormat) else Ok((r[..n], r[n..]))
  }

  function ReadStr(r: Bytes): (p: Result<(Str, Bytes), Error>)
    ensures p.Ok? ==> |p.value.1| + 2 <= |r|
  {
    var (len, rest) :- ReadArray(2, r);
    var n := FromBe(len);
    if |rest| < n || !Utf8(rest[..n]) then Err(InvalidFormat) else Ok((rest[..n], rest[n..]))
  }

  lemma ReadArrayInverse(n: nat, r: Bytes, a: Bytes, rest: Bytes)
    requires |a| == n
    ensures ReadArray(n, r) == Ok((a, rest)) <==> r == a + rest
  {
  }

  lemma ReadStrOfStr16(s: Str, rest: Bytes)
    requires |s| < 0x1_0000
    ensures ReadStr(Str16(s) + rest) == Ok((s, rest))
  {
    hide Utf8, FromBe, Be;
    Widths();
    var len, body := Be(|s|, 2), s + rest;
    assert Str16(s) + rest == len + body;
    ReadArrayInverse(2, Str16(s) + rest, len, body);
    BeInverse(|s|, len);
    assert body[..|s|] == s && body[|s|..] == rest;
  }

  lemma Str16OfReadStr(r: Bytes, s: Str, rest: Bytes)
    requires ReadStr(r) == Ok((s, rest))
    ensures r == Str16(s) + rest && |s| < 0x1_0000
  {
    Widths();
    var len := r[..2];
    FromBeBound(len);
    BeInverse(FromBe(len), len);
    assert r[2..] == s + rest;
    assert r == len + r[2..];
  }

  /** Reading a string takes exactly what writing it put, and nothing else
      reads as that string. */
  lemma ReadStrInverse(r: Bytes, s: Str, rest: Bytes)
    ensures ReadStr(r) == Ok((s, rest)) <==> r == Str16(s) + rest && |s| < 0x1_0000
  {
    if ReadStr(r) == Ok((s, rest)) {
      Str16OfReadStr(r, s, rest);
    }
    if r == Str16(s) + rest && |s| < 0x1_0000 {
      ReadStrOfStr16(s, rest);
    }
  }

  // ----- the write cursor -----

  /** A cursor over a caller's buffer. `goal` is what the caller set out to
      write and `todo` what is still missing: every write must continue the
      goal, so a finished cursor has written the goal and nothing else. */
  class Writer {
    const out: array<byte>
    var pos: nat
    ghost const goal: Bytes
    ghost var todo: Bytes
    ghost const before: Bytes

    ghost predicate Valid()
      reads this, out
    {
      && pos <= |goal| <= out.Length == |before|
      && out[..pos] + todo == goal
      && out[pos..] == before[pos..]
    }

    constructor (out: array<byte>, ghost goal: Bytes)
      requires |goal| <= out.Length
      ensures this.out == out && this.goal == goal && before == out[..]
      ensures pos == 0 && todo == goal && Valid()
    {
      this.out, this.pos, this.goal, this.todo, this.before := out, 0, goal, goal, out[..];
    }

    /** Write `b`; `rest` is what the goal still holds after it. */
    method Put(b: Bytes, ghost rest: Bytes)
      requires Valid() && todo == b + rest
      modifies this, out
      ensures Valid() && todo == rest && pos == old(pos) + |b|
    {
      CopyInto(out, pos, b);
      pos := pos + |b|;
      todo := rest;
    }

    /** The two-byte length (`as u16`, so it would wrap) and the string. */
    method PutStr16(s: Bytes, ghost rest: Bytes)
      requires Valid() && todo == Str16(s) + rest
      modifies this, out
      ensures Valid() && todo == rest && pos == old(pos) + 2 + |s|
    {
      assert Str16(s) + rest == Be(|s|, 2) + (s + rest);
      Put(Be(|s|, 2), s + rest);
      Put(s, rest);
    }
  }

  // ----- the streaming hash -----

  /** SHA-256 fed in parts. As with the cursor, every part must continue the
      `goal`, so a finished hasher has hashed the goal and nothing else. */
  class Hasher {
    const digest: Bytes -> Bytes32
    var fed: Bytes
    ghost const goal: Bytes
    ghost var todo: Bytes

    ghost predicate Valid()
      reads this
    {
      fed + todo == goal
    }

    constructor (digest: Bytes -> Bytes32, ghost goal: Bytes)
      ensures this.digest == digest && this.goal == goal && todo == goal && Valid()
    {
      this.digest, this.fed, this.goal, this.todo := digest, [], goal, goal;
    }

    method Update(part: Bytes, ghost rest: Bytes)
      requires Valid() && todo == part + rest
      modifies this
      ensures Valid() && todo == rest
    {
      fed := fed + part;
      todo := rest;
    }

    method Finalize() returns (h: Bytes32)
      requires Valid() && todo == []
      ensures h == digest(goal)
    {
      assert fed + [] == fed;
      h := digest(fed);
    }
  }

  // ----- telling messages apart -----

  /** A framed string ends where it says: nothing of it can pass for what
      follows. */
  lemma PeelStr16(a: Str, x: Bytes, b: Str, y: Bytes)
    requires |a| < 0x1_0000 && |b| < 0x1_0000
    requires Str16(a) + x == Str16(b) + y
    ensures a == b && x == y
  {
    ReadStrInverse(Str16(a) + x, a, x);
    ReadStrInverse(Str16(b) + y, b, y);
  }

  /** The same for bytes that need not be text. */
  lemma PeelFramed(a: Bytes, x: Bytes, b: Bytes, y: Bytes)
    requires |a| < 0x1_0000 && |b| < 0x1_0000
    requires Be(|a|, 2) + a + x == Be(|b|, 2) + b + y
    ensures a == b && x == y
  {
    Widths();
    var l, r := Be(|a|, 2) + a + x, Be(|b|, 2) + b + y;
    assert l[..2] == Be(|a|, 2) && r[..2] == Be(|b|, 2);
    BeInjective(|a|, |b|, 2);
    assert l[2..2 + |a|] == a && r[2..2 + |b|] == b;
    assert l[2 + |a|..] == x && r[2 + |b|..] == y;
  }

  lemma PeelFixed(a: Bytes, x: Bytes, b: Bytes, y: Bytes)
    requires |a| == |b| && a + x == b + y
    ensures a == b && x == y
  {
    assert (a + x)[..|a|] == a && (b + y)[..|b|] == b;
    assert (a + x)[|a|..] == x && (b + y)[|b|..] == y;
  }
}
