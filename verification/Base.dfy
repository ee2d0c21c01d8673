/** Types every module shares: bytes, machine integers, text as UTF-8 bytes,
    the error enumeration and the result types. */
module Base {

  type byte = x: int | 0 <= x < 256

  type Bytes = seq<byte>

  type u32 = x: int | 0 <= x < 0x1_0000_0000

  type u64 = x: int | 0 <= x < 0x1_0000_0000_0000_0000

  /** Fixed-size arrays held by value. */
  type Bytes32 = b: Bytes | |b| == 32 witness Fill(32, 0)

  type Bytes33 = b: Bytes | |b| == 33 witness Fill(33, 0)

  type Bytes64 = b: Bytes | |b| == 64 witness Fill(64, 0)

  type Bytes65 = b: Bytes | |b| == 65 witness Fill(65, 0)

  /** A `&str`: bytes that are well-formed UTF-8. */
  type Str = b: Bytes | Utf8(b) witness []

  datatype Option<+T> = None | Some(value: T)

  datatype Error =
    | BufferTooSmall(needed: nat)
    | InvalidFormat
    | InvalidGeometry
    | Unsupported
    | Corrupt
    | Crypto
    | Denied
    | Hardware

  datatype Result<+T, +E> = Ok(value: T) | Err(error: E) {
    predicate IsFailure() {
      Err?
    }

    function PropagateFailure<U>(): Result<U, E>
      requires Err?
    {
      Err(error)
    }

    function Extract(): T
      requires Ok?
    {
      value
    }
  }

  /** `n` copies of `b`. */
  function Fill(n: nat, b: byte): (r: Bytes)
    ensures |r| == n
    ensures forall i :: 0 <= i < n ==> r[i] == b
  {
    seq(n, _ => b)
  }

  predicate AllAscii(s: string) {
    forall i :: 0 <= i < |s| ==> s[i] as int < 128
  }

  /** The bytes of an ASCII literal. */
  function Ascii(s: string): (b: Bytes)
    requires AllAscii(s)
    ensures |b| == |s|
    ensures forall i :: 0 <= i < |s| ==> b[i] == s[i] as int
  {
    seq(|s|, i requires 0 <= i < |s| => s[i] as int)
  }

  predicate Continuation(b: Bytes, from: nat, count: nat) {
    from + count <= |b| && forall i :: from <= i < from + count ==> 0x80 <= b[i] < 0xC0
  }

  /** Bytes the first character of `b` takes, or 0 when it is malformed
      (the table of section 4 of RFC 3629). */
  function CharLen(b: Bytes): (n: nat)
    requires b != []
    ensures n <= |b|
  {
    if b[0] < 0x80 then 1
    else if 0xC2 <= b[0] <= 0xDF && Continuation(b, 1, 1) then 2
    else if b[0] == 0xE0 && Continuation(b, 1, 2) && 0xA0 <= b[1] then 3
    else if b[0] == 0xED && Continuation(b, 1, 2) && b[1] < 0xA0 then 3
    else if 0xE1 <= b[0] <= 0xEF && b[0] != 0xED && Continuation(b, 1, 2) then 3
    else if b[0] == 0xF0 && Continuation(b, 1, 3) && 0x90 <= b[1] then 4
    else if b[0] == 0xF4 && Continuation(b, 1, 3) && b[1] < 0x90 then 4
    else if 0xF1 <= b[0] <= 0xF3 && Continuation(b, 1, 3) then 4
    else 0
  }

  predicate Utf8(b: Bytes) {
    b == [] || (CharLen(b) > 0 && Utf8(b[CharLen(b)..]))
  }

  /** ASCII bytes are UTF-8. */
  lemma {:induction false} AsciiIsUtf8(b: Bytes)
    requires forall i :: 0 <= i < |b| ==> b[i] < 128
    ensures Utf8(b)
  {
    if b != [] {
      AsciiIsUtf8(b[1..]);
    }
  }

  /** Copy `src` into `out` from index `at`. */
  method CopyInto(out: array<byte>, at: nat, src: Bytes)
    requires at + |src| <= out.Length
    modifies out
    ensures out[..] == old(out[..at]) + src + old(out[at + |src|..])
  {
    forall i | 0 <= i < |src| {
      out[at + i] := src[i];
    }
  }
}
