/** `did:mata` identifiers: base58btc of a 33-byte compressed public key. */
module Did {
  import opened Base
  import Radix

  const PUBKEY_LEN: nat := 33

  const MAX_BASE58_LEN: nat := 46

  const PREFIX: Bytes := Ascii("did:mata:")

  const MULTIBASE: Bytes := Ascii("z")

  const MAX_DID_LEN: nat := |PREFIX| + MAX_BASE58_LEN

  const MAX_MULTIBASE_LEN: nat := 1 + MAX_BASE58_LEN

  datatype Did = Did(pubkey: Bytes33)

  // ----- base58btc -----

  /** The Bitcoin alphabet: no `0`, `O`, `I` or `l`. */
  function Symbol(i: nat): (c: byte)
    requires i < 58
    ensures c < 128
  {
    if i < 9 then '1' as int + i
    else if i < 17 then 'A' as int + (i - 9)
    else if i < 22 then 'J' as int + (i - 17)
    else if i < 33 then 'P' as int + (i - 22)
    else if i < 44 then 'a' as int + (i - 33)
    else 'm' as int + (i - 44)
  }

  function SymbolIndex(c: byte): (i: Option<nat>)
    ensures i.Some? ==> i.value < 58 && Symbol(i.value) == c
    ensures i.None? ==> forall k :: 0 <= k < 58 ==> Symbol(k) != c
  {
    if '1' as int <= c <= '9' as int then Some(c - '1' as int)
    else if 'A' as int <= c <= 'H' as int then Some(c - 'A' as int + 9)
    else if 'J' as int <= c <= 'N' as int then Some(c - 'J' as int + 17)
    else if 'P' as int <= c <= 'Z' as int then Some(c - 'P' as int + 22)
    else if 'a' as int <= c <= 'k' as int then Some(c - 'a' as int + 33)
    else if 'm' as int <= c <= 'z' as int then Some(c - 'm' as int + 44)
    else None
  }

  /** The alphabet is the ASCII digits and letters but for `0`, `O`, `I` and
      `l`, in the order of their codes. */
  lemma AlphabetMeaning(c: byte)
    ensures (exists i :: 0 <= i < 58 && Symbol(i) == c) <==>
      && (0x30 <= c <= 0x39 || 0x41 <= c <= 0x5A || 0x61 <= c <= 0x7A)
      && c !in {0x30, 0x4F, 0x49, 0x6C}
    ensures forall i, j :: 0 <= i < j < 58 ==> Symbol(i) < Symbol(j)
  {
    if SymbolIndex(c).Some? {
      assert Symbol(SymbolIndex(c).value) == c;
    }
  }

  function Leading(d: seq<nat>): (k: nat)
    ensures k <= |d|
    ensures forall i :: 0 <= i < k ==> d[i] == 0
    ensures k < |d| ==> d[k] != 0
  {
    if d != [] && d[0] == 0 then 1 + Leading(d[1..]) else 0
  }

  function Zeros(k: nat): (z: seq<nat>)
    ensures |z| == k
  {
    seq(k, _ => 0)
  }

  /** The same number in another base, every leading zero kept as one zero. */
  function Recode(source: nat, target: nat, d: seq<nat>): (r: seq<nat>)
    requires source >= 2 && target >= 2
    ensures Radix.DigitsBelow(target, r)
  {
    Zeros(Leading(d)) + Radix.Digits(target, Radix.Value(source, d))
  }

  lemma LeadingUnique(d: seq<nat>, k: nat)
    requires k <= |d|
    requires forall i :: 0 <= i < k ==> d[i] == 0
    requires k < |d| ==> d[k] != 0
    ensures Leading(d) == k
  {
  }

  lemma RecodeInverse(source: nat, target: nat, d: seq<nat>)
    requires source >= 2 && target >= 2 && Radix.DigitsBelow(source, d)
    ensures Recode(target, source, Recode(source, target, d)) == d
  {
    var k := Leading(d);
    var n := Radix.Value(source, d);
    var digits := Radix.Digits(target, n);
    assert d == Zeros(k) + d[k..];
    Radix.ValueSkipsZeros(source, k, d[k..]);
    Radix.DigitsOfValue(source, d[k..]);
    LeadingUnique(Zeros(k) + digits, k);
    Radix.ValueSkipsZeros(target, k, digits);
    Radix.ValueOfDigits(target, n);
  }

  function Symbols(d: seq<nat>): (t: Bytes)
    requires Radix.DigitsBelow(58, d)
    ensures |t| == |d|
    ensures forall i :: 0 <= i < |d| ==> t[i] == Symbol(d[i])
  {
    seq(|d|, i requires 0 <= i < |d| => Symbol(d[i]))
  }

  lemma SymbolsCons(i: nat, rest: seq<nat>)
    requires i < 58 && Radix.DigitsBelow(58, rest)
    ensures Radix.DigitsBelow(58, [i] + rest)
    ensures Symbols([i] + rest) == [Symbol(i)] + Symbols(rest)
  {
    hide Symbol;
  }

  /** The digits `t` spells, when every character is in the alphabet. */
  function Indexes(t: Bytes): (d: Option<seq<nat>>)
    ensures d.Some? ==> Radix.DigitsBelow(58, d.value) && Symbols(d.value) == t
    ensures d.None? ==> exists i :: 0 <= i < |t| && SymbolIndex(t[i]).None?
  {
    if t == [] then Some([])
    else
      match SymbolIndex(t[0])
      case None => None
      case Some(i) =>
        match Indexes(t[1..])
        case None => None
        case Some(rest) =>
          SymbolsCons(i, rest);
          Some([i] + rest)
  }

  lemma SymbolIndexOfSymbol(i: nat)
    requires i < 58
    ensures SymbolIndex(Symbol(i)) == Some(i)
  {
  }

  lemma {:induction false} IndexesOfSymbols(d: seq<nat>)
    requires Radix.DigitsBelow(58, d)
    ensures Indexes(Symbols(d)) == Some(d)
  {
    hide Symbol, SymbolIndex;
    if d != [] {
      IndexesOfSymbols(d[1..]);
      SymbolsCons(d[0], d[1..]);
      assert [d[0]] + d[1..] == d;
      SymbolIndexOfSymbol(d[0]);
    }
  }

  function Base58(b: Bytes): Bytes {
    Symbols(Recode(256, 58, b))
  }

  function Unbase58(t: Bytes): (b: Option<Bytes>) {
    match Indexes(t)
    case None => None
    case Some(d) => Some(Recode(58, 256, d))
  }

  /** Base58 is a bijection between byte strings and alphabet strings. */
  lemma Base58RoundTrip(b: Bytes, t: Bytes)
    ensures Unbase58(t) == Some(b) <==> t == Base58(b)
  {
    assert Radix.DigitsBelow(256, b);
    RecodeInverse(256, 58, b);
    IndexesOfSymbols(Recode(256, 58, b));
    if Unbase58(t) == Some(b) {
      RecodeInverse(58, 256, Indexes(t).value);
    }
  }

  // ----- lengths -----

  /** The numbers behind `MAX_BASE58_LEN`, and behind the length of the DID
      of a real key, whose first byte is 2 or 3. */
  lemma Powers()
    ensures Radix.Pow(58, 45) < Radix.Pow(256, 33) <= Radix.Pow(58, 46)
    ensures Radix.Pow(58, 43) <= 2 * Radix.Pow(256, 32)
    ensures 4 * Radix.Pow(256, 32) <= Radix.Pow(58, 45)
  {
    assert Radix.Pow(256, 8) == 0x10000000000000000;
    assert Radix.Pow(256, 16) == 0x100000000000000000000000000000000;
    assert Radix.Pow(256, 24) == 0x1000000000000000000000000000000000000000000000000;
    assert Radix.Pow(256, 32) == 0x10000000000000000000000000000000000000000000000000000000000000000;
    assert Radix.Pow(58, 8) == 0x7479027ea100;
    assert Radix.Pow(58, 16) == 0x34fde3761da26b26e1410000;
    assert Radix.Pow(58, 24) == 0x181c17963a5226bd66dc1c01d3a7e1000000;
    assert Radix.Pow(58, 32) == 0xaf820335d9b3d9cf58b911d87035677fb7f528100000000;
    assert Radix.Pow(58, 40) == 0x4fd9df9dbf7e28ed5357ba4a062c19c48e628f6af73b061210000000000;
  }

  /** Every key's base58 fits 46 characters. */
  lemma Base58Fits(key: Bytes33)
    ensures |Base58(key)| <= MAX_BASE58_LEN
  {
    var k := Leading(key);
    var tail := key[k..];
    var n := Radix.Value(256, key);
    assert key == Zeros(k) + tail;
    Radix.ValueSkipsZeros(256, k, tail);
    Radix.ValueBound(256, tail);
    ShorterNumber(k, n);
    Radix.DigitsLength(58, n, MAX_BASE58_LEN - k);
  }

  /** Dropping `k` bytes of 33 leaves a number that drops `k` digits of 46. */
  lemma {:induction false} ShorterNumber(k: nat, n: nat)
    requires k <= 33 && n < Radix.Pow(256, 33 - k)
    ensures n < Radix.Pow(58, 46 - k)
  {
    PowersBelow(k);
  }

  lemma {:induction false} PowersBelow(k: nat)
    requires k <= 33
    ensures Radix.Pow(256, 33 - k) <= Radix.Pow(58, 46 - k)
  {
    if k == 0 {
      Powers();
    } else {
      PowersBelow(k - 1);
      var big, small := Radix.Pow(256, 33 - k), Radix.Pow(58, 46 - k);
      assert 256 * big <= 58 * small;
    }
  }

  /** The bound is reached: 33 bytes of 255 take all 46 characters. */
  lemma Base58BoundIsTight()
    ensures |Base58(Fill(33, 255))| == MAX_BASE58_LEN
  {
    var key := Fill(33, 255);
    AllOnesValue(33);
    Powers();
    Radix.DigitsLength(58, Radix.Value(256, key), 45);
    Base58Fits(key);
  }

  lemma {:induction false} AllOnesValue(w: nat)
    ensures Radix.Value(256, Fill(w, 255)) == Radix.Pow(256, w) - 1
  {
    if w > 0 {
      assert Fill(w, 255)[..w - 1] == Fill(w - 1, 255);
      AllOnesValue(w - 1);
    }
  }

  // ----- reading and writing -----

  /** A 33-byte key is accepted when its first byte is 2 or 3 and it is a
      point; `onCurve` is the curve library's check. */
  function FromPubkey(onCurve: Bytes -> bool, key: Bytes): (r: Result<Did, Error>) {
    if |key| != PUBKEY_LEN then Err(InvalidFormat)
    else if key[0] != 2 && key[0] != 3 then Err(InvalidFormat)
    else if !onCurve(key) then Err(Crypto)
    else Ok(Did(key))
  }

  function FromBase58(onCurve: Bytes -> bool, suffix: Bytes): (r: Result<Did, Error>) {
    if suffix == [] || |suffix| > MAX_BASE58_LEN then Err(InvalidFormat)
    else
      match Unbase58(suffix)
      case None => Err(InvalidFormat)
      case Some(key) => if |key| != PUBKEY_LEN then Err(InvalidFormat) else FromPubkey(onCurve, key)
  }

  function ParsePrefixed(onCurve: Bytes -> bool, prefix: Bytes, text: Bytes): (r: Result<Did, Error>) {
    if prefix <= text then FromBase58(onCurve, text[|prefix|..]) else Err(InvalidFormat)
  }

  function Parse(onCurve: Bytes -> bool, text: Bytes): (r: Result<Did, Error>) {
    ParsePrefixed(onCurve, PREFIX, text)
  }

  function ParseMultibase(onCurve: Bytes -> bool, text: Bytes): (r: Result<Did, Error>) {
    ParsePrefixed(onCurve, MULTIBASE, text)
  }

  /** `did:mata:` and the base58 of the key. */
  function Text(key: Bytes33): Bytes {
    PREFIX + Base58(key)
  }

  lemma TextIsAscii(key: Bytes33)
    ensures forall i :: 0 <= i < |Text(key)| ==> Text(key)[i] < 128
  {
  }

  lemma SuffixIsWritten(onCurve: Bytes -> bool, suffix: Bytes, key: Bytes33)
    ensures FromBase58(onCurve, suffix) == Ok(Did(key))
      <==> suffix == Base58(key) && FromPubkey(onCurve, key) == Ok(Did(key))
  {
    hide Base58, Unbase58;
    Base58Fits(key);
    Base58RoundTrip(key, suffix);
    KeyIsWritten(key);
  }

  lemma KeyIsWritten(key: Bytes33)
    ensures Base58(key) != []
  {
    if key[0] == 0 {
      assert Leading(key) > 0;
    } else {
      LeadingUnique(key, 0);
      Radix.ValuePositive(256, key);
    }
  }

  /** Parsing accepts exactly the texts that writing an acceptable key prints,
      under either prefix: it undoes writing, and writing undoes it. */
  lemma ParseIsWriteInverse(onCurve: Bytes -> bool, prefix: Bytes, text: Bytes, key: Bytes33)
    ensures ParsePrefixed(onCurve, prefix, text) == Ok(Did(key))
      <==> text == prefix + Base58(key) && FromPubkey(onCurve, key) == Ok(Did(key))
  {
    hide Base58, FromBase58, FromPubkey;
    if prefix <= text {
      SuffixIsWritten(onCurve, text[|prefix|..], key);
      assert text == prefix + text[|prefix|..];
    }
    assert (prefix + Base58(key))[|prefix|..] == Base58(key);
  }

  /** What parsing answers, said of the text: the key it is written for, when
      that key begins with 2 or 3 and is on the curve; `Crypto` when it is
      written for such a key off the curve; else `InvalidFormat`. */
  lemma ParseMeaning(onCurve: Bytes -> bool, prefix: Bytes, text: Bytes, key: Bytes33)
    ensures var r := ParsePrefixed(onCurve, prefix, text);
      && (r == Ok(Did(key)) <==> text == prefix + Base58(key) && key[0] in {2, 3} && onCurve(key))
      && (text == prefix + Base58(key) && key[0] in {2, 3} && !onCurve(key) ==> r == Err(Crypto))
      && (r == Err(Crypto) ==> exists k: Bytes33 :: text == prefix + Base58(k) && k[0] in {2, 3} && !onCurve(k))
      && (r.Err? ==> r.error == Crypto || r.error == InvalidFormat)
  {
    hide Base58, Unbase58;
    ParseIsWriteInverse(onCurve, prefix, text, key);
    Base58RoundTrip(key, Base58(key));
    Base58Fits(key);
    KeyIsWritten(key);
    assert (prefix + Base58(key))[|prefix|..] == Base58(key);
    if prefix <= text && ParsePrefixed(onCurve, prefix, text) == Err(Crypto) {
      var suffix := text[|prefix|..];
      var k: Bytes33 := Unbase58(suffix).value;
      Base58RoundTrip(k, suffix);
      assert text == prefix + Base58(k);
    }
  }

  /** The DID of a real key has 44 or 45 base58 characters, never the 46 the
      buffers are sized for. */
  lemma RealKeyLength(onCurve: Bytes -> bool, key: Bytes33)
    requires FromPubkey(onCurve, key).Ok?
    ensures 44 <= |Base58(key)| <= 45
  {
    var n := Radix.Value(256, key);
    LeadingUnique(key, 0);
    RealKeyRange(key);
    Powers();
    Radix.DigitsLength(58, n, 43);
    Radix.DigitsLength(58, n, 45);
  }

  lemma RealKeyRange(key: Bytes33)
    requires key[0] == 2 || key[0] == 3
    ensures 2 * Radix.Pow(256, 32) <= Radix.Value(256, key) < 4 * Radix.Pow(256, 32)
  {
    var rest := key[1..];
    assert key == [key[0]] + rest;
    ValueCons(key[0], rest);
    Radix.ValueBound(256, rest);
  }

  lemma {:induction false} ValueCons(first: nat, rest: seq<nat>)
    ensures Radix.Value(256, [first] + rest) == first * Radix.Pow(256, |rest|) + Radix.Value(256, rest)
  {
    var d := [first] + rest;
    if rest != [] {
      assert d[..|d| - 1] == [first] + rest[..|rest| - 1];
      ValueCons(first, rest[..|rest| - 1]);
      assert Radix.Pow(256, |rest|) == 256 * Radix.Pow(256, |rest| - 1);
    }
  }

  /** Write `prefix` and the base58 of `key` at the start of `out`. */
  method WriteWithPrefix(prefix: Bytes, key: Bytes33, out: array<byte>) returns (r: Result<nat, Error>)
    modifies out
    ensures r.Ok? <==> |prefix| + |Base58(key)| <= out.Length && |prefix| < out.Length
    ensures r.Ok? ==> r.value == |prefix| + |Base58(key)| && out[..r.value] == prefix + Base58(key)
    ensures r.Ok? ==> out[r.value..] == old(out[r.value..])
    ensures r.Err? ==> r.error == BufferTooSmall(|prefix| + if out.Length <= |prefix| then 1 else MAX_BASE58_LEN)
    ensures out.Length >= |prefix| + MAX_BASE58_LEN ==> r.Ok?
  {
    Base58Fits(key);
    if out.Length < |prefix| + 1 {
      return Err(BufferTooSmall(|prefix| + 1));
    }
    CopyInto(out, 0, prefix);
    var text := Base58(key);
    if out.Length - |prefix| < |text| {
      return Err(BufferTooSmall(|prefix| + MAX_BASE58_LEN));
    }
    CopyInto(out, |prefix|, text);
    return Ok(|prefix| + |text|);
  }

  /** No two keys share a DID. */
  lemma TextInjective(a: Bytes33, b: Bytes33)
    requires Text(a) == Text(b)
    ensures a == b
  {
    hide Base58, Unbase58;
    assert Text(a)[|PREFIX|..] == Base58(a) && Text(b)[|PREFIX|..] == Base58(b);
    Base58RoundTrip(a, Base58(a));
    Base58RoundTrip(b, Base58(b));
  }

  /** What is printed parses back, in both forms. */
  lemma PrintedParsesBack(onCurve: Bytes -> bool, key: Bytes33)
    requires FromPubkey(onCurve, key) == Ok(Did(key))
    ensures Parse(onCurve, Text(key)) == Ok(Did(key))
    ensures ParseMultibase(onCurve, MULTIBASE + Base58(key)) == Ok(Did(key))
  {
    hide Base58, ParsePrefixed;
    ParseIsWriteInverse(onCurve, PREFIX, Text(key), key);
    ParseIsWriteInverse(onCurve, MULTIBASE, MULTIBASE + Base58(key), key);
  }

  /** The DID in a buffer sized for the longest: writing cannot fail. */
  method ToDidString(d: Did) returns (text: Bytes)
    ensures text == Text(d.pubkey)
  {
    hide Base58;
    var buf := new byte[MAX_DID_LEN];
    var n := WriteWithPrefix(PREFIX, d.pubkey, buf);
    text := buf[..n.value];
  }

  /** The multibase form in a buffer sized for the longest. */
  method ToMultibaseString(d: Did) returns (text: Bytes)
    ensures text == MULTIBASE + Base58(d.pubkey)
  {
    hide Base58;
    var buf := new byte[MAX_MULTIBASE_LEN];
    var n := WriteWithPrefix(MULTIBASE, d.pubkey, buf);
    text := buf[..n.value];
  }
}
