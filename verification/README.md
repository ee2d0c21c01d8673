# The device identity core, modelled

A model of the identity core of `rusty_esp_mid`: how a device takes and forgets
an owner, the messages it signs, the key it keeps and the caches beside it, its
sealed store, its replay window, its DID, and the flash partitions under it.

| module | what it models |
|---|---|
| `Base`, `Text`, `Radix`, `Wire` | bytes and UTF-8 text, positional numbers, big-endian integers, the write cursor, the readers, the streaming hash |
| `Store` | the key-value seam: reads that may fail, writes a power cut may lose or tear, and the random generator |
| `Did`, `Cap` | base58 identifiers and capability strings |
| `Adoption`, `AdoptionCodec`, `Owner` | the adoption envelope, its round trips, the pin and the acceptance rule |
| `Statement`, `SettingsAdoption`, `CrashRecovery`, `OwnerRuns` | the statement check; `apply`, `forget` and `stored` as plans of writes and as methods; power cuts; whole runs |
| `Key`, `KeyRuns`, `Identity` | the device key, its caches over any run, and the stability of the DID |
| `Seal` | the encrypting store as a plain map, and its in-place migration |
| `Nonce` | the replay window as a queue |
| `Status`, `Messages` | the signed status and its document, the other signed messages, and what tells all of them apart |
| `Flash`, `Partitions` | two partitions open at once on one flash, and the table they are found in |

## How to read it

Each operation that changes something is a method, proved against a function or
a plan; what the source promises is then proved about the function or plan.

*Stores.* A read gives the value, its absence, `BufferTooSmall` with the needed
length, or one of the store's own errors (any names may have one). A write that
returns an error may have happened, may not have, or, unless the store is
atomic, may have lost the entry it was replacing; this last is the non-atomic
replace of `docs/LEDGER.md`. A power cut is a write that never returns, so a cut
and a failed write leave the same states: a prefix of the plan's writes, the
next one possibly torn.

*Libraries.* SHA-256, the curve, ECDSA, AES-GCM, base64url and JSON parsing are
functions the members take as parameters. What is assumed of them is a
hypothesis by name where it is used: `Seal.Correct` (decryption undoes
encryption and keeps lengths), `Statement.JsonGrammar` (no JSON text begins with
`j`, section 2 of RFC 8259), and base64 decoding undoing encoding. Of HMAC
nothing is assumed in general; `KeyRuns.Admissible` asks of each entry a run
writes that no honest key's tag but the writer's own holds on it.

*Text.* A `&str` is its UTF-8 bytes, so lengths and splits are the source's own.

## Where the code is not what its comments say

- `kms.rs:104-107` says saturating a length keeps two messages from hashing
  alike. It does not (`Messages.EnvelopeBound`); only validation does.
- `settings_adoption.rs:17-18` says an owner is never silently rebound. With a
  replace that can lose the old entry he can be (`OwnerRuns.TornPinRebinds`).
- `seal.rs:15-18` says a value written in the clear still reads, because no
  setting string holds a NUL. Of values in general it is true, with a key or
  without, exactly of those that do not bear the mark or are longer than any
  sealed value (`Seal.ClearReadsBack`).
- `settings_adoption.rs:196-197` calls the owner presented the one the device
  accepted. A statement presented names the pinned key over every run of
  deliveries, boots and forgets, but not always across a mesh adoption: one
  that follows a first adoption cut before its pin can pin another key under
  the statement shown (`OwnerRuns.PartingHappens`). Which ones keep the two
  together is decided exactly (`OwnerRuns.MeshAgrees`). An envelope's owner DID
  is not checked, and agrees with the key pinned exactly when it is that key's
  (`OwnerRuns.MeshOwnerIsOnlyClaimed`).

## Model

| member | source | states |
|---|---|---|
| `SettingsAdoption.Apply` | crates/rusty_esp_mid-core/src/settings_adoption.rs:279-343 | Carries out the decision and its writes in order on the two stores: an `Ok` leaves them as the whole plan does and returns its outcome; any error leaves them as some cut of the plan (torn only if the store tears puts); a read error leaves them untouched |
| `SettingsAdoption.OutcomeMeaning` | crates/rusty_esp_mid-core/src/settings_adoption.rs:279-316 | Which outcome and writes answer which circumstance: nothing delivered, too long, the check's reason, an unreadable pin, another owner, an older roster, a first adoption, a rehome |
| `SettingsAdoption.Forget` | crates/rusty_esp_mid-core/src/settings_adoption.rs:268-275 | The four owner entries are removed, grant first and pin last; an `Ok` answer is true exactly when a pin entry was there before; an error leaves a cut of that plan; a malformed pin is an error that changes nothing |
| `SettingsAdoption.ReadStored` | crates/rusty_esp_mid-core/src/settings_adoption.rs:222-260 | Reads grant, kind and mark through their buffers and presents exactly the stored adoption the specification function defines, its error cases included; what is presented is provisional exactly when the mark is readable and is one byte, 1 |
| `SettingsAdoption.PresentedExactly` | crates/rusty_esp_mid-core/src/settings_adoption.rs:222-260 | Of the entries: what is presented is the adoption entry's bytes, a statement exactly where the kind entry says so, its owner the checked or decoded one for this device, provisional exactly where the mark is 1 |
| `SettingsAdoption.PresentedError` | crates/rusty_esp_mid-core/src/settings_adoption.rs:222-237 | The status is an error exactly when the store cannot read the grant, or the kind of a grant that is there; a length is never the error |
| `SettingsAdoption.PinIsTheEntry` | crates/rusty_esp_mid-core/src/settings_adoption.rs:183-190 | A pin is read exactly from a readable 37-byte entry that is its encoding; which error answers any other entry |
| `CrashRecovery.ApplyRecovers` | crates/rusty_esp_mid-core/src/settings_adoption.rs:318-327 | Crash recovery: after any sequence of boots cut after any number of writes, with the put being cut possibly losing its own entry, one boot that finishes leaves both stores exactly as a single uninterrupted boot would have |
| `CrashRecovery.OutcomeAfterCuts` | crates/rusty_esp_mid-core/src/settings_adoption.rs:329-342 | The stores converge but the outcome need not: after any sequence of cuts short of the clearing write, the boot takes the same adoption and reports a rehome if and only if the cuts left a pin held (the last to reach the pin write finished it rather than tore it, or none did and one was held from the start); after a boot that finished there is nothing to do |
| `CrashRecovery.CutPresents` | crates/rusty_esp_mid-core/src/settings_adoption.rs:222-260 | At every cut of a boot the status presents what it presented before, or nothing, or the adoption being taken, or an error only because the kind entry cannot be read |
| `CrashRecovery.OwnerShownBeforePinned` | crates/rusty_esp_mid-core/src/settings_adoption.rs:321-325 | A first adoption cut before its pin write already presents the owner although nothing is pinned |
| `CrashRecovery.OneBoot` | crates/rusty_esp_mid-core/src/settings_adoption.rs:5-18 | An uninterrupted boot always clears the delivery; it takes the delivered statement's grant and pin (first when nobody is pinned, else only the pinned owner's with no older roster) or leaves the identity store as it was |
| `CrashRecovery.BootPresents` | crates/rusty_esp_mid-core/src/settings_adoption.rs:318-342 | After a finished boot that adopts or rehomes, on a store that can read the owner entries, the status presents the owner reported, the delivered statement, and that it is provisional |
| `CrashRecovery.ForgetRecovers` | crates/rusty_esp_mid-core/src/settings_adoption.rs:262-275 | From any state and after any sequence of `forget`s cut anywhere, the pin reads as it did or all four owner entries are gone, everything else is untouched, and the call that finishes ends where one uninterrupted call would have: exactly those four entries removed |
| `CrashRecovery.ForgottenAdoptsAfresh` | crates/rusty_esp_mid-core/src/settings_adoption.rs:35-38 | After a finished `forget` any owner's valid statement is a first adoption and pins that owner |
| `OwnerRuns.NoSilentRebinding` | crates/rusty_esp_mid-core/src/settings_adoption.rs:304-326 | Over any run of arbitrary deliveries, cut or finished boots and forgets, mesh adoptions and other writes in which the pin is not lost: the owner stays, every pin written is his, rosters never go back, and the pinned roster is the largest accepted |
| `OwnerRuns.RebindingNeedsALoss` | crates/rusty_esp_mid-core/src/settings_adoption.rs:17-18 | If the pinned owner differs at the end of a run, some step of it finished a `forget` or tore the write of the pin itself |
| `OwnerRuns.AtomicRebindingNeedsForget` | crates/rusty_esp_mid-core/src/settings_adoption.rs:262-267 | With atomic puts the pinned owner changes only across a `forget` that reached its last removal |
| `OwnerRuns.TornPinRebinds` | crates/rusty_esp_mid-core/src/settings_adoption.rs:323-325 | On a store whose replace is not atomic, the pinned owner's own newer statement cut in the pin write lets the next owner's statement in without a `forget` |
| `OwnerRuns.SilentRebindingHappens` | crates/rusty_esp_mid-core/src/settings_adoption.rs:17-18 | The exception is real: for any two pins of different keys there are libraries, stores and a run of deliveries and boots, no `forget` among them, that begins with the first pinned and ends with the second |
| `OwnerRuns.MeshOwnerIsOnlyClaimed` | crates/rusty_esp_mid-core/src/adoption.rs:365-402 | A first mesh adoption, or a later one by the pinned key: accepting and storing the valid signed envelope, in either order, pins the key that signed and presents the owner DID it names (nobody, when it is longer than 8192 bytes); the two agree if and only if that DID is the key's own |
| `OwnerRuns.AnyOwnerCanBeClaimed` | crates/rusty_esp_mid-core/src/adoption.rs:365-402 | They need not agree: on a blank device any key that signs for it is pinned and presents itself as whichever owner it claims to be |
| `OwnerRuns.MalformedPinIsStuck` | crates/rusty_esp_mid-core/src/settings_adoption.rs:183-190 | A pin stored at the wrong length makes boots, forgets and mesh adoptions refuse, and no run of them ever changes it |
| `OwnerRuns.GrantAgreesWithPin` | crates/rusty_esp_mid-core/src/settings_adoption.rs:318-327 | In every state reachable by deliveries, boots and forgets, cuts and torn puts included, by mesh adoptions that fit the statement presented, and by other writes that store no statement, a statement presented while a pin is held names the DID of the pinned key |
| `OwnerRuns.MeshAgrees` | crates/rusty_esp_mid-core/src/adoption.rs:365-402 | Exactly which mesh adoptions fit: agreement survives one if and only if a pin was already held or unreadable, or none is taken, or its write is not done, or any statement presented names the key it pins |
| `OwnerRuns.DeliveredFits` | crates/rusty_esp_mid-core/src/settings_adoption.rs:318-327 | Runs of deliveries, boots and forgets alone meet that condition whatever the cuts |
| `OwnerRuns.MeshAfterCutParts` | crates/rusty_esp_mid-core/src/settings_adoption.rs:321-325 | The condition is needed: a first adoption cut before its pin write, then a mesh adoption by another key, leaves that key pinned while the statement naming the first owner is presented |
| `OwnerRuns.PartingHappens` | crates/rusty_esp_mid-core/src/settings_adoption.rs:196-197 | There are libraries and such a run for any two keys, from a device without an owner |
| `OwnerRuns.KindIsRight` | crates/rusty_esp_mid-core/src/settings_adoption.rs:240-253 | What is presented as a statement is no envelope and what is presented as an envelope is no statement, given that no JSON text begins with `j` |
| `OwnerRuns.PinStep` | crates/rusty_esp_mid-core/src/adoption.rs:365-402 | One step of any kind keeps the pin, replaces it by one of the same key with no older roster, or loses it, and which of these is decided exactly |
| `Owner.AcceptsExactly` | crates/rusty_esp_mid-core/src/adoption.rs:293-402 | From the bytes: an envelope is decoded and accepted if and only if it is the canonical encoding of valid well-formed fields for this device with a signature that verifies under their own key, current when the time is known, and following the pin held; the new pin is their key and roster |
| `Owner.WhichRefusal` | crates/rusty_esp_mid-core/src/adoption.rs:375-402 | Which error answers which failure: `Crypto` exactly for a signature that does not verify on an adoption of this device, `Denied` for another device, another owner, an older roster or an expired adoption |
| `Owner.GrantsWhatItLists` | crates/rusty_esp_mid-core/src/adoption.rs:293-356 | An envelope that decodes grants every capability it lists |
| `Owner.PinRoundTrip` | crates/rusty_esp_mid-core/src/adoption.rs:180-202 | A 37-byte entry decodes to a pin exactly when it is that pin's encoding |
| `Owner.PinForm` | crates/rusty_esp_mid-core/src/adoption.rs:180-189 | The bytes of a pin, spelled out: the key, then the roster most significant byte first |
| `Owner.Grants` | crates/rusty_esp_mid-core/src/adoption.rs:404-408 | An adoption grants a need exactly when one of its capability strings satisfies it |
| `Statement.CheckMeaning` | crates/rusty_esp_mid-core/src/settings_adoption.rs:122-181 | The ordered check accepts exactly the containers for which content, three jws parts, header, 64-byte signature, payload and body attest, independently of any order, that this owner adopts this device |
| `Statement.RefusalMeaning` | crates/rusty_esp_mid-core/src/settings_adoption.rs:122-181 | The reason given for a refusal is the first, in the order they are looked for, of those that are true of the container |
| `Statement.StatementsExist` | crates/rusty_esp_mid-core/src/settings_adoption.rs:122-181 | For any device and any two pins whose keys may be points there are libraries meeting the JSON hypothesis under which one container is accepted with each pin |
| `Statement.AcceptedOwnerIsPinned` | crates/rusty_esp_mid-core/src/settings_adoption.rs:165-180 | An accepted statement names its owner by exactly the DID text of the key to be pinned, a key accepted as a curve point |
| `Adoption.ValidMeaning` | crates/rusty_esp_mid-core/src/adoption.rs:207-234 | What `validate` asks, without the parser: DIDs that are there, no string past 255 bytes, at most 32 capabilities each of which as a grant satisfies itself, an expiry after the issue |
| `Adoption.Encode` | crates/rusty_esp_mid-core/src/adoption.rs:250-274 | Writes exactly the canonical bytes at the front of the buffer, nothing outside them, with exact length and errors; every write goes through a bounds-checked cursor |
| `Adoption.CanonicalLen` | crates/rusty_esp_mid-core/src/adoption.rs:237-247 | The length summed through the capability iterator is the length of the canonical bytes |
| `Adoption.SignInto` | crates/rusty_esp_mid-core/src/adoption.rs:278-288 | Canonical bytes followed by the signature of their hash, the rest of the buffer untouched, with both buffer errors exact |
| `Adoption.Decode` | crates/rusty_esp_mid-core/src/adoption.rs:293-356 | The cursor-driven decoder with its counted loop computes the specification decoder, errors included |
| `AdoptionCodec.WireForm` | crates/rusty_esp_mid-core/src/adoption.rs:6-22 | The canonical bytes by offset, as the module's own table lays them out |
| `AdoptionCodec.DecodeOfEncode` | crates/rusty_esp_mid-core/src/adoption.rs:250-356 | Decoding a signed valid field set gives back fields, capability strings and signature if and only if the supplied capability list holds as many strings as it announces |
| `AdoptionCodec.DecodesExactly` | crates/rusty_esp_mid-core/src/adoption.rs:293-356 | Of all field sets that can be framed, the signed encodings that decode are exactly those of valid fields whose list holds what it announces |
| `AdoptionCodec.DecodedMeaning` | crates/rusty_esp_mid-core/src/adoption.rs:293-356 | What any decoded field set is: DIDs there, the 255 and 32 bounds, as many capabilities as announced and each a grant of itself, no expiry before the issue |
| `AdoptionCodec.DecodeError` | crates/rusty_esp_mid-core/src/adoption.rs:293-307 | Decoding fails as `Unsupported` exactly for the domain followed by another version, and as `InvalidFormat` otherwise |
| `AdoptionCodec.EncodeOfDecode` | crates/rusty_esp_mid-core/src/adoption.rs:293-356 | Any bytes that decode are the canonical bytes of the decoded fields followed by the signature: the encoding is unique |
| `AdoptionCodec.CanonicalInjective` | crates/rusty_esp_mid-core/src/adoption.rs:250-274 | Two field sets whose lengths fit their prefixes have the same canonical bytes only if they are the same, whether or not their lists hold as many strings as they announce |
| `AdoptionCodec.CollectCaps` | crates/rusty_esp_mid-core/src/adoption.rs:137-153 | Iterating a decoded capability list yields its strings in order, as many as it announces, uses up exactly its bytes, and then yields nothing |
| `Wire.ReadStrInverse` | crates/rusty_esp_mid-core/src/adoption.rs:448-459 | A string reads back from a buffer if and only if its length-prefixed form stands at the front and its length fits two bytes |
| `Wire.BigEndian` | crates/rusty_esp_mid-core/src/adoption.rs:250-274 | Integers of two, four and eight bytes, byte by byte, most significant first |
| `Text.Utf8IsEncodedScalars` | crates/rusty_esp_mid-core/src/adoption.rs:448-459 | The bytes a string may hold are exactly the encodings of Unicode scalar values: nothing overlong, no surrogate, nothing past U+10FFFF |
| `Key.LoadCached` | crates/rusty_esp_mid-core/src/key.rs:246-288 | Returns the key with the cached public key when the entry's tag holds; writes nothing but the cache entry, and that only when it found no usable one |
| `Key.IdMeaning` | crates/rusty_esp_mid-core/src/key.rs:37-45 | An id is 1 to 32 characters, each an ASCII letter or digit or one of `-`, `.`, `_` |
| `Key.LoadMeaning` | crates/rusty_esp_mid-core/src/key.rs:216-224 | What loading answers for each state of the key entry, the id and the scalar, errors in their order |
| `Key.CacheIsTaken` | crates/rusty_esp_mid-core/src/key.rs:259-281 | The public-key cache is taken exactly when its 97 bytes are a point and the HMAC of domain and point under the secret |
| `Key.SignPrehashCached` | crates/rusty_esp_mid-core/src/key.rs:301-328 | Returns the remembered signature when prehash and tag hold, writing nothing; otherwise signs and writes the tagged entry, best effort |
| `Key.SignatureIsRemembered` | crates/rusty_esp_mid-core/src/key.rs:301-321 | A remembered signature is taken exactly when the 128 bytes are the prehash, it, and the HMAC of domain and both |
| `Key.LoadOrGenerateCached` | crates/rusty_esp_mid-core/src/key.rs:341-355 | A stored key is returned as loaded and its entry kept; otherwise the first valid scalar of eight draws is stored and its cache written; when generating fails its error comes back and nothing is written; other entries untouched |
| `Key.LoadOrGenerate` | crates/rusty_esp_mid-core/src/key.rs:360-367 | As above without the cache: a stored key is returned, otherwise the first valid scalar of eight draws is stored; when loading or generating fails its error comes back and nothing is written |
| `Key.Generate` | crates/rusty_esp_mid-core/src/key.rs:154-170 | The first of at most eight draws that is a valid scalar, the generator's error if it comes first, else `Crypto` |
| `Key.GeneratedMeaning` | crates/rusty_esp_mid-core/src/key.rs:154-170 | Said of the draws: the first scalar if none before it failed, the first failure if none before it is a scalar, `Crypto` when none is either |
| `Key.HmacSha256` | crates/rusty_esp_mid-core/src/key.rs:100-120 | The padded, two-pass loop computes the HMAC of section 2 of RFC 2104 over the parts in order |
| `Key.XorIsBitwise` | crates/rusty_esp_mid-core/src/key.rs:101-106 | The pads are combined bit by bit |
| `Key.CtEq32` | crates/rusty_esp_mid-core/src/key.rs:130-136 | The or-accumulating comparison without early exit is equality |
| `KeyRuns.SignatureCacheTransparent` | crates/rusty_esp_mid-core/src/key.rs:290-300 | After any run of cached signings by honest keys under any names, loads, removals, foreign writes and replays of values seen before, in which no entry written carries a tag that holds under an honest key that did not write it, a cached signing returns exactly the signature signing makes |
| `KeyRuns.PublicKeyCacheTransparent` | crates/rusty_esp_mid-core/src/key.rs:235-245 | After any such run a cached load returns what loading returns, errors included |
| `KeyRuns.RefreshRepairs` | crates/rusty_esp_mid-core/src/key.rs:237-241 | A refresh whose write succeeds leaves an entry the next load takes, with the right public key |
| `KeyRuns.RememberedSignature` | crates/rusty_esp_mid-core/src/key.rs:301-328 | A signing whose entry was written is answered from the cache next time, with the same signature |
| `Identity.IdentityIsStable` | crates/rusty_esp_mid-core/src/key.rs:357-359 | Once a valid secret is stored, after any run of ownership events, cuts, signings and boots every boot gives that key and DID, cached or not, for every entropy stream, and the key entry is never overwritten |
| `Identity.BootTwice` | crates/rusty_esp_mid-core/src/key.rs:341-367 | The two boot methods, called on one store with different generators, return the same key and leave its entry |
| `Seal.SealedKv.Get` | crates/rusty_esp_mid-core/src/seal.rs:120-160 | Reading through the sealed store, in a caller's buffer, with every error of the source |
| `Seal.GetReadsMeaning` | crates/rusty_esp_mid-core/src/seal.rs:120-160 | Whatever the store holds, a read is decided by what the values stand for: the plaintext of each, or why it does not open |
| `Seal.GetSimulatesMap` | crates/rusty_esp_mid-core/src/seal.rs:120-160 | Where every value opens a read is a read of a plain map: value, absence, the exact length a short buffer needs, and the store's own errors; clear values of any length read |
| `Seal.SameMeaning` | crates/rusty_esp_mid-core/src/seal.rs:120-160 | Two stores that stand for the same answer every read alike, for every name, buffer and fault |
| `Seal.SealedKv.Put` | crates/rusty_esp_mid-core/src/seal.rs:162-182 | With a key, a put stores the sealed value and changes what the store stands for at that name only, whatever else it holds and whatever becomes of the inner write; a value over 256 bytes, or a failed draw, changes nothing. Without a key it is a put of the value as it is |
| `Seal.SealedKv.Remove` | crates/rusty_esp_mid-core/src/seal.rs:184-186 | A removal takes that name out of what the store stands for; one that fails leaves the entry or has removed it, and touches no other |
| `Seal.PutSimulatesMap` | crates/rusty_esp_mid-core/src/seal.rs:162-182 | Storing a value sealed under its own name is storing its plaintext in what the store stands for, under every fate and over any store; a store where every value opens stays one |
| `Seal.ClearReadsBack` | crates/rusty_esp_mid-core/src/seal.rs:120-160 | With a key or without, a value lying in the clear reads back if and only if it does not bear the mark within the length of a sealed value |
| `Seal.OpenedMeaning` | crates/rusty_esp_mid-core/src/seal.rs:126-158 | Which error answers a value that does not open: `Crypto` without a key or when it does not decrypt, `Corrupt` when it is too short to have been sealed |
| `Seal.SealedKv.SealInPlace` | crates/rusty_esp_mid-core/src/seal.rs:97-116 | Over any store, values that do not open included, the migration keeps what every value stands for and so every read, even stopping part way (only a torn put can lose the one value being sealed); on success every listed value is sealed, the count is the number of distinct listed clear ones, and a further call seals none |
| `Nonce.NonceWindow.Contains` | crates/rusty_esp_mid-core/src/nonce.rs:32-34 | Found exactly when among the last accepted nonces the window has room for |
| `Nonce.NonceWindow.CheckAndInsert` | crates/rusty_esp_mid-core/src/nonce.rs:38-48 | Accepts exactly a nonce outside the window and appends it to the history; otherwise changes nothing |
| `Nonce.Perform` | crates/rusty_esp_mid-core/src/nonce.rs:19-67 | A window performs any sequence of insertions and clears as the history function says |
| `Nonce.ReplayNeedsNOthers` | crates/rusty_esp_mid-core/src/nonce.rs:1-3 | Over every run, between two acceptances of one nonce with no clear between them at least N others were accepted |
| `Nonce.NOthersSuffice` | crates/rusty_esp_mid-core/src/nonce.rs:1-3 | And N are enough: with no clear and no other acceptance of it since, a nonce is accepted again exactly when at least N others have been |
| `Did.ParseIsWriteInverse` | crates/rusty_esp_mid-core/src/did.rs:77-100 | A text parses to a key exactly when it is what writing that key prints and the key is acceptable, for either prefix |
| `Did.ParseMeaning` | crates/rusty_esp_mid-core/src/did.rs:77-100 | Said of the text: the key it is written for when that begins with 2 or 3 and is on the curve, `Crypto` when such a key is off the curve, else `InvalidFormat` |
| `Did.PrintedParsesBack` | crates/rusty_esp_mid-core/src/did.rs:65-86 | The DID and the multibase form of an acceptable key both parse back to it |
| `Did.TextInjective` | crates/rusty_esp_mid-core/src/did.rs:65-68 | No two 33-byte keys share a DID |
| `Did.WriteWithPrefix` | crates/rusty_esp_mid-core/src/did.rs:125-138 | Writes prefix and base58 at the front of the buffer, succeeds exactly when they fit, and always when 46 characters fit |
| `Did.ToDidString` | crates/rusty_esp_mid-core/src/did.rs:102-111 | The DID text in full: the buffer for the longest is never too short |
| `Did.ToMultibaseString` | crates/rusty_esp_mid-core/src/did.rs:113-122 | The multibase text in full, likewise |
| `Did.AlphabetMeaning` | crates/rusty_esp_mid-core/src/did.rs:88-97 | The alphabet is the ASCII digits and letters but for `0`, `O`, `I` and `l`, in code order |
| `Did.Base58Fits` | crates/rusty_esp_mid-core/src/did.rs:21-28 | Base58 of any 33 bytes takes at most 46 characters |
| `Did.Base58BoundIsTight` | crates/rusty_esp_mid-core/src/did.rs:21-22 | 33 bytes of 255 take all 46 |
| `Did.RealKeyLength` | crates/rusty_esp_mid-core/src/did.rs:39-48 | The DID of an acceptable key has 44 or 45 base58 characters |
| `Status.Write` | crates/rusty_esp_mid-core/src/status.rs:152-163 | Lays the message out at the front of the buffer with exact errors |
| `Status.MessageForm` | crates/rusty_esp_mid-core/src/status.rs:152-163 | The message by offset, every length two bytes |
| `Status.Prehash` | crates/rusty_esp_mid-core/src/status.rs:166-170 | The hash fed field by field is the hash of the bytes `write` lays out |
| `Status.DocumentMatchesSignature` | crates/rusty_esp_mid-core/src/status.rs:286-317 | Whatever `extra` holds, a verifier rebuilds from the nonce and the document's own fields the very proof that was signed, and reads that signature |
| `Status.ExtraCannotSpeakForTheContract` | crates/rusty_esp_mid-core/src/status.rs:244-260 | `extra` neither replaces nor introduces any of the nine contract fields, and its other fields are served as they are |
| `Status.Signed` | crates/rusty_esp_mid-core/src/status.rs:286-317 | The loops and inserts build exactly the specified body around the signature of the prehash |
| `Status.DiscoveryReadsBack` | crates/rusty_esp_mid-core/src/status.rs:262-281 | A client that reads device, maker, model, node and pairing out of the plain body, or of the signed one for any `extra`, gets what the document says |
| `Status.ParseNonceHex` | crates/rusty_esp_mid-core/src/status.rs:185-202 | The loop decodes exactly the 64-character lower-case hexadecimal texts |
| `Status.NonceHexBijection` | crates/rusty_esp_mid-core/src/status.rs:184-202 | Such texts and 32-byte nonces determine each other |
| `Status.UnhexMeaning` | crates/rusty_esp_mid-core/src/status.rs:184-202 | Said of the characters: two to a byte, high half first, digits and lower-case letters only |
| `Messages.PreimagesAreJointlyInjective` | crates/rusty_esp_mid-core/src/kms.rs:62-110 | Two messages of six kinds, each let through by its signer's own check, or a maker's whose model and firmware take at most 65,535 bytes (its signer checks nothing), have the same preimage only if they are the same message of the same kind |
| `Messages.CanonicalBytes` | crates/rusty_esp_mid-core/src/kms.rs:83-95 | The hash fed in parts is the hash of the envelope's message |
| `Messages.SignEnvelope` | crates/rusty_esp_mid-core/src/kms.rs:60-101 | Signed if and only if the version is 1, the nonce 32 bytes, the DID parses, it expires after its issue and within 300 seconds of it, and no string is past 65,535 bytes; which error is returned otherwise |
| `Messages.EnvelopeForm` | crates/rusty_esp_mid-core/src/kms.rs:83-95 | The message by offset, for envelopes whose lengths fit |
| `Messages.EnvelopeBound` | crates/rusty_esp_mid-core/src/kms.rs:104-110 | Envelopes are told apart by their message exactly when no string may exceed 65,535 bytes: saturating the length does not prevent collisions beyond it |
| `Messages.ReplyPrehash` | crates/rusty_esp_mid-core/src/setup.rs:40-55 | The hash of the framed reply, or an error for a context too long to frame |
| `Messages.ReplyForm` | crates/rusty_esp_mid-core/src/setup.rs:40-55 | The reply by offset: the context behind its length, the two shares, the confirmation |
| `Messages.MakerBound` | crates/rusty_esp_mid-core/src/manifest.rs:78-87 | Maker messages name one model and firmware exactly when neither may exceed 65,535 bytes: the length wraps at 65,536 |
| `Cap.ParseIsTextInverse` | crates/rusty_esp_mid-core/src/cap.rs:22-37 | A string parses to exactly the clean capability it is the text of |
| `Cap.ParsesWhatIsSpelled` | crates/rusty_esp_mid-core/src/cap.rs:18-37 | Said of the characters: one colon with something on either side, at most one at sign, after the action and before the scope |
| `Cap.GrantMeaning` | crates/rusty_esp_mid-core/src/cap.rs:41-56 | On strings: a grant covers itself and, when unscoped, itself with any clean scope appended, and nothing else |
| `Cap.AnySatisfies` | crates/rusty_esp_mid-core/src/cap.rs:60-68 | True exactly when some listed grant satisfies the need |
| `Flash.SharedPartition.Write` | crates/rusty_esp_mid-esp/src/hal/shared.rs:45-68 | Opens the partition for the one operation and performs it as the step function says, checks and errors included |
| `Flash.PartitionFlash.ErasePage` | crates/rusty_esp_mid-esp/src/hal/flash.rs:73-79 | Erases one page of the partition; the page's end is a `u32` |
| `Flash.StepMeaning` | crates/rusty_esp_mid-esp/src/hal/flash.rs:47-79 | An operation answers a geometry error exactly when it leaves the partition, a hardware error when it stays but is not of whole words or a whole page, and succeeds otherwise |
| `Flash.WriteReadsBack` | crates/rusty_esp_mid-esp/src/hal/flash.rs:61-71 | What was written reads back, byte by byte, as what programming leaves over the old contents |
| `Flash.EraseReadsBack` | crates/rusty_esp_mid-esp/src/hal/flash.rs:73-79 | An erased page reads as 255 throughout |
| `Flash.OwnStep` | crates/rusty_esp_mid-esp/src/hal/flash.rs:47-79 | An operation on a partition of the shared memory is that operation on an array of the partition's own |
| `Flash.PartitionsAreIsolated` | crates/rusty_esp_mid-esp/src/hal/shared.rs:45-68 | In any interleaving of operations on two disjoint partitions each one's bytes and replies are those of its own operations on an array of its own |
| `Partitions.NamedPartitionsAreIsolated` | crates/rusty_esp_mid-esp/src/hal/shared.rs:72-85 | Two partitions opened by different labels are isolated from each other over any interleaving, from a table whose entries within a scan's reach do not overlap |
| `Partitions.FindPartition` | crates/rusty_esp_mid-esp/src/hal/partitions.rs:99-130 | The first live entry of that label; nothing exactly when an end mark or the table's end is met first; `Corrupt` at an entry that is neither; `Hardware` when the flash cannot be read |
| `Partitions.EntryRoundTrip` | crates/rusty_esp_mid-esp/src/hal/partitions.rs:107-128 | An entry reads as a given partition exactly when its first 28 bytes are that partition written: mark, kind, subtype, offset and length least significant byte first, label |
| `Partitions.ScanFindsWritten` | crates/rusty_esp_mid-esp/src/hal/partitions.rs:99-130 | Scanning a table of written entries finds the first of that label, exactly as written, or nothing |
| `Partitions.LabelReadsBack` | crates/rusty_esp_mid-esp/src/hal/partitions.rs:71-83 | A label of at most 16 bytes reads back, whether padded with NULs or blank |
| `Partitions.ParseU32` | crates/rusty_esp_mid-esp/src/hal/partitions.rs:27-53 | The accumulating loop gives the decimal or hexadecimal number, and stops the build exactly when there is no digit, a character is none, or the whole value is no `u32` |
| `Partitions.SettingMeaning` | crates/rusty_esp_mid-esp/src/hal/partitions.rs:27-53 | The setting is the number its characters spell, hexadecimal behind `0x` or `0X` in either case, else decimal |
| `Flash.NothingElseChanges` | crates/rusty_esp_mid-esp/src/hal/flash.rs:35-79 | No byte outside the two partitions is ever changed |

## Left out

- Owner.Accept: the mesh code that calls it and stores the envelope is not part of this repository; runs take the accepted pin as stored and any other entry as freely written.
- OwnerRuns.GrantAgreesWithPin: runs in which something else stores a statement in the adoption entry, or marks it as one, are not covered; nothing in the repository but `apply` does.
- KeyRuns.SignatureCacheTransparent: the entries a run writes are taken to carry no tag that holds under an honest key other than the writer; that HMAC makes anything else infeasible is not proved.
- Did.Base58: the `bs58` crate's in-place digit loops are modelled by the number they compute, and its too-small-buffer failure by the length it needs.
- Seal.SealedKv.Get: decrypts a value rather than in place, so the wiping of the buffer is not captured; nonce freshness and secrecy are not modelled.
- Flash.FlashStorage: the flash driver is not shown; it is taken to accept whole words, and whole pages to erase, inside its memory, and to fail otherwise having changed nothing.
- Settings and identity as two namespaces of one map (`hal/shared.rs:86-105`): the two stores are distinct here.
- Reading the partition table through the decrypting cache (`hal/partitions.rs:101-108`): the table's bytes are given, or absent when the read fails.
- Insides of SHA-256, ECDSA, RFC 6979, ECDH, AES-GCM and curve membership; the HMAC construction is modelled, its security is not.
- JSON and base64url parsing, and the JWS, roster and token builders over them.
- The NVS page format, garbage collection and encryption checks, the chip's random generator, HMAC peripheral and firmware.
- Manifest encoding, and the setup session's stored records; the manifest's signing enters as its preimage and as a cached signing.
- Zeroizing, constant time and debug output.
