# Password manager core: generator and cipher envelope

This project models two parts of a local password vault and proves properties of them in Dafny:

- **The password generator** (`src/utils/generator.js`) works in these stages:
  - It checks the requested length first.
  - It builds a character pool from four character classes: lower case, upper case, digits and symbols.
  - Unless they are asked for, it removes the visually ambiguous characters from the pool.
  - It forces one character of each enabled class, drawn from that class's full alphabet.
  - It fills the rest from the pool. All characters are drawn by rejection sampling over `crypto.randomBytes(32)` batches.
  - Finally it shuffles the result with `sort` and a random comparator.
- **The cipher envelope** (`src/security/encryption.js`):
  - The key is derived from the master password by SHA-256.
  - A text is encrypted with AES-256-GCM under a fresh 16-byte IV.
  - The result is stored as `ivHex:tagHex:ctHex`.
  - `decrypt` splits on `:`, decodes the first three fields, and lets the decipher check the tag.

Files:

- `common.dfy` (module `Common`) defines bytes, `Option` and `Result`. A `Failure` stands for an exception the source throws.
- `generator.dfy` (module `Generator`) covers the following:
  - The pool is computed by functions.
  - The sampler is imperative. `SecureRandomString` keeps the source's `while`/`for` loops, with the inner loop in `ScanBatch`. It is proved against the specification functions `Index`, `Step`, `Accepted`, `Draws` and `BatchesUsed`.
  - `GeneratePassword` follows the source's sequence of `push` calls, `Math.max`, concatenation and shuffle. The `push` lines are proved against the function `Guaranteed`, which threads the stream of batches through the four lines.
  - The random bytes are an input, `batches`, that holds one 32-byte batch per `crypto.randomBytes(32)` call.
- `encryption.dfy` (module `Encryption`) covers the following:
  - It models `deriveKey`, `encrypt` and `decrypt` as pure functions.
  - Node's hexadecimal encoding and decoding and `String.prototype.split(':')` are written out.
  - A JavaScript string is a sequence of UTF-16 code units, and a Dafny string a sequence of Unicode scalar values. `Units` gives a string's code units: one per character below U+10000, a surrogate pair otherwise. Node's hex decoder reads each code unit by its low byte, so `HexDecode` works on code units, and the odd-length test of `decipher.update(…, 'hex')` counts them. `split(':')` gives the same pieces on characters as on code units, since no surrogate is `:`.
  - SHA-256, AES-256-GCM and the UTF-8 conversions are the fields of a `Primitives` value. GCM works on bytes; the text is encoded to UTF-8 before encryption and the plaintext bytes are decoded back after decryption.
  - What the envelope needs from them is the predicate `Sound`. It says four things:
    - decoding the UTF-8 bytes of a string gives the string back (decoding arbitrary bytes may lose information, so nothing more is assumed);
    - under a 32-byte key and a non-empty IV, decryption with a tag of an accepted length that begins the true tag gives the plaintext bytes back;
    - decryption yields bytes only when the ciphertext is the encryption of those bytes and the tag, of an accepted length, begins the true tag (this makes no demand on the key or IV size);
    - tags are 16 bytes.
  - `DigestSize` says that the digest is 32 bytes. The round-trip lemmas assume it, since the decipher refuses any other key size.
  - `Toy` is a stand-in cipher, and `ToyIsSound` shows that the assumption can be met.

## Model

| member | source | states |
|---|---|---|
| Generator.EnabledClasses | src/utils/generator.js:92-96 | A class is among the enabled classes exactly when its option is set. There are at most four. |
| Generator.WithoutAmbiguous | src/utils/generator.js:40-42 | The filtered string holds a character exactly when the input holds it and it is not in `AMBIGUOUS`. It is never longer than the input. |
| Generator.WithoutAmbiguousAppend | src/utils/generator.js:41 | Filtering works character by character, so filtering a concatenation is the concatenation of the filtered parts. |
| Generator.ClassWitnesses | src/utils/generator.js:3-25 | Each class alphabet holds a character that is not ambiguous: 'a', 'A', '2' and '!'. |
| Generator.BuildCharset | src/utils/generator.js:27-49 | The call throws `EmptyCharset` exactly when no class is enabled. Otherwise the pool holds 1 to 91 characters. A character is in it exactly when it belongs to an enabled class and is not ambiguous, unless `ambiguous` is set. |
| Generator.BuildCharsetOrder | src/utils/generator.js:34-42 | The pool is the concatenation, in the order lower, upper, digits, symbols, of exactly the enabled classes. Each class is filtered when `ambiguous` is false. |
| Generator.PoolAvoidsAmbiguous | src/utils/generator.js:7-25 | With `ambiguous` false, no character of the pool is in `AMBIGUOUS`. |
| Generator.Threshold | src/utils/generator.js:55 | For a pool of n >= 1 characters the threshold is a multiple of n, at most 256, and within n of 256. For an empty pool it is 0. |
| Generator.ThresholdIsFloorMultiple | src/utils/generator.js:55 | The acceptance threshold equals `Math.floor(256 / n) * n`. |
| Generator.ThresholdBounds | src/utils/generator.js:55 | For a pool of 1 to 256 characters the threshold lies in [128, 256] and is the largest multiple of n not above 256. For n = 0 it is 0, as the NaN comparison rejects every byte. |
| Generator.Index | src/utils/generator.js:61-62 | A byte selects a pool index exactly when it is below the threshold, and that index is below the pool size. |
| Generator.Step | src/utils/generator.js:60-64 | One byte contributes at most one character. It contributes one exactly when it is below the threshold. |
| Generator.Accepted | src/utils/generator.js:59-65 | The first i bytes of a batch contribute at most i characters. |
| Generator.AcceptedPrefix | src/utils/generator.js:59-65 | What fewer bytes contribute is a prefix of what more bytes contribute. |
| Generator.AcceptedInCharset | src/utils/generator.js:61-63 | Every character a batch contributes is a character of the charset. |
| Generator.Draws | src/utils/generator.js:57-66 | k batches contribute at most 32k characters. |
| Generator.DrawsInCharset | src/utils/generator.js:57-66 | Every character a run of batches contributes is a character of the charset. |
| Generator.DrawsPrefix | src/utils/generator.js:57-66 | What fewer batches contribute is a prefix of what more batches contribute. |
| Generator.DrawsGrow | src/utils/generator.js:57-66 | More batches never contribute fewer characters. |
| Generator.FewestBatches | src/utils/generator.js:57 | Counting down, it finds a number of batches that reaches `length` characters and whose one-smaller count does not. |
| Generator.BatchesUsed | src/utils/generator.js:57-66 | The batches the sampler pulls: the fewest that contribute at least `length` characters. |
| Generator.BatchesUsedUnique | src/utils/generator.js:57-66 | Only one number of batches reaches `length` while one fewer does not, so the count the sampler pulls is determined. |
| Generator.ScanBatch | src/utils/generator.js:59-65 | The inner `for` loop. It appends exactly what the scanned bytes contribute and never goes past `length`. If it stops before the end of the batch, it has collected `length` characters. |
| Generator.SecureRandomString | src/utils/generator.js:51-68 | The result is exactly the first `length` characters that the whole stream contributes, and each is in the charset. The sampler pulls exactly `BatchesUsed` batches, the fewest that suffice. |
| Generator.SampledPrefix | src/utils/generator.js:57-67 | When the `while` loop ends with `length` characters that prefix the draws of `used` batches, and `used - 1` batches fell short, the result is the first `length` characters of the stream and `used` is `BatchesUsed`. |
| Generator.HitsBelow | src/utils/generator.js:62 | Below m*n, exactly m integers leave remainder idx modulo n. |
| Generator.NoModuloBias | src/utils/generator.js:55-63 | For a pool of 1 to 256 characters, every index below n is produced by exactly floor(256/n) accepted byte values. |
| Generator.AcceptedNonEmpty | src/utils/generator.js:59-65 | A batch with a byte below 128 gives every pool of 1 to 256 characters at least one character. |
| Generator.DrawsAtLeastBatches | src/utils/generator.js:57-66 | k such batches give at least k characters. |
| Generator.UsedAtMostLength | src/utils/generator.js:57-66 | With such batches, the sampler pulls no more batches than the characters it is asked for. |
| Generator.PermutationKeeps | src/utils/generator.js:101-104 | A permutation holds every character of what it permutes. |
| Generator.CoversClasses | src/utils/generator.js:93-104 | Take one character per class, in each class's alphabet. A permutation of a fill plus those characters then holds a character of every class. |
| Generator.CoversEnabledClasses | src/utils/generator.js:93-104 | An assembled password holds a character of the full alphabet of every enabled class. |
| Generator.FirstDraw | src/utils/generator.js:93-96 | The first accepted character of a stream is a character of the alphabet, and drawing it pulls between one batch and all of them. |
| Generator.PickOne | src/utils/generator.js:93-96 | One `if (enabled) needed.push(secureRandomString(1, ALPHABET))` line: when disabled it changes nothing. When enabled it appends one character of the class alphabet and leaves a suffix of the batches. |
| Generator.PushGuaranteed | src/utils/generator.js:93-96 | That push line as a method: its new `needed` and remaining batches are exactly what `PickOne` gives. |
| Generator.PickOneKeepsOnePerClass | src/utils/generator.js:93-96 | A push line keeps one character per class and adds its own class when enabled. |
| Generator.GuaranteedOnePerClass | src/utils/generator.js:92-96 | The four push lines leave one character of each enabled class's full alphabet, in class order. |
| Generator.Guaranteed | src/utils/generator.js:92-96 | When the four push lines finish, `needed` holds exactly as many characters as there are enabled classes. |
| Generator.PickGuaranteed | src/utils/generator.js:92-96 | `needed` and the batches left are exactly what `Guaranteed` gives: each enabled class in turn adds the first accepted character of its alphabet from the batches the earlier lines left. |
| Generator.Shuffle | src/utils/generator.js:101-104 | The result is a permutation of its input: the same multiset and the same length. |
| Generator.GuaranteedMayBeAmbiguous | src/utils/generator.js:93 | A guaranteed character comes from the unfiltered alphabet. With `ambiguous` false, a batch starting with byte 14 yields 'o', which is ambiguous and missing from the pool. |
| Generator.FirstBatchSuffices | src/utils/generator.js:93-96 | A first batch with a byte below 128 gives a character of any alphabet of 1 to 256 characters, so a one-character request pulls only that batch. |
| Generator.PickOneLow | src/utils/generator.js:93-96 | When every batch has a byte below 128, an enabled push line takes exactly one batch and a disabled one takes none. |
| Generator.GuaranteedLow | src/utils/generator.js:92-96 | When every batch has a byte below 128, the four push lines finish and take one batch per guaranteed character. |
| Generator.LowBytesSuffice | src/utils/generator.js:92-99 | A byte below 128 in every batch, and one batch per requested character, is enough randomness for every valid request. |
| Generator.Remaining | src/utils/generator.js:98 | `Math.max(0, length - picked)`: with `picked <= length` it makes up the difference to `length`, and otherwise it is 0. |
| Generator.FillAndNeeded | src/utils/generator.js:92-99 | The guaranteed characters are one per enabled class. The fill comes from the pool. Together they have the requested length, as `Math.max(0, length - needed.length)` gives when `length >= 4`. |
| Generator.AfterPicks | src/utils/generator.js:98-99 | After the push lines, the remaining batches hold the fill, and the fill is their first `remaining` accepted pool characters. |
| Generator.PasswordAssembled | src/utils/generator.js:98-104 | A permutation of the fill and the guaranteed characters has the requested length and holds a character of every enabled class. |
| Generator.GeneratePassword | src/utils/generator.js:70-105 | A length outside [4, 256] throws `LengthOutOfRange` before the pool is built. With no class enabled it throws `EmptyCharset`. Otherwise the result has exactly `length` characters. It is a permutation of the pool characters `Fill` and the guaranteed characters `Needed` that the stream determines, and it holds a character of every enabled class. |
| Encryption.HexValue | src/security/encryption.js:25-26 | A character has a value exactly when it is a hex digit of either case, and that value is below 16; any other character has none. |
| Encryption.CodeUnits | src/security/encryption.js:32 | A character below U+10000 is one code unit, itself. Any other is a surrogate pair, a high surrogate followed by a low one. |
| Encryption.Units | src/security/encryption.js:32 | A string has at least one and at most two code units per character. |
| Encryption.UnitsAppend | src/security/encryption.js:32 | The code units of a concatenation are the code units of the parts. |
| Encryption.UnitValue | src/security/encryption.js:25-26 | A code unit reads as the digit its low byte names, a value below 16. A unit below 256 reads as that character. |
| Encryption.DecodeUnits | src/security/encryption.js:25-26 | Decoding code units gives at most one byte per two units. |
| Encryption.HexDigit | src/security/encryption.js:17-19 | The digit written for a value below 16 is lower-case, and it reads back as that value. |
| Encryption.HexEncode | src/security/encryption.js:17-19 | `toString('hex')` gives two lower-case digits per byte and never a `:`. |
| Encryption.HexDecode | src/security/encryption.js:25-26 | `Buffer.from(s, 'hex')` gives at most one byte per two code units of `s`. |
| Encryption.HexDecodeReadsLowBytes | src/security/encryption.js:25-26 | Characters beyond Latin-1 read as the digit their low byte names: "šš" decodes to the byte 0xaa and "İİ" to 0x00. |
| Encryption.HexDecodeEncode | src/security/encryption.js:19-26 | Decoding the hex of bytes gives the bytes back. |
| Encryption.HexEncodeDecode | src/security/encryption.js:25-26 | An even run of lower-case digits is the hex of what it decodes to. |
| Encryption.EncodedUnits | src/security/encryption.js:17-19 | The hex of some bytes is two code units per byte, and every one of them reads as a digit. |
| Encryption.HexEncodeAppend | src/security/encryption.js:17-19 | Hex encoding distributes over concatenation. |
| Encryption.HexDecodeStops | src/security/encryption.js:25-26 | After an even run of code units that read as digits, decoding stops silently at a pair of units either of which does not read as a digit, or at a single unit left at the end. |
| Encryption.HexDecodeDropsOddDigit | src/security/encryption.js:25-26 | After an even number of code units, one more unit is ignored, whatever it is. This applies to the IV and tag fields, which go through `Buffer.from`. |
| Encryption.Split | src/security/encryption.js:23 | `split(':')` gives at least one field, and no field holds `:`. |
| Encryption.Join | src/security/encryption.js:19 | Joined fields begin with the first field, followed by `:` when more fields follow. |
| Encryption.SplitCount | src/security/encryption.js:23 | There is one field more than there are `:` characters. |
| Encryption.JoinSplit | src/security/encryption.js:19-23 | Joining the fields with `:` gives back the string. |
| Encryption.SplitJoin | src/security/encryption.js:19-23 | Splitting fields joined with `:` gives back those fields when none holds `:`. |
| Encryption.DeriveKey | src/security/encryption.js:6-8 | The key is 32 bytes when the digest is. It depends on the password alone, and `encrypt` and `decrypt` both use it. |
| Encryption.Envelope | src/security/encryption.js:17-19 | The template literal begins with the IV's hex digits and a `:`. Its length is two digits per byte plus two separators. |
| Encryption.EnvelopeParse | src/security/encryption.js:19-26 | An envelope splits into exactly three fields, which decode to the IV, tag and ciphertext it was written from. |
| Encryption.EnvelopeAlphabet | src/security/encryption.js:17-19 | An envelope holds only lower-case hex digits and exactly two `:`. |
| Encryption.Ciphertext | src/security/encryption.js:14-16 | The ciphertext `encrypt` computes deciphers, with its full tag under the same key and IV, to the UTF-8 bytes of the text, under `Sound` and `DigestSize`. |
| Encryption.TagOf | src/security/encryption.js:17 | The tag `getAuthTag()` gives is 16 bytes under `Sound`. |
| Encryption.Encrypt | src/security/encryption.js:10-20 | The output's first 32 characters are the hex of this call's IV, followed by `:`. It holds exactly two `:` and otherwise only lower-case hex digits. |
| Encryption.Decrypt | src/security/encryption.js:22-35 | A missing field, meaning fewer than two `:`, throws `MissingField`, and only then. |
| Encryption.Open | src/security/encryption.js:25-34 | Every decipher failure is `Rejected`. A result is returned only when the ciphertext field has an even number of code units, since `decipher.update(…, 'hex')` throws otherwise. |
| Encryption.DecryptFields | src/security/encryption.js:23-34 | Of fields without `:`, the first three reach the decipher unchanged. |
| Encryption.DecryptThreeFields | src/security/encryption.js:23-34 | Three fields without `:` reach the decipher unchanged. |
| Encryption.EncryptFields | src/security/encryption.js:10-26 | `encrypt`'s output splits into three fields that decode to the IV, tag and ciphertext computed for it. |
| Encryption.OpenEncrypt | src/security/encryption.js:10-34 | The decipher gives the text back from the three fields `encrypt` wrote, under `Sound` and `DigestSize`. |
| Encryption.DecryptEncrypt | src/security/encryption.js:10-35 | Round trip: `decrypt(encrypt(t, m), m)` returns `t` under `Sound` and `DigestSize`. |
| Encryption.OddCiphertextRejected | src/security/encryption.js:32 | An envelope whose ciphertext field has an odd number of code units is refused, whatever the other fields hold. |
| Encryption.OpenDecodedCiphertext | src/security/encryption.js:25-34 | Next to `encrypt`'s IV and tag fields, any ciphertext field with an even number of code units that decodes to `encrypt`'s ciphertext deciphers to the text. |
| Encryption.DecryptExtendedCiphertext | src/security/encryption.js:10-35 | Text appended to `encrypt`'s output lands in the ciphertext field. If that field keeps an even number of code units and still decodes to the ciphertext, the envelope still decrypts to the text. |
| Encryption.AstralTailIgnored | src/security/encryption.js:25-32 | After the hex of some bytes, a character beyond U+10000 adds two code units. If either of them does not read as a digit, it adds nothing to what decodes. |
| Encryption.AppendedAstralCharIgnored | src/security/encryption.js:10-35 | `encrypt`'s output with such a character appended still decrypts to the text. |
| Encryption.AppendedEmojiIgnored | src/security/encryption.js:10-35 | For example, `decrypt(encrypt(t, m) + '😀', m)` returns `t`: U+1F600's first code unit, 0xD83D, reads as `=`. |
| Encryption.OpenAuthentic | src/security/encryption.js:25-34 | The decipher returns a text only when four things hold under the derived key: the ciphertext field has an even number of code units; the tag has an accepted length; the tag begins the true tag; the ciphertext decodes to the encryption of bytes whose UTF-8 reading is the text. |
| Encryption.DecryptAuthentic | src/security/encryption.js:23-34 | `decrypt` returns a text only when its first three fields authenticate it as in `OpenAuthentic`. |
| Encryption.OpenRejectsOtherTag | src/security/encryption.js:29-33 | A 16-byte tag other than the true tag of the ciphertext field is refused. |
| Encryption.AlteredTagRejected | src/security/encryption.js:29-34 | An envelope with any 16-byte tag other than the true one is refused. |
| Encryption.WrongPassword | src/security/encryption.js:22-34 | Another password opens an envelope only in one case. Its key must give the same full tag for the ciphertext. That ciphertext must also encrypt, under that key, some bytes whose UTF-8 reading is the returned text. |
| Encryption.DecryptIgnoresExtraFields | src/security/encryption.js:23 | Fields after the third do not change the result. |
| Encryption.TagFieldPrefix | src/security/encryption.js:17 | The first 24 digits of a 16-byte tag's hex are the hex of its first 12 bytes. |
| Encryption.CorruptedTagField | src/security/encryption.js:26 | A tag field whose 25th digit is replaced by a character other than `:`, whose first code unit does not read as a digit, decodes to the tag's first 12 bytes. |
| Encryption.CorruptedTagFieldAccepted | src/security/encryption.js:26-33 | As written, that altered envelope still decrypts to the text. |
| Encryption.DecryptStrict | src/security/encryption.js:29-30 | The corrected decrypt throws `MissingField` exactly when fewer than two `:` are present. |
| Encryption.DecryptStrictThreeFields | src/security/encryption.js:23-34 | In the corrected decrypt, three fields without `:` reach the decipher unchanged. A tag that does not decode to 16 bytes is refused first. |
| Encryption.DecryptStrictEncrypt | src/security/encryption.js:10-35 | The corrected decrypt keeps the round trip. |
| Encryption.DecryptStrictAuthentic | src/security/encryption.js:27-34 | The corrected decrypt returns a text only when the tag field decodes to the full true tag. The ciphertext field must also have an even number of code units and encrypt bytes whose UTF-8 reading is the text. |
| Encryption.DecryptStrictRejectsOtherTags | src/security/encryption.js:29-34 | The corrected decrypt refuses an envelope of `encrypt`'s IV and ciphertext whose tag field does not decode to the true tag. That includes the altered field above. |

## Left out

- SHA-256, AES-256-GCM and the UTF-8 conversions are not reimplemented. They are the fields of `Primitives`, and the lemmas assume `Sound`. The `createDecipheriv`/`setAuthTag`/`update`/`final` object state is folded into one function, `gcmDecrypt`. The order in which those calls throw is not modelled, since every such failure is `Rejected`.
- UTF-8: Dafny strings hold Unicode scalar values only. A JavaScript string with a lone surrogate cannot be written as a Dafny string. Such a text passed to `encrypt` would become U+FFFD when encoded, and that case is not modelled. Such a string passed to `decrypt` is not expressible either: for example `encrypt(t, m) + '\uDC00'` has an odd number of code units in its ciphertext field, so Node refuses it, but the model cannot state that input. Decoding bytes that are not UTF-8 is lossy in Node; `utf8Decode` is an arbitrary function, so the model does not assume it is injective.
- `crypto.randomBytes` is an input. The generator receives the list of 32-byte batches. `encrypt` receives its IV as a parameter of 16 bytes. IV freshness and uniqueness across calls are probabilistic and not modelled.
- Generator.SecureRandomString: requires that the batches supply at least `length` accepted characters. The source loops until the random source supplies them, so non-termination is not modelled.
- Generator.GeneratePassword: requires `EnoughRandomness`, which says that the given batches hold every character the call draws. On a stream that runs out, the source would call `crypto.randomBytes` again, and that is not modelled. `LowBytesSuffice` gives a simple sufficient condition: a byte below 128 in every batch, and one batch per requested character.
- Generator.Shuffle: the `sort` with the comparator `randomBytes(1)[0] - 128` is modelled as an arbitrary permutation. Which permutation comes out, its distribution, and the random bytes the comparator consumes are not modelled. A Fisher–Yates shuffle would give a uniform permutation. The code sorts with a random comparator instead, and the model follows the code.
- The options are a value with a whole-number `length` and booleans. JavaScript's destructuring defaults for missing fields (length 16, every class enabled, `ambiguous` off) are not modelled; every field is given. Non-integer or non-numeric lengths are not modelled either. With those, the source's comparisons and `Math.max` behave differently.
- Exceptions are `Result` failures with one error kind per cause, not the source's message strings or `Error` classes.
- Encryption.Decrypt: when a field is missing, the model reports `MissingField`. In the source, with one field, `Buffer.from(undefined, 'hex')` (src/security/encryption.js:26) throws a `TypeError`. With two fields, `createDecipheriv` or `setAuthTag` (lines 29-30) may throw first on an invalid IV or tag length, and otherwise `decipher.update(undefined, …)` (line 32) throws a `TypeError`. The model reports `MissingField` in every such case and does not model which of those calls throws.
- The command-line interface (`src/cli/index.js`), the database (`src/db/database.js`) and the login wrapper (`src/utils/auth.js`) are not part of this model. They are I/O and callback plumbing around calls outside this core.

## Findings

| source | as written | input that shows it | evidently intended | confidence | as-written member | corrected member |
|---|---|---|---|---|---|---|
| src/security/encryption.js:26-30 | The decipher is created without `authTagLength`, so `setAuthTag` accepts a tag of any length GCM allows (4, 8 or 12 to 16 bytes). `Buffer.from(tagHex, 'hex')` also stops at the first code unit that does not read as a digit. | Take `encrypt`'s output and replace the 25th digit of its tag field by `x`. The tag decodes to its first 12 bytes, and `decrypt` still returns the text. | Only the full 16-byte tag authenticates, so any tag field that does not decode to the true 16-byte tag is refused. | medium, not executed (how short GCM tags are treated depends on the Node.js version) | Encryption.CorruptedTagFieldAccepted | Encryption.DecryptStrictRejectsOtherTags |

`Encryption.DecryptStrict` is the corrected definition. It creates the decipher with `{ authTagLength: 16 }`, so a tag that does not decode to 16 bytes is refused. It keeps the round trip (`DecryptStrictEncrypt`) and accepts only the full true tag (`DecryptStrictAuthentic`). `Encryption.Decrypt` stays as the source has it.
