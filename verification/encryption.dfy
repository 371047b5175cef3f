/** The cipher envelope: a secret is stored as `ivHex:tagHex:ctHex`, the
    lower-case hexadecimal (RFC 4648 section 8) of the initialisation vector,
    the AES-256-GCM authentication tag and the ciphertext. The key is the
    SHA-256 digest of the master password. The primitives (SHA-256,
    AES-256-GCM and UTF-8) are not reimplemented: they are parameters, and
    what the envelope relies on is stated as the predicate `Sound`. */
module Encryption {
  import opened Common

  /** `IV_LENGTH`: bytes of initialisation vector drawn for each call. */
  const IV_LENGTH: nat := 16

  /** GCM's full authentication tag, 128 bits (NIST SP 800-38D section 7.1). */
  const TAG_LENGTH: nat := 16

  /** The separator between the envelope's fields. */
  const Separator: char := ':'

  type Iv = b: Bytes | |b| == IV_LENGTH witness seq(IV_LENGTH, _ => 0)

  /** The library calls the envelope is wired from.
      - `sha256(s)`: `createHash('sha256').update(s).digest()`;
      - `utf8Encode(s)`: the bytes `cipher.update(text, 'utf8', …)` reads from a string;
      - `utf8Decode(b)`: the string `decipher.update(…, 'utf8')` plus
        `decipher.final('utf8')` write for the bytes `b`; bytes that are not
        UTF-8 become U+FFFD, so this is not injective;
      - `gcmEncrypt(key, iv, m)`: the ciphertext bytes of `cipher.update` + `cipher.final`;
      - `gcmTag(key, iv, ct)`: `cipher.getAuthTag()`, a function of the key,
        the IV and the ciphertext (NIST SP 800-38D section 7.1);
      - `gcmDecrypt(key, iv, tag, ct)`: `createDecipheriv`, `setAuthTag`,
        `update` and `final` on a decipher, giving the plaintext bytes;
        `None` when any of them throws. */
  datatype Primitives = Primitives(
    sha256: string -> Bytes,
    utf8Encode: string -> Bytes,
    utf8Decode: Bytes -> string,
    gcmEncrypt: (Bytes, Bytes, Bytes) -> Bytes,
    gcmTag: (Bytes, Bytes, Bytes) -> Bytes,
    gcmDecrypt: (Bytes, Bytes, Bytes, Bytes) -> Option<Bytes>)

  /** Tag lengths, in bytes, that a GCM decipher accepts in `setAuthTag`. */
  predicate AcceptedTagLength(n: nat) {
    n == 4 || n == 8 || 12 <= n <= 16
  }

  /** What the envelope relies on:
      - reading back the UTF-8 bytes of a string gives the string (Dafny
        strings hold Unicode scalar values only);
      - under a 32-byte key and a non-empty IV, decrypting what was
        encrypted, with a tag of an accepted length that begins the true tag,
        gives the plaintext bytes back (a tag shorter than 16 bytes is
        compared against the start of the full one, NIST SP 800-38D
        section 7.2);
      - decryption yields bytes only in that case: the ciphertext is their
        encryption under the key and IV (GCM encrypts in counter mode, so
        this holds byte for byte), and the tag, of an accepted length,
        begins the true tag of the ciphertext;
      - tags are 16 bytes. */
  ghost predicate Sound(p: Primitives) {
    && (forall s :: p.utf8Decode(p.utf8Encode(s)) == s)
    && (forall key, iv, m, tag {:trigger p.gcmDecrypt(key, iv, tag, p.gcmEncrypt(key, iv, m))} ::
          |key| == 32 && |iv| >= 1 &&
          AcceptedTagLength(|tag|) && tag <= p.gcmTag(key, iv, p.gcmEncrypt(key, iv, m)) ==>
            p.gcmDecrypt(key, iv, tag, p.gcmEncrypt(key, iv, m)) == Some(m))
    && (forall key, iv, tag, ct ::
          p.gcmDecrypt(key, iv, tag, ct).Some? ==>
            && p.gcmEncrypt(key, iv, p.gcmDecrypt(key, iv, tag, ct).value) == ct
            && AcceptedTagLength(|tag|)
            && tag <= p.gcmTag(key, iv, ct))
    && (forall key, iv, ct :: |p.gcmTag(key, iv, ct)| == TAG_LENGTH)
  }

  /** The primitives produce a 32-byte digest, an AES-256 key. */
  ghost predicate DigestSize(p: Primitives) {
    forall s :: |p.sha256(s)| == 32
  }

  // ---------------------------------------------------------------------------
  // Hexadecimal, as Node's Buffer writes and reads it
  // ---------------------------------------------------------------------------

  predicate IsLowerHex(c: char) {
    '0' <= c <= '9' || 'a' <= c <= 'f'
  }

  /** The value of a hexadecimal digit of either case. */
  function HexValue(c: char): (v: Option<nat>)
    ensures v.Some? <==> IsLowerHex(c) || 'A' <= c <= 'F'
    ensures v.Some? ==> v.value < 16
  {
    if '0' <= c <= '9' then Some(c as int - '0' as int)
    else if 'a' <= c <= 'f' then Some(c as int - 'a' as int + 10)
    else if 'A' <= c <= 'F' then Some(c as int - 'A' as int + 10)
    else None
  }

  /** The lower-case digit of a value below 16. */
  function HexDigit(v: nat): (c: char)
    requires v < 16
    ensures IsLowerHex(c) && HexValue(c) == Some(v)
  {
    if v < 10 then ('0' as int + v) as char else ('a' as int + v - 10) as char
  }

  lemma HexDigitOfValue(c: char)
    requires IsLowerHex(c)
    ensures HexDigit(HexValue(c).value) == c
  {
  }

  /** `buf.toString('hex')`: two lower-case digits per byte, high nibble first. */
  function HexEncode(b: Bytes): (s: string)
    ensures |s| == 2 * |b|
    ensures forall i :: 0 <= i < |s| ==> IsLowerHex(s[i])
    ensures Separator !in s
  {
    if b == [] then [] else [HexDigit(b[0] as int / 16), HexDigit(b[0] as int % 16)] + HexEncode(b[1..])
  }

  // A JavaScript string is a sequence of UTF-16 code units, and `s.length`
  // counts them; a Dafny string is a sequence of Unicode scalar values.

  /** The UTF-16 code units of one character: itself below U+10000,
      otherwise a surrogate pair. */
  function CodeUnits(c: char): (u: seq<nat>)
    ensures |u| == 1 <==> c as int < 0x1_0000
    ensures |u| == 1 ==> u[0] == c as int
    ensures |u| == 2 ==> 0xD800 <= u[0] < 0xDC00 <= u[1] < 0xE000
    ensures 1 <= |u| <= 2
  {
    var v := c as int;
    if v < 0x1_0000 then [v]
    else [0xD800 + (v - 0x1_0000) / 0x400, 0xDC00 + (v - 0x1_0000) % 0x400]
  }

  /** The code units of a string, the ones `s.length` counts. */
  function Units(s: string): (u: seq<nat>)
    ensures |s| <= |u| <= 2 * |s|
  {
    if s == [] then [] else CodeUnits(s[0]) + Units(s[1..])
  }

  lemma {:induction false} UnitsAppend(a: string, b: string)
    ensures Units(a + b) == Units(a) + Units(b)
  {
    if a != [] {
      assert (a + b)[0] == a[0] && (a + b)[1..] == a[1..] + b;
      UnitsAppend(a[1..], b);
    } else {
      assert a + b == b;
    }
  }

  /** Two leading characters contribute their own code units. */
  lemma UnitsCons2(x: char, y: char, rest: string)
    ensures Units([x, y] + rest) == CodeUnits(x) + (CodeUnits(y) + Units(rest))
  {
    assert ([x, y] + rest)[1..] == [y] + rest;
    assert ([y] + rest)[1..] == rest;
  }

  /** The value Node's hex decoder gives a code unit: the digit its low
      byte names, so U+0161 reads as 'a' and U+0130 as '0'. */
  function UnitValue(u: nat): (v: Option<nat>)
    ensures v.Some? ==> v.value < 16
    ensures u < 256 ==> v == HexValue(u as char)
  {
    HexValue((u % 256) as char)
  }

  /** Node's hex decoding over code units: pairs of units that both read
      as digits, up to the first pair that does not; an odd last unit is
      dropped. */
  function DecodeUnits(u: seq<nat>): (b: Bytes)
    ensures |b| <= |u| / 2
  {
    if |u| < 2 then []
    else match (UnitValue(u[0]), UnitValue(u[1]))
      case (Some(hi), Some(lo)) => [(hi * 16 + lo) as byte] + DecodeUnits(u[2..])
      case _ => []
  }

  /** `Buffer.from(s, 'hex')`, and the decoding `decipher.update(s, 'hex')` does. */
  function HexDecode(s: string): (b: Bytes)
    ensures |b| <= |Units(s)| / 2
  {
    DecodeUnits(Units(s))
  }

  lemma DecodeUnitsCons(x: nat, y: nat, r: seq<nat>)
    requires UnitValue(x).Some? && UnitValue(y).Some?
    ensures DecodeUnits([x, y] + r)
         == [(UnitValue(x).value * 16 + UnitValue(y).value) as byte] + DecodeUnits(r)
  {
    assert ([x, y] + r)[2..] == r;
  }

  /** A byte is its high nibble times 16 plus its low nibble, and back. */
  lemma Nibbles(hi: nat, lo: nat)
    requires hi < 16 && lo < 16
    ensures (hi * 16 + lo) / 16 == hi && (hi * 16 + lo) % 16 == lo && hi * 16 + lo < 256
  {
  }

  /** Reading back what was written gives the same bytes. */
  lemma {:induction false} HexDecodeEncode(b: Bytes)
    ensures HexDecode(HexEncode(b)) == b
  {
    if b != [] {
      var hi, lo := HexDigit(b[0] as int / 16), HexDigit(b[0] as int % 16);
      assert HexEncode(b) == [hi, lo] + HexEncode(b[1..]);
      UnitsCons2(hi, lo, HexEncode(b[1..]));
      assert Units(HexEncode(b)) == [hi as int, lo as int] + Units(HexEncode(b[1..]));
      DecodeUnitsCons(hi as int, lo as int, Units(HexEncode(b[1..])));
      Nibbles(b[0] as int / 16, b[0] as int % 16);
      HexDecodeEncode(b[1..]);
    }
  }

  lemma HexEncodeCons(c: byte, tail: Bytes)
    ensures HexEncode([c] + tail) == [HexDigit(c as int / 16), HexDigit(c as int % 16)] + HexEncode(tail)
  {
    assert ([c] + tail)[1..] == tail;
  }

  /** The first pair of lower-case digits decodes to the byte that encodes back to them. */
  lemma DecodeFirstPair(x: char, y: char, rest: string)
    requires IsLowerHex(x) && IsLowerHex(y)
    ensures var c := (HexValue(x).value * 16 + HexValue(y).value) as byte;
      HexDecode([x, y] + rest) == [c] + HexDecode(rest)
      && HexDigit(c as int / 16) == x && HexDigit(c as int % 16) == y
  {
    UnitsCons2(x, y, rest);
    assert Units([x, y] + rest) == [x as int, y as int] + Units(rest);
    assert UnitValue(x as int) == HexValue(x) && UnitValue(y as int) == HexValue(y);
    DecodeUnitsCons(x as int, y as int, Units(rest));
    HexDigitOfValue(x);
    HexDigitOfValue(y);
    Nibbles(HexValue(x).value, HexValue(y).value);
  }

  /** Conversely, an even run of lower-case digits is the encoding of what it decodes to. */
  lemma {:induction false} HexEncodeDecode(s: string)
    requires |s| % 2 == 0 && forall i :: 0 <= i < |s| ==> IsLowerHex(s[i])
    ensures HexEncode(HexDecode(s)) == s
  {
    if s != [] {
      HexEncodeDecode(s[2..]);
      assert s == [s[0], s[1]] + s[2..];
      DecodeFirstPair(s[0], s[1], s[2..]);
      var c := (HexValue(s[0]).value * 16 + HexValue(s[1]).value) as byte;
      var tail := HexDecode(s[2..]);
      assert HexDecode(s) == [c] + tail;
      HexEncodeCons(c, tail);
      assert HexEncode(HexDecode(s)) == [s[0], s[1]] + HexEncode(tail);
    }
  }

  /** The encoding of bytes is one code unit per digit, each read as a digit. */
  lemma {:induction false} EncodedUnits(b: Bytes)
    ensures |Units(HexEncode(b))| == 2 * |b|
    ensures forall i :: 0 <= i < 2 * |b| ==> UnitValue(Units(HexEncode(b))[i]).Some?
  {
    if b != [] {
      var hi, lo := HexDigit(b[0] as int / 16), HexDigit(b[0] as int % 16);
      assert HexEncode(b) == [hi, lo] + HexEncode(b[1..]);
      UnitsCons2(hi, lo, HexEncode(b[1..]));
      EncodedUnits(b[1..]);
    }
  }

  lemma Even(n: nat)
    ensures (2 * n) % 2 == 0 && (2 * n + 2) % 2 == 0
  {
  }

  /** Encoding works byte by byte, so it distributes over concatenation. */
  lemma {:induction false} HexEncodeAppend(a: Bytes, b: Bytes)
    ensures HexEncode(a + b) == HexEncode(a) + HexEncode(b)
  {
    if a != [] {
      assert (a + b)[0] == a[0] && (a + b)[1..] == a[1..] + b;
      HexEncodeAppend(a[1..], b);
    } else {
      assert a + b == b;
    }
  }

  lemma {:induction false} DecodeUnitsStops(u: seq<nat>, r: seq<nat>)
    requires |u| % 2 == 0 && forall i :: 0 <= i < |u| ==> UnitValue(u[i]).Some?
    requires |r| == 1 || (|r| >= 2 && (UnitValue(r[0]) == None || UnitValue(r[1]) == None))
    ensures DecodeUnits(u + r) == DecodeUnits(u)
  {
    if u == [] {
      assert u + r == r;
    } else {
      assert (u + r)[0] == u[0] && (u + r)[1] == u[1];
      assert (u + r)[2..] == u[2..] + r;
      DecodeUnitsStops(u[2..], r);
    }
  }

  /** Decoding is lenient: after an even run of code units that read as
      digits it stops silently at a pair holding a unit that does not,
      and a single unit left over at the end is ignored. */
  lemma HexDecodeStops(s: string, rest: string)
    requires |Units(s)| % 2 == 0 && forall i :: 0 <= i < |Units(s)| ==> UnitValue(Units(s)[i]).Some?
    requires var r := Units(rest);
      |r| == 1 || (|r| >= 2 && (UnitValue(r[0]) == None || UnitValue(r[1]) == None))
    ensures HexDecode(s + rest) == HexDecode(s)
  {
    UnitsAppend(s, rest);
    DecodeUnitsStops(Units(s), Units(rest));
  }

  lemma {:induction false} DecodeUnitsDropsLast(u: seq<nat>, x: nat)
    requires |u| % 2 == 0
    ensures DecodeUnits(u + [x]) == DecodeUnits(u)
  {
    if |u| >= 2 {
      assert (u + [x])[2..] == u[2..] + [x];
      DecodeUnitsDropsLast(u[2..], x);
    }
  }

  /** Decoding is lenient: an odd trailing code unit is ignored, whatever it is. */
  lemma HexDecodeDropsOddDigit(s: string, c: char)
    requires |Units(s)| % 2 == 0 && c as int < 0x1_0000
    ensures HexDecode(s + [c]) == HexDecode(s)
  {
    UnitsAppend(s, [c]);
    assert Units([c]) == [c as int];
    DecodeUnitsDropsLast(Units(s), c as int);
  }

  /** Characters beyond Latin-1 read as the digit their low byte names. */
  lemma HexDecodeReadsLowBytes()
    ensures HexDecode("šš") == [0xaa]
    ensures HexDecode("İİ") == [0x00]
  {
    assert Units("šš") == [0x161, 0x161];
    assert Units("İİ") == [0x130, 0x130];
  }

  // ---------------------------------------------------------------------------
  // Fields, as `String.prototype.split(':')` and a template literal see them
  // ---------------------------------------------------------------------------

  /** `s.split(':')`: the pieces between separators, at least one, none holding a separator. */
  function Split(s: string): (fields: seq<string>)
    ensures |fields| >= 1
    ensures forall i :: 0 <= i < |fields| ==> Separator !in fields[i]
  {
    if s == [] then [[]]
    else
      var tail := Split(s[1..]);
      if s[0] == Separator then [[]] + tail
      else [[s[0]] + tail[0]] + tail[1..]
  }

  /** The fields written one after another with a separator between each
      two: it begins with the first field, followed by a separator when
      more fields follow. */
  function Join(fields: seq<string>): (s: string)
    requires |fields| >= 1
    ensures fields[0] <= s
    ensures |fields| > 1 ==> |s| > |fields[0]| && s[|fields[0]|] == Separator
  {
    if |fields| == 1 then fields[0] else fields[0] + ([Separator] + Join(fields[1..]))
  }

  /** There is one field more than there are separators. */
  lemma {:induction false} SplitCount(s: string)
    ensures |Split(s)| == multiset(s)[Separator] + 1
  {
    if s != [] {
      SplitCount(s[1..]);
      assert s == [s[0]] + s[1..];
    }
  }

  /** Joining what was split gives back the string. */
  lemma {:induction false} JoinSplit(s: string)
    ensures Join(Split(s)) == s
  {
    if s != [] {
      var tail := Split(s[1..]);
      JoinSplit(s[1..]);
      if s[0] != Separator && |tail| > 1 {
        assert Join(tail) == tail[0] + [Separator] + Join(tail[1..]);
      }
    }
  }

  /** A character other than a separator begins the first field. */
  lemma SplitCons(c: char, s: string)
    requires c != Separator
    ensures Split([c] + s) == [[c] + Split(s)[0]] + Split(s)[1..]
  {
    assert ([c] + s)[1..] == s;
  }

  lemma ConsAppend(c: char, u: string, v: string)
    ensures [c] + (u + v) == ([c] + u) + v
  {
  }

  /** A prefix without separators extends the first field. */
  lemma {:induction false} SplitPrefix(a: string, rest: string)
    requires Separator !in a
    ensures Split(a + rest) == [a + Split(rest)[0]] + Split(rest)[1..]
  {
    if a != [] {
      SplitPrefix(a[1..], rest);
      assert a == [a[0]] + a[1..];
      ConsAppend(a[0], a[1..], rest);
      ConsAppend(a[0], a[1..], Split(rest)[0]);
      SplitCons(a[0], a[1..] + rest);
    } else {
      assert a + rest == rest;
      assert [] + Split(rest)[0] == Split(rest)[0];
      assert [Split(rest)[0]] + Split(rest)[1..] == Split(rest);
    }
  }

  /** Three fields joined, written out. */
  lemma JoinThree(a: string, b: string, c: string)
    ensures Join([a, b, c]) == a + ([Separator] + (b + ([Separator] + c)))
  {
    assert [a, b, c][1..] == [b, c] && [b, c][1..] == [c];
    assert Join([b, c]) == b + ([Separator] + c);
  }

  /** A leading separator ends an empty first field. */
  lemma SplitSeparator(rest: string)
    ensures Split([Separator] + rest) == [[]] + Split(rest)
  {
    assert ([Separator] + rest)[1..] == rest;
  }

  /** Splitting what was joined gives back fields that hold no separator. */
  lemma {:induction false} SplitJoin(fields: seq<string>)
    requires |fields| >= 1 && forall i :: 0 <= i < |fields| ==> Separator !in fields[i]
    ensures Split(Join(fields)) == fields
  {
    if |fields| == 1 {
      SplitPrefix(fields[0], []);
      assert Split([]) == [[]];
      assert fields[0] + [] == fields[0];
      assert [fields[0]] == fields;
    } else {
      var rest := Join(fields[1..]);
      SplitJoin(fields[1..]);
      SplitPrefix(fields[0], [Separator] + rest);
      SplitSeparator(rest);
      assert Join(fields) == fields[0] + ([Separator] + rest);
      assert fields[0] + [] == fields[0];
      assert [fields[0]] + fields[1..] == fields;
    }
  }


  // ---------------------------------------------------------------------------
  // deriveKey, encrypt, decrypt
  // ---------------------------------------------------------------------------

  /** deriveKey: the SHA-256 digest of the master password, nothing else. */
  function DeriveKey(p: Primitives, password: string): (key: Bytes)
    ensures DigestSize(p) ==> |key| == 32
  {
    p.sha256(password)
  }

  /** The template literal `${iv}:${tag}:${ct}` over the hex of each part: it
      begins with the IV's digits and a separator, and holds two digits per
      byte and two separators. */
  function Envelope(iv: Bytes, tag: Bytes, ct: Bytes): (env: string)
    ensures |env| == 2 * |iv| + 2 * |tag| + 2 * |ct| + 2
    ensures env[..2 * |iv|] == HexEncode(iv) && env[2 * |iv|] == Separator
  {
    JoinThree(HexEncode(iv), HexEncode(tag), HexEncode(ct));
    Join([HexEncode(iv), HexEncode(tag), HexEncode(ct)])
  }

  /** An envelope parses back: it splits into exactly three fields, which
      decode to the IV, the tag and the ciphertext it was written from. */
  lemma EnvelopeParse(iv: Bytes, tag: Bytes, ct: Bytes)
    ensures var fields := Split(Envelope(iv, tag, ct));
      && fields == [HexEncode(iv), HexEncode(tag), HexEncode(ct)]
      && HexDecode(fields[0]) == iv && HexDecode(fields[1]) == tag && HexDecode(fields[2]) == ct
  {
    SplitJoin([HexEncode(iv), HexEncode(tag), HexEncode(ct)]);
    HexDecodeEncode(iv);
    HexDecodeEncode(tag);
    HexDecodeEncode(ct);
  }

  /** Every character is a lower-case digit or a separator. */
  predicate HexOrSeparators(s: string) {
    forall i :: 0 <= i < |s| ==> IsLowerHex(s[i]) || s[i] == Separator
  }

  lemma AppendHexOrSeparators(x: string, y: string)
    requires HexOrSeparators(x) && HexOrSeparators(y)
    ensures HexOrSeparators(x + y)
  {
    forall i | 0 <= i < |x + y|
      ensures IsLowerHex((x + y)[i]) || (x + y)[i] == Separator
    {
      if i >= |x| {
        assert (x + y)[i] == y[i - |x|];
      }
    }
  }

  /** An envelope holds nothing but lower-case digits and exactly two separators. */
  lemma EnvelopeAlphabet(iv: Bytes, tag: Bytes, ct: Bytes)
    ensures var env := Envelope(iv, tag, ct);
      multiset(env)[Separator] == 2 && HexOrSeparators(env)
  {
    var a, b, c := HexEncode(iv), HexEncode(tag), HexEncode(ct);
    JoinThree(a, b, c);
    AppendHexOrSeparators([Separator], c);
    AppendHexOrSeparators(b, [Separator] + c);
    AppendHexOrSeparators([Separator], b + ([Separator] + c));
    AppendHexOrSeparators(a, [Separator] + (b + ([Separator] + c)));
  }

  /** The ciphertext encrypt computes: the text's UTF-8 bytes under the
      derived key. With its full tag it deciphers to those bytes. */
  function Ciphertext(p: Primitives, text: string, password: string, iv: Iv): (ct: Bytes)
    ensures Sound(p) && DigestSize(p) ==>
      var key := DeriveKey(p, password);
      p.gcmDecrypt(key, iv, p.gcmTag(key, iv, ct), ct) == Some(p.utf8Encode(text))
  {
    p.gcmEncrypt(DeriveKey(p, password), iv, p.utf8Encode(text))
  }

  /** The tag encrypt computes for that ciphertext, `cipher.getAuthTag()`:
      16 bytes. */
  function TagOf(p: Primitives, text: string, password: string, iv: Iv): (tag: Bytes)
    ensures Sound(p) ==> |tag| == TAG_LENGTH
  {
    p.gcmTag(DeriveKey(p, password), iv, Ciphertext(p, text, password, iv))
  }

  /** encrypt, with the IV that `crypto.randomBytes(IV_LENGTH)` drew for the
      call given as `iv`: three fields of lower-case hexadecimal joined by
      two separators, the first the IV's own 32 digits. */
  function Encrypt(p: Primitives, text: string, password: string, iv: Iv): (env: string)
    ensures |env| > 2 * IV_LENGTH && env[..2 * IV_LENGTH] == HexEncode(iv) && env[2 * IV_LENGTH] == Separator
    ensures multiset(env)[Separator] == 2
    ensures HexOrSeparators(env)
  {
    var ct := Ciphertext(p, text, password, iv);
    var tag := TagOf(p, text, password, iv);
    EnvelopeAlphabet(iv, tag, ct);
    Envelope(iv, tag, ct)
  }

  /** Why decrypt throws: a field it needs is missing, or the decipher
      refuses the key, the IV, the tag or the ciphertext. */
  datatype DecryptError = MissingField | Rejected

  /** decrypt: the first three fields are read as IV, tag and ciphertext,
      any further ones are ignored, and the decipher runs under the key
      derived from the password. */
  function Decrypt(p: Primitives, data: string, password: string): (r: Result<string, DecryptError>)
    ensures r == Failure(MissingField) <==> multiset(data)[Separator] < 2
  {
    SplitCount(data);
    var fields := Split(data);
    if |fields| < 3 then Failure(MissingField) else Open(p, fields[0], fields[1], fields[2], password)
  }

  /** The three fields handed to the decipher under the derived key. The IV
      and the tag go through `Buffer.from(…, 'hex')`, which is lenient; the
      ciphertext goes to `decipher.update(…, 'hex', 'utf8')` as a string,
      which throws on an odd number of code units. The plaintext bytes come back
      as UTF-8 text. */
  function Open(p: Primitives, ivHex: string, tagHex: string, ctHex: string, password: string)
    : (r: Result<string, DecryptError>)
    ensures r.Failure? ==> r.error == Rejected
    ensures r.Success? ==> |Units(ctHex)| % 2 == 0
  {
    if |Units(ctHex)| % 2 == 1 then Failure(Rejected)
    else
      match p.gcmDecrypt(DeriveKey(p, password), HexDecode(ivHex), HexDecode(tagHex), HexDecode(ctHex))
      case Some(m) => Success(p.utf8Decode(m))
      case None => Failure(Rejected)
  }

  // ---------------------------------------------------------------------------
  // Properties of the envelope
  // ---------------------------------------------------------------------------

  /** Of fields without separators, the first three reach the decipher as they are. */
  lemma DecryptFields(p: Primitives, fields: seq<string>, password: string)
    requires |fields| >= 3 && forall i :: 0 <= i < |fields| ==> Separator !in fields[i]
    ensures Decrypt(p, Join(fields), password) == Open(p, fields[0], fields[1], fields[2], password)
  {
    SplitJoin(fields);
  }

  lemma DecryptThreeFields(p: Primitives, a: string, b: string, c: string, password: string)
    requires Separator !in a && Separator !in b && Separator !in c
    ensures Decrypt(p, Join([a, b, c]), password) == Open(p, a, b, c, password)
  {
    SplitJoin([a, b, c]);
  }

  lemma DecryptStrictThreeFields(p: Primitives, a: string, b: string, c: string, password: string)
    requires Separator !in a && Separator !in b && Separator !in c
    ensures DecryptStrict(p, Join([a, b, c]), password)
      == if |HexDecode(b)| != TAG_LENGTH then Failure(Rejected) else Open(p, a, b, c, password)
  {
    SplitJoin([a, b, c]);
  }

  /** encrypt's output splits into the hex of the IV, of the tag and of the
      ciphertext that were computed for it, which decode back to them. */
  lemma EncryptFields(p: Primitives, text: string, password: string, iv: Iv)
    ensures var ct := Ciphertext(p, text, password, iv);
      var tag := TagOf(p, text, password, iv);
      var fields := Split(Encrypt(p, text, password, iv));
      && fields == [HexEncode(iv), HexEncode(tag), HexEncode(ct)]
      && HexDecode(fields[0]) == iv && HexDecode(fields[1]) == tag && HexDecode(fields[2]) == ct
  {
    EnvelopeParse(iv, TagOf(p, text, password, iv), Ciphertext(p, text, password, iv));
  }

  /** The decipher gives back the text from the fields encrypt wrote for it. */
  lemma OpenEncrypt(p: Primitives, text: string, password: string, iv: Iv)
    requires Sound(p) && DigestSize(p)
    ensures Open(p, HexEncode(iv), HexEncode(TagOf(p, text, password, iv)),
      HexEncode(Ciphertext(p, text, password, iv)), password) == Success(text)
  {
    var key := DeriveKey(p, password);
    var m := p.utf8Encode(text);
    var ct := Ciphertext(p, text, password, iv);
    var tag := TagOf(p, text, password, iv);
    HexDecodeEncode(iv);
    HexDecodeEncode(tag);
    HexDecodeEncode(ct);
    EncodedUnits(ct);
    Even(|ct|);
    assert p.gcmDecrypt(key, iv, tag, p.gcmEncrypt(key, iv, m)) == Some(m);
  }

  /** Round trip: what encrypt produced decrypts, under the same password, to the text. */
  lemma DecryptEncrypt(p: Primitives, text: string, password: string, iv: Iv)
    requires Sound(p) && DigestSize(p)
    ensures Decrypt(p, Encrypt(p, text, password, iv), password) == Success(text)
  {
    EncryptFields(p, text, password, iv);
    OpenEncrypt(p, text, password, iv);
  }

  /** A ciphertext field with an odd number of code units is refused,
      whatever the other two fields hold. */
  lemma OddCiphertextRejected(p: Primitives, ivHex: string, tagHex: string, ctHex: string, password: string)
    requires Separator !in ivHex && Separator !in tagHex && Separator !in ctHex
    requires |Units(ctHex)| % 2 == 1
    ensures Decrypt(p, Join([ivHex, tagHex, ctHex]), password) == Failure(Rejected)
  {
    DecryptThreeFields(p, ivHex, tagHex, ctHex, password);
  }

  /** A character beyond U+10000 appended to an envelope adds two code
      units to the ciphertext field, so the count stays even; when either
      unit does not read as a digit, decoding stops before them and the
      envelope still decrypts to the text. U+1F600 is such a character: its
      first unit, 0xD83D, reads as '='. */
  lemma AppendedAstralCharIgnored(p: Primitives, text: string, password: string, iv: Iv, c: char)
    requires Sound(p) && DigestSize(p)
    requires c as int >= 0x1_0000
    requires UnitValue(CodeUnits(c)[0]) == None || UnitValue(CodeUnits(c)[1]) == None
    ensures Decrypt(p, Encrypt(p, text, password, iv) + [c], password) == Success(text)
  {
    var ct := Ciphertext(p, text, password, iv);
    AstralTailIgnored(ct, c);
    Even(|ct|);
    HexDecodeEncode(ct);
    DecryptExtendedCiphertext(p, text, password, iv, [c]);
  }

  /** Text appended to an envelope lands in its ciphertext field; when the
      field keeps an even number of code units and still decodes to the
      ciphertext, the envelope decrypts to the text. */
  lemma DecryptExtendedCiphertext(p: Primitives, text: string, password: string, iv: Iv, tail: string)
    requires Sound(p) && DigestSize(p)
    requires Separator !in tail
    requires var d := HexEncode(Ciphertext(p, text, password, iv));
      |Units(d + tail)| % 2 == 0 && HexDecode(d + tail) == Ciphertext(p, text, password, iv)
    ensures Decrypt(p, Encrypt(p, text, password, iv) + tail, password) == Success(text)
  {
    var a, b := HexEncode(iv), HexEncode(TagOf(p, text, password, iv));
    var d := HexEncode(Ciphertext(p, text, password, iv));
    assert Encrypt(p, text, password, iv) == Join([a, b, d]);
    JoinThreeAppend(a, b, d, tail);
    assert Separator !in d + tail;
    DecryptThreeFields(p, a, b, d + tail, password);
    OpenDecodedCiphertext(p, text, password, iv, d + tail);
  }

  /** Any ciphertext field with an even number of code units that decodes
      to encrypt's ciphertext deciphers, next to encrypt's IV and tag
      fields, to the text. */
  lemma OpenDecodedCiphertext(p: Primitives, text: string, password: string, iv: Iv, ctHex: string)
    requires Sound(p) && DigestSize(p)
    requires |Units(ctHex)| % 2 == 0 && HexDecode(ctHex) == Ciphertext(p, text, password, iv)
    ensures Open(p, HexEncode(iv), HexEncode(TagOf(p, text, password, iv)), ctHex, password) == Success(text)
  {
    var tag := TagOf(p, text, password, iv);
    HexDecodeEncode(iv);
    HexDecodeEncode(tag);
    assert p.gcmDecrypt(DeriveKey(p, password), iv, tag, HexDecode(ctHex)) == Some(p.utf8Encode(text));
  }

  lemma JoinThreeAppend(a: string, b: string, d: string, tail: string)
    ensures Join([a, b, d]) + tail == Join([a, b, d + tail])
  {
    JoinThree(a, b, d);
    JoinThree(a, b, d + tail);
  }

  /** After the digits of some bytes, a character beyond U+10000 one of
      whose code units does not read as a digit adds two code units and
      nothing to what decodes. */
  lemma AstralTailIgnored(b: Bytes, c: char)
    requires c as int >= 0x1_0000
    requires UnitValue(CodeUnits(c)[0]) == None || UnitValue(CodeUnits(c)[1]) == None
    ensures var d := HexEncode(b);
      |Units(d + [c])| == 2 * |b| + 2 && HexDecode(d + [c]) == HexDecode(d)
  {
    var d := HexEncode(b);
    EncodedUnits(b);
    UnitsAppend(d, [c]);
    assert Units([c]) == CodeUnits(c);
    Even(|b|);
    HexDecodeStops(d, [c]);
  }

  /** The one character U+1F600 appended to an envelope leaves it decrypting
      to the same text. */
  lemma AppendedEmojiIgnored(p: Primitives, text: string, password: string, iv: Iv)
    requires Sound(p) && DigestSize(p)
    ensures Decrypt(p, Encrypt(p, text, password, iv) + ['\U{1F600}'], password) == Success(text)
  {
    assert CodeUnits('\U{1F600}')[0] == 0xD83D;
    AppendedAstralCharIgnored(p, text, password, iv, '\U{1F600}');
  }

  /** The decipher yields a text only when the fields authenticate it under
      the key derived from the password: the ciphertext field has an even
      number of code units and decodes to the encryption, under the IV field, of
      bytes whose UTF-8 reading is the text, and the tag field, of an
      accepted length, begins the true tag. */
  lemma OpenAuthentic(p: Primitives, ivHex: string, tagHex: string, ctHex: string, password: string)
    requires Sound(p)
    ensures var r := Open(p, ivHex, tagHex, ctHex, password);
      var key := DeriveKey(p, password);
      var iv, tag, ct := HexDecode(ivHex), HexDecode(tagHex), HexDecode(ctHex);
      r.Success? ==>
        && |Units(ctHex)| % 2 == 0
        && AcceptedTagLength(|tag|)
        && tag <= p.gcmTag(key, iv, ct)
        && exists m :: p.gcmEncrypt(key, iv, m) == ct && p.utf8Decode(m) == r.value
  {
    var key := DeriveKey(p, password);
    var iv, tag, ct := HexDecode(ivHex), HexDecode(tagHex), HexDecode(ctHex);
    var d := p.gcmDecrypt(key, iv, tag, ct);
    if |Units(ctHex)| % 2 == 0 && d.Some? {
      assert p.gcmEncrypt(key, iv, d.value) == ct;
    }
  }

  /** Decrypt yields a text only when its first three fields authenticate it
      as `OpenAuthentic` says. */
  lemma DecryptAuthentic(p: Primitives, data: string, password: string)
    requires Sound(p)
    ensures var r := Decrypt(p, data, password);
      r.Success? ==>
        var fields := Split(data);
        var key := DeriveKey(p, password);
        var iv, tag, ct := HexDecode(fields[0]), HexDecode(fields[1]), HexDecode(fields[2]);
        && |fields| >= 3
        && |Units(fields[2])| % 2 == 0
        && AcceptedTagLength(|tag|)
        && tag <= p.gcmTag(key, iv, ct)
        && exists m :: p.gcmEncrypt(key, iv, m) == ct && p.utf8Decode(m) == r.value
  {
    var fields := Split(data);
    if |fields| >= 3 {
      OpenAuthentic(p, fields[0], fields[1], fields[2], password);
    }
  }

  /** The decipher refuses a full-length tag other than the true tag of the
      ciphertext field under the key and the IV field. */
  lemma OpenRejectsOtherTag(p: Primitives, ivHex: string, tagHex: string, ctHex: string, password: string)
    requires Sound(p)
    requires |HexDecode(tagHex)| == TAG_LENGTH
    requires HexDecode(tagHex) != p.gcmTag(DeriveKey(p, password), HexDecode(ivHex), HexDecode(ctHex))
    ensures Open(p, ivHex, tagHex, ctHex, password) == Failure(Rejected)
  {
    var key := DeriveKey(p, password);
    if p.gcmDecrypt(key, HexDecode(ivHex), HexDecode(tagHex), HexDecode(ctHex)).Some? {
      assert false;
    }
  }

  /** A full-length tag other than the true one is refused. */
  lemma AlteredTagRejected(p: Primitives, text: string, password: string, iv: Iv, forged: Bytes)
    requires Sound(p)
    requires |forged| == TAG_LENGTH && forged != TagOf(p, text, password, iv)
    ensures Decrypt(p, Envelope(iv, forged, Ciphertext(p, text, password, iv)), password) == Failure(Rejected)
  {
    var ct := Ciphertext(p, text, password, iv);
    DecryptThreeFields(p, HexEncode(iv), HexEncode(forged), HexEncode(ct), password);
    HexDecodeEncode(iv);
    HexDecodeEncode(forged);
    HexDecodeEncode(ct);
    OpenRejectsOtherTag(p, HexEncode(iv), HexEncode(forged), HexEncode(ct), password);
  }

  /** Another password opens an envelope only if its key seals some bytes
      whose UTF-8 reading is the text it yields to the very same ciphertext,
      under the very same full tag. */
  lemma WrongPassword(p: Primitives, text: string, password: string, other: string, iv: Iv)
    requires Sound(p)
    ensures var r := Decrypt(p, Encrypt(p, text, password, iv), other);
      var ct := Ciphertext(p, text, password, iv);
      var key := DeriveKey(p, other);
      r.Success? ==>
        && p.gcmTag(key, iv, ct) == TagOf(p, text, password, iv)
        && exists m :: p.gcmEncrypt(key, iv, m) == ct && p.utf8Decode(m) == r.value
  {
    EncryptFields(p, text, password, iv);
    DecryptAuthentic(p, Encrypt(p, text, password, iv), other);
  }

  /** Fields after the third do not change the outcome. */
  lemma DecryptIgnoresExtraFields(p: Primitives, fields: seq<string>, password: string)
    requires |fields| >= 3 && forall i :: 0 <= i < |fields| ==> Separator !in fields[i]
    ensures Decrypt(p, Join(fields), password) == Decrypt(p, Join(fields[..3]), password)
  {
    var short := fields[..3];
    assert short[0] == fields[0] && short[1] == fields[1] && short[2] == fields[2];
    DecryptFields(p, fields, password);
    DecryptFields(p, short, password);
  }

  // ---------------------------------------------------------------------------
  // Tag length: the decipher is not told to expect 16 bytes
  // ---------------------------------------------------------------------------

  /** The first 24 digits of a 16-byte tag's field are the field of its first 12 bytes. */
  lemma TagFieldPrefix(tag: Bytes)
    requires |tag| == TAG_LENGTH
    ensures HexEncode(tag)[..24] == HexEncode(tag[..12])
  {
    assert tag == tag[..12] + tag[12..];
    HexEncodeAppend(tag[..12], tag[12..]);
  }

  /** A tag field whose 25th digit is replaced by a character whose first
      code unit does not read as a digit decodes to the first 12 bytes of
      the tag. */
  lemma CorruptedTagField(tag: Bytes, junk: char)
    requires |tag| == TAG_LENGTH && UnitValue(CodeUnits(junk)[0]) == None && junk != Separator
    ensures var tagHex := HexEncode(tag);
      var forged := tagHex[..24] + [junk] + tagHex[25..];
      forged != tagHex && Separator !in forged && HexDecode(forged) == tag[..12]
  {
    var tagHex := HexEncode(tag);
    var digits := HexEncode(tag[..12]);
    var rest := [junk] + tagHex[25..];
    var forged := tagHex[..24] + [junk] + tagHex[25..];
    TagFieldPrefix(tag);
    assert forged == digits + rest;
    assert junk as int < 256 ==> CodeUnits(junk)[0] == junk as int;
    assert forged[24] == junk && !IsLowerHex(junk);
    EncodedUnits(tag[..12]);
    assert rest[1..] == tagHex[25..];
    assert Units(rest) == CodeUnits(junk) + Units(tagHex[25..]);
    HexDecodeStops(digits, rest);
    HexDecodeEncode(tag[..12]);
  }

  /** As written, the tag is whatever the tag field decodes to, and the
      decipher accepts a shortened tag. Replacing the 25th digit of encrypt's
      tag field by any character other than the separator whose first code
      unit does not read as a digit cuts the decoded tag to its first 12
      bytes, and the envelope still decrypts. */
  lemma CorruptedTagFieldAccepted(p: Primitives, text: string, password: string, iv: Iv, junk: char)
    requires Sound(p) && DigestSize(p)
    requires UnitValue(CodeUnits(junk)[0]) == None && junk != Separator
    ensures var tagHex := HexEncode(TagOf(p, text, password, iv));
      var forged := tagHex[..24] + [junk] + tagHex[25..];
      && forged != tagHex
      && Decrypt(p, Join([HexEncode(iv), forged, HexEncode(Ciphertext(p, text, password, iv))]), password)
        == Success(text)
  {
    var ct := Ciphertext(p, text, password, iv);
    var tag := TagOf(p, text, password, iv);
    var tagHex := HexEncode(tag);
    var forged := tagHex[..24] + [junk] + tagHex[25..];
    CorruptedTagField(tag, junk);
    DecryptThreeFields(p, HexEncode(iv), forged, HexEncode(ct), password);
    HexDecodeEncode(iv);
    HexDecodeEncode(ct);
    EncodedUnits(ct);
    Even(|ct|);
    assert AcceptedTagLength(|tag[..12]|) && tag[..12] <= tag;
  }

  /** decrypt with the decipher created as
      `createDecipheriv(ALGO, key, iv, { authTagLength: 16 })`, which
      refuses a tag of any other length than 16 bytes. */
  function DecryptStrict(p: Primitives, data: string, password: string): (r: Result<string, DecryptError>)
    ensures r == Failure(MissingField) <==> multiset(data)[Separator] < 2
  {
    SplitCount(data);
    var fields := Split(data);
    if |fields| < 3 then Failure(MissingField)
    else if |HexDecode(fields[1])| != TAG_LENGTH then Failure(Rejected)
    else Open(p, fields[0], fields[1], fields[2], password)
  }

  /** With the tag length fixed, the round trip still holds. */
  lemma DecryptStrictEncrypt(p: Primitives, text: string, password: string, iv: Iv)
    requires Sound(p) && DigestSize(p)
    ensures DecryptStrict(p, Encrypt(p, text, password, iv), password) == Success(text)
  {
    EncryptFields(p, text, password, iv);
    OpenEncrypt(p, text, password, iv);
  }

  /** With the tag length fixed, a text comes back only when the tag field
      decodes to the full true tag of the ciphertext field under the key
      derived from the password and the IV field, and the ciphertext field
      is the encryption of bytes whose UTF-8 reading is the text. */
  lemma DecryptStrictAuthentic(p: Primitives, data: string, password: string)
    requires Sound(p)
    ensures var r := DecryptStrict(p, data, password);
      r.Success? ==>
        var fields := Split(data);
        var key := DeriveKey(p, password);
        var iv, tag, ct := HexDecode(fields[0]), HexDecode(fields[1]), HexDecode(fields[2]);
        && |fields| >= 3
        && |Units(fields[2])| % 2 == 0
        && tag == p.gcmTag(key, iv, ct)
        && exists m :: p.gcmEncrypt(key, iv, m) == ct && p.utf8Decode(m) == r.value
  {
    var r := DecryptStrict(p, data, password);
    if r.Success? {
      var fields := Split(data);
      var key := DeriveKey(p, password);
      var iv, tag, ct := HexDecode(fields[0]), HexDecode(fields[1]), HexDecode(fields[2]);
      var m := p.gcmDecrypt(key, iv, tag, ct).value;
      assert p.gcmEncrypt(key, iv, m) == ct && p.utf8Decode(m) == r.value;
    }
  }

  /** With the tag length fixed, an envelope of encrypt's IV and ciphertext
      whose tag field does not decode to the true tag is refused; this covers
      the corrupted tag field that the source accepts. */
  lemma DecryptStrictRejectsOtherTags(p: Primitives, text: string, password: string, iv: Iv, tagField: string)
    requires Sound(p)
    requires Separator !in tagField
    requires HexDecode(tagField) != TagOf(p, text, password, iv)
    ensures DecryptStrict(p, Join([HexEncode(iv), tagField, HexEncode(Ciphertext(p, text, password, iv))]), password)
      == Failure(Rejected)
  {
    var ct := Ciphertext(p, text, password, iv);
    DecryptStrictThreeFields(p, HexEncode(iv), tagField, HexEncode(ct), password);
    HexDecodeEncode(iv);
    HexDecodeEncode(ct);
    if |HexDecode(tagField)| == TAG_LENGTH {
      OpenRejectsOtherTag(p, HexEncode(iv), tagField, HexEncode(ct), password);
    }
  }

  // ---------------------------------------------------------------------------
  // The assumptions can be met
  // ---------------------------------------------------------------------------

  /** Three bytes per character, big-endian code point. */
  function Encode3(t: string): (b: Bytes)
    ensures |b| == 3 * |t|
  {
    if t == [] then []
    else
      var v := t[0] as int;
      [(v / 65536) as byte, (v / 256 % 256) as byte, (v % 256) as byte] + Encode3(t[1..])
  }

  lemma CodePointBytes(v: nat)
    requires v < 0x11_0000
    ensures v / 65536 < 256 && v / 65536 * 65536 + v / 256 % 256 * 256 + v % 256 == v
  {
    assert v / 256 == v / 65536 * 256 + v / 256 % 256;
  }

  function Decode3(b: Bytes): (t: Option<string>)
  {
    if b == [] then Some([])
    else if |b| < 3 then None
    else
      var v := b[0] as int * 65536 + b[1] as int * 256 + b[2] as int;
      if (v < 0xD800 || 0xE000 <= v < 0x11_0000) then
        match Decode3(b[3..])
        case Some(rest) => Some([v as char] + rest)
        case None => None
      else None
  }

  /** Bytes that are not an encoding read as the empty text. */
  function Decode3Lossy(b: Bytes): string {
    match Decode3(b)
    case Some(t) => t
    case None => []
  }

  lemma {:induction false} Decode3Encode3(t: string)
    ensures Decode3(Encode3(t)) == Some(t)
  {
    if t != [] {
      var b := Encode3(t);
      assert b[3..] == Encode3(t[1..]);
      CodePointBytes(t[0] as int);
      Decode3Encode3(t[1..]);
      assert [t[0]] + t[1..] == t;
    }
  }

  /** A stand-in: a 32-byte digest, the plaintext as its own ciphertext and a
      constant 16-byte tag. */
  function Toy(): Primitives {
    Primitives(
      s => seq(32, _ => 0),
      Encode3,
      Decode3Lossy,
      (key, iv, m) => m,
      (key, iv, ct) => seq(TAG_LENGTH, _ => 0),
      (key, iv, tag, ct) =>
        if AcceptedTagLength(|tag|) && tag <= seq(TAG_LENGTH, _ => 0) then Some(ct) else None)
  }

  /** `Sound` is not vacuous: some primitives satisfy it. */
  lemma ToyIsSound()
    ensures Sound(Toy()) && DigestSize(Toy())
  {
    var p := Toy();
    forall s
      ensures p.utf8Decode(p.utf8Encode(s)) == s
    {
      Decode3Encode3(s);
    }
  }
}
