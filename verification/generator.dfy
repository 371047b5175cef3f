/** The secure password generator: the character pool built from four
    character classes, rejection sampling over a stream of random bytes, and
    the assembled password with one guaranteed character per enabled class. */
module Generator {
  import opened Common

  const LOWER: string := "abcdefghijklmnopqrstuvwxyz"
  const UPPER: string := "ABCDEFGHIJKLMNOPQRSTUVWXYZ"
  const DIGITS: string := "0123456789"
  const SYMBOLS: string := "!@#$%^&*()-_=+[]{};:,.<>?/\\|~"

  /** Characters that are easy to confuse when read or typed. */
  const AMBIGUOUS: set<char> :=
    {'O', '0', 'o', 'I', 'l', '1', '|', '`', '\'', '"', ';', '{', '}', '(', ')', '[', ']'}

  const MinLength: int := 4
  const MaxLength: int := 256

  /** `crypto.randomBytes(32)`: the sampler asks for random bytes in batches of this size. */
  const BatchSize: nat := 32

  type Batch = b: Bytes | |b| == BatchSize witness seq(BatchSize, _ => 0)

  /** The generator's options, every field given: the destructuring
      defaults (16, true, true, true, true, false) are the caller's to fill in. */
  datatype Options = Options(
    length: int,
    lowercase: bool,
    uppercase: bool,
    numbers: bool,
    symbols: bool,
    ambiguous: bool)

  datatype GenError =
    | EmptyCharset      // "Character set is empty. Enable at least one category."
    | LengthOutOfRange  // "Length must be between 4 and 256."

  predicate ValidLength(length: int) {
    MinLength <= length <= MaxLength
  }

  predicate NoClassEnabled(opts: Options) {
    !opts.lowercase && !opts.uppercase && !opts.numbers && !opts.symbols
  }

  /** `c` belongs to the full alphabet of some class that `opts` enables. */
  predicate InEnabledClass(opts: Options, c: char) {
    || (opts.lowercase && c in LOWER)
    || (opts.uppercase && c in UPPER)
    || (opts.numbers && c in DIGITS)
    || (opts.symbols && c in SYMBOLS)
  }

  /** The four character classes. */
  datatype CharClass = Lower | Upper | Digit | Symbol

  function Alphabet(k: CharClass): (a: string)
    ensures 10 <= |a| <= 29
  {
    match k
    case Lower => LOWER
    case Upper => UPPER
    case Digit => DIGITS
    case Symbol => SYMBOLS
  }

  /** The enabled classes, in the order lower, upper, digits, symbols. */
  function EnabledClasses(opts: Options): (ks: seq<CharClass>)
    ensures |ks| <= 4
    ensures Lower in ks <==> opts.lowercase
    ensures Upper in ks <==> opts.uppercase
    ensures Digit in ks <==> opts.numbers
    ensures Symbol in ks <==> opts.symbols
  {
    Slot(opts.lowercase, Lower) + Slot(opts.uppercase, Upper) + Slot(opts.numbers, Digit) + Slot(opts.symbols, Symbol)
  }

  /** `[k]` when the class is enabled, nothing otherwise. */
  function Slot(enabled: bool, k: CharClass): seq<CharClass> {
    if enabled then [k] else []
  }

  // ---------------------------------------------------------------------------
  // The character pool (buildCharset)
  // ---------------------------------------------------------------------------

  /** `[...s].filter((ch) => !AMBIGUOUS.has(ch)).join('')` */
  function WithoutAmbiguous(s: string): (r: string)
    ensures |r| <= |s|
    ensures forall c :: c in r <==> c in s && c !in AMBIGUOUS
  {
    if s == [] then [] else Keep(s[0]) + WithoutAmbiguous(s[1..])
  }

  function Keep(c: char): string {
    if c in AMBIGUOUS then [] else [c]
  }

  lemma {:induction false} WithoutAmbiguousAppend(a: string, b: string)
    ensures WithoutAmbiguous(a + b) == WithoutAmbiguous(a) + WithoutAmbiguous(b)
  {
    if a == [] {
      assert a + b == b;
    } else {
      assert (a + b)[0] == a[0];
      assert (a + b)[1..] == a[1..] + b;
      WithoutAmbiguousAppend(a[1..], b);
      assert WithoutAmbiguous(a + b) == Keep(a[0]) + (WithoutAmbiguous(a[1..]) + WithoutAmbiguous(b));
    }
  }

  /** The concatenation of the enabled class alphabets, before any filtering. */
  function RawPool(opts: Options): string {
    (if opts.lowercase then LOWER else "")
    + (if opts.uppercase then UPPER else "")
    + (if opts.numbers then DIGITS else "")
    + (if opts.symbols then SYMBOLS else "")
  }

  /** Every class keeps at least one character that is not ambiguous:
      'a', 'A', '2' and '!'. */
  lemma ClassWitnesses()
    ensures LOWER[0] == 'a' && LOWER[0] !in AMBIGUOUS
    ensures UPPER[0] == 'A' && UPPER[0] !in AMBIGUOUS
    ensures DIGITS[2] == '2' && DIGITS[2] !in AMBIGUOUS
    ensures SYMBOLS[0] == '!' && SYMBOLS[0] !in AMBIGUOUS
  {
  }

  /** buildCharset: the pool is empty, and the call throws, exactly when no
      class is enabled; otherwise it holds exactly the characters of the
      enabled classes, minus the ambiguous ones unless those are asked for. */
  function BuildCharset(opts: Options): (r: Result<string, GenError>)
    ensures r.Failure? <==> NoClassEnabled(opts)
    ensures r.Failure? ==> r.error == EmptyCharset
    ensures r.Success? ==> 1 <= |r.value| <= 91
    ensures r.Success? ==> forall c :: c in r.value <==> InEnabledClass(opts, c) && (opts.ambiguous || c !in AMBIGUOUS)
  {
    ClassWitnesses();
    var raw := RawPool(opts);
    var pool := if opts.ambiguous then raw else WithoutAmbiguous(raw);
    if |pool| == 0 then Failure(EmptyCharset) else Success(pool)
  }

  /** One enabled class's contribution to the pool. */
  function Part(enabled: bool, alphabet: string, ambiguous: bool): string {
    if !enabled then "" else if ambiguous then alphabet else WithoutAmbiguous(alphabet)
  }

  /** The pool is the concatenation, in the order lower, upper, digits,
      symbols, of exactly the enabled classes, each filtered on its own. */
  lemma BuildCharsetOrder(opts: Options)
    requires !NoClassEnabled(opts)
    ensures BuildCharset(opts) == Success(
      Part(opts.lowercase, LOWER, opts.ambiguous) + Part(opts.uppercase, UPPER, opts.ambiguous)
      + Part(opts.numbers, DIGITS, opts.ambiguous) + Part(opts.symbols, SYMBOLS, opts.ambiguous))
  {
    var l := if opts.lowercase then LOWER else "";
    var u := if opts.uppercase then UPPER else "";
    var d := if opts.numbers then DIGITS else "";
    var s := if opts.symbols then SYMBOLS else "";
    assert RawPool(opts) == l + u + d + s;
    if !opts.ambiguous {
      WithoutAmbiguousAppend(l + u + d, s);
      WithoutAmbiguousAppend(l + u, d);
      WithoutAmbiguousAppend(l, u);
    }
  }

  /** With `ambiguous` false no character of the pool is ambiguous. */
  lemma PoolAvoidsAmbiguous(opts: Options, i: nat)
    requires !opts.ambiguous && BuildCharset(opts).Success?
    requires i < |BuildCharset(opts).value|
    ensures BuildCharset(opts).value[i] !in AMBIGUOUS
  {
    var pool := BuildCharset(opts).value;
    assert pool[i] in pool;
  }

  // ---------------------------------------------------------------------------
  // Rejection sampling (secureRandomString)
  // ---------------------------------------------------------------------------

  lemma MulAtLeast(a: int, n: int)
    requires a >= 1 && n > 0
    ensures a * n >= n
  {
  }

  /** Euclidean division is unique: the quotient and remainder of `x` by `n`
      are the only `q`, `r` with `x == q * n + r` and `0 <= r < n`. */
  lemma DivModUnique(x: int, n: int, q: int, r: int)
    requires n > 0 && x == q * n + r && 0 <= r < n
    ensures x / n == q && x % n == r
  {
    var q', r' := x / n, x % n;
    assert x == q' * n + r' && 0 <= r' < n;
    assert (q - q') * n == r' - r;
    if q > q' {
      MulAtLeast(q - q', n);
    } else if q < q' {
      MulAtLeast(q' - q, n);
    }
  }

  /** `Math.floor(256 / n) * n`, the largest multiple of the pool size that
      fits in the byte range, written as `256 - 256 % n`. For an empty pool
      the source computes NaN, and `x < NaN` rejects every byte, which a
      threshold of 0 also does. */
  function Threshold(n: nat): (t: nat)
    ensures n >= 1 ==> t % n == 0 && t <= 256 < t + n
    ensures n == 0 ==> t == 0
  {
    if n == 0 then 0
    else
      DivModUnique(256 - 256 % n, n, 256 / n, 0);
      256 - 256 % n
  }

  /** The threshold is the source's `Math.floor(256 / n) * n`. */
  lemma ThresholdIsFloorMultiple(n: nat)
    requires n >= 1
    ensures Threshold(n) == (256 / n) * n
  {
    DivModUnique(256 - 256 % n, n, 256 / n, 0);
  }

  /** For a pool of 1 to 256 characters the threshold is at least 128; for a
      larger pool it is 0, so every byte is rejected. */
  lemma ThresholdBounds(n: nat)
    ensures 1 <= n <= 256 ==> 128 <= Threshold(n) <= 256 < Threshold(n) + n
    ensures n == 0 || n > 256 ==> Threshold(n) == 0
  {
    if 128 < n <= 256 {
      DivModUnique(256, n, 1, 256 - n);
      assert Threshold(n) == n;
    } else if n > 256 {
      DivModUnique(256, n, 0, 256);
    }
  }

  /** The pool index one random byte selects for a pool of `n` characters:
      `x % n` when the byte falls below the threshold, none otherwise. */
  function Index(x: nat, n: nat): (r: Option<nat>)
    ensures r.Some? ==> r.value < n
    ensures r.Some? <==> x < Threshold(n)
  {
    if x < Threshold(n) then Some(x % n) else None
  }

  /** The characters one random byte contributes: `chars[x % n]` when the
      byte falls below the threshold, nothing otherwise. */
  function Step(x: byte, charset: string): (r: string)
    ensures |r| <= 1
    ensures |r| == 1 <==> (x as int) < Threshold(|charset|)
  {
    match Index(x as int, |charset|)
    case Some(idx) => [charset[idx]]
    case None => []
  }

  /** The characters that the first `i` bytes of `b` contribute, in order. */
  function Accepted(b: seq<byte>, i: nat, charset: string): (r: string)
    requires i <= |b|
    ensures |r| <= i
  {
    if i == 0 then [] else Accepted(b, i - 1, charset) + Step(b[i - 1], charset)
  }

  /** What fewer bytes contribute is a prefix of what more bytes contribute. */
  lemma {:induction false} AcceptedPrefix(b: seq<byte>, i: nat, j: nat, charset: string)
    requires i <= j <= |b|
    ensures Accepted(b, i, charset) <= Accepted(b, j, charset)
  {
    if i < j {
      AcceptedPrefix(b, i, j - 1, charset);
    }
  }

  /** The characters that the first `k` batches contribute, ignoring where
      the sampler stops. */
  function Draws(batches: seq<Batch>, k: nat, charset: string): (d: string)
    requires k <= |batches|
    ensures |d| <= 32 * k
  {
    if k == 0 then [] else Draws(batches, k - 1, charset) + Accepted(batches[k - 1], |batches[k - 1]|, charset)
  }

  /** Membership in the pool: every accepted byte is mapped to a character of `charset`. */
  lemma {:induction false} AcceptedInCharset(b: seq<byte>, i: nat, charset: string)
    requires i <= |b|
    ensures forall j :: 0 <= j < |Accepted(b, i, charset)| ==> Accepted(b, i, charset)[j] in charset
  {
    if i > 0 {
      AcceptedInCharset(b, i - 1, charset);
    }
  }

  lemma {:induction false} DrawsInCharset(batches: seq<Batch>, k: nat, charset: string)
    requires k <= |batches|
    ensures forall j :: 0 <= j < |Draws(batches, k, charset)| ==> Draws(batches, k, charset)[j] in charset
  {
    if k > 0 {
      DrawsInCharset(batches, k - 1, charset);
      AcceptedInCharset(batches[k - 1], |batches[k - 1]|, charset);
    }
  }

  /** What fewer batches contribute is a prefix of what more batches contribute. */
  lemma {:induction false} DrawsPrefix(batches: seq<Batch>, i: nat, j: nat, charset: string)
    requires i <= j <= |batches|
    ensures Draws(batches, i, charset) <= Draws(batches, j, charset)
  {
    if i < j {
      DrawsPrefix(batches, i, j - 1, charset);
    }
  }

  /** More batches never give fewer characters. */
  lemma DrawsGrow(batches: seq<Batch>, i: nat, j: nat, charset: string)
    requires i <= j <= |batches|
    ensures |Draws(batches, i, charset)| <= |Draws(batches, j, charset)|
  {
    DrawsPrefix(batches, i, j, charset);
  }

  /** Counting down from `k`, the fewest batches whose draws still reach
      `length` characters; draws only grow with more batches, so this is the
      first number of batches that reaches `length`. */
  function FewestBatches(batches: seq<Batch>, k: nat, length: nat, charset: string): (f: nat)
    requires k <= |batches| && length <= |Draws(batches, k, charset)|
    ensures f <= k && length <= |Draws(batches, f, charset)|
    ensures f > 0 ==> |Draws(batches, f - 1, charset)| < length
  {
    if k == 0 || |Draws(batches, k - 1, charset)| < length then k
    else FewestBatches(batches, k - 1, length, charset)
  }

  /** `k` batches are the fewest whose accepted characters number at least `length`. */
  ghost predicate Fewest(batches: seq<Batch>, length: nat, charset: string, k: nat) {
    k <= |batches| && length <= |Draws(batches, k, charset)|
    && (k > 0 ==> |Draws(batches, k - 1, charset)| < length)
  }

  /** How many batches `secureRandomString(length, charset)` pulls: the
      fewest whose accepted characters number at least `length`. */
  ghost function BatchesUsed(batches: seq<Batch>, length: nat, charset: string): (k: nat)
    requires length <= |Draws(batches, |batches|, charset)|
    ensures k <= |batches| && length <= |Draws(batches, k, charset)|
    ensures k > 0 ==> |Draws(batches, k - 1, charset)| < length
  {
    var f := FewestBatches(batches, |batches|, length, charset);
    assert Fewest(batches, length, charset, f);
    var k :| Fewest(batches, length, charset, k);
    k
  }

  /** Only one number of batches is the fewest that reach `length` characters. */
  lemma BatchesUsedUnique(batches: seq<Batch>, length: nat, charset: string, k: nat)
    requires k <= |batches| && length <= |Draws(batches, k, charset)|
    requires k > 0 ==> |Draws(batches, k - 1, charset)| < length
    ensures length <= |Draws(batches, |batches|, charset)|
    ensures BatchesUsed(batches, length, charset) == k
  {
    DrawsGrow(batches, k, |batches|, charset);
    var b := BatchesUsed(batches, length, charset);
    if b < k {
      DrawsGrow(batches, b, k - 1, charset);
    } else if b > k {
      DrawsGrow(batches, k, b - 1, charset);
    }
  }

  /** The `for` loop of secureRandomString over one batch `buf`: appends
      `chars[x % n]` for every byte `x < maxMultiple`, stopping early once
      `length` characters are collected. `i` is where it stopped. */
  method ScanBatch(buf: Batch, charset: string, maxMultiple: int, result: string, length: nat)
    returns (out: string, i: nat)
    requires maxMultiple == Threshold(|charset|) && |result| <= length
    ensures i <= |buf| && out == result + Accepted(buf, i, charset) && |out| <= length
    ensures i < |buf| ==> |out| == length
  {
    var n := |charset|;
    out, i := result, 0;
    while i < |buf| && |out| < length
      invariant i <= |buf|
      invariant out == result + Accepted(buf, i, charset)
      invariant |out| <= length
    {
      var x := buf[i];
      if (x as int) < maxMultiple {
        var idx := x as int % n;
        out := out + [charset[idx]];
      }
      i := i + 1;
    }
  }

  /** secureRandomString: pulls batches of random bytes and keeps a byte `x`
      only when `x < maxMultiple`, mapping it to `chars[x % n]`, until
      `length` characters are collected; the rest of the last batch is
      dropped. `used` is the number of batches pulled. The result is the
      first `length` accepted characters of the fewest batches that supply
      that many, so each of its characters is a character of `charset`. */
  method SecureRandomString(length: nat, charset: string, batches: seq<Batch>) returns (s: string, used: nat)
    requires length <= |Draws(batches, |batches|, charset)|
    ensures |s| == length && s == Draws(batches, |batches|, charset)[..length]
    ensures used == BatchesUsed(batches, length, charset) && s <= Draws(batches, used, charset)
    ensures forall i :: 0 <= i < |s| ==> s[i] in charset
  {
    var result: string := [];
    var n := |charset|;
    var maxMultiple := if n == 0 then 0 else (256 / n) * n;
    if n > 0 {
      ThresholdIsFloorMultiple(n);
    }
    used := 0;
    while |result| < length
      invariant used <= |batches|
      invariant |result| <= length
      invariant result <= Draws(batches, used, charset)
      invariant |result| < length ==> result == Draws(batches, used, charset)
      invariant used > 0 ==> |Draws(batches, used - 1, charset)| < length
      decreases |batches| - used
    {
      if used == |batches| {
        assert false;
      }
      var buf := batches[used];
      var i;
      result, i := ScanBatch(buf, charset, maxMultiple, result, length);
      AcceptedPrefix(buf, i, |buf|, charset);
      used := used + 1;
    }
    s := result;
    SampledPrefix(batches, length, charset, used, s);
  }

  /** What the loop of secureRandomString has on exit: `length` characters,
      a prefix of the draws of `used` batches, one batch more than needed
      never pulled. */
  lemma SampledPrefix(batches: seq<Batch>, length: nat, charset: string, used: nat, s: string)
    requires used <= |batches| && |s| == length && s <= Draws(batches, used, charset)
    requires used > 0 ==> |Draws(batches, used - 1, charset)| < length
    ensures length <= |Draws(batches, |batches|, charset)|
    ensures s == Draws(batches, |batches|, charset)[..length]
    ensures used == BatchesUsed(batches, length, charset)
    ensures forall i :: 0 <= i < |s| ==> s[i] in charset
  {
    DrawsInCharset(batches, used, charset);
    DrawsPrefix(batches, used, |batches|, charset);
    BatchesUsedUnique(batches, length, charset, used);
  }

  /** The byte values that the sampler accepts and maps to pool index `idx`. */
  ghost function HitsOf(n: nat, idx: nat): set<int>
  {
    set x: int | 0 <= x < 256 && Index(x, n) == Some(idx)
  }

  lemma {:induction false} HitsBelow(n: nat, idx: nat, m: nat)
    requires 1 <= n && idx < n
    ensures |set x: int | 0 <= x < m * n && x % n == idx| == m
  {
    var s := set x: int | 0 <= x < m * n && x % n == idx;
    if m == 0 {
      assert s == {};
    } else {
      HitsBelow(n, idx, m - 1);
      var lo := (m - 1) * n;
      assert m * n == lo + n;
      var prev := set x: int | 0 <= x < lo && x % n == idx;
      var top := lo + idx;
      DivModUnique(top, n, m - 1, idx);
      forall x | x in s ensures x in prev || x == top {
        if x >= lo {
          DivModUnique(x, n, m - 1, x - lo);
        }
      }
      assert s == prev + {top};
      assert top !in prev;
    }
  }

  /** No modulo bias: for a pool of `n` characters (1 <= n <= 256), each
      index `idx < n` is produced by exactly `floor(256 / n)` accepted byte
      values, so every pool character is equally likely. */
  lemma NoModuloBias(n: nat, idx: nat)
    requires 1 <= n <= 256 && idx < n
    ensures |HitsOf(n, idx)| == 256 / n
  {
    var q := 256 / n;
    ThresholdIsFloorMultiple(n);
    ThresholdBounds(n);
    HitsBelow(n, idx, q);
    forall x | x in HitsOf(n, idx) ensures 0 <= x < q * n && x % n == idx {
    }
    forall x | 0 <= x < q * n && x % n == idx ensures x in HitsOf(n, idx) {
      assert Index(x, n) == Some(idx);
    }
    assert HitsOf(n, idx) == set x: int | 0 <= x < q * n && x % n == idx;
  }

  // ---------------------------------------------------------------------------
  // Enough randomness: a byte below 128 is accepted by every pool
  // ---------------------------------------------------------------------------

  /** A batch with at least one byte below 128; such a byte is accepted
      whatever the pool size, since every threshold is at least 128. */
  predicate HasLowByte(b: Batch) {
    exists i :: 0 <= i < |b| && b[i] < 128
  }

  predicate AllLow(batches: seq<Batch>) {
    forall k :: 0 <= k < |batches| ==> HasLowByte(batches[k])
  }

  lemma AcceptedNonEmpty(b: Batch, charset: string)
    requires 1 <= |charset| <= 256 && HasLowByte(b)
    ensures 1 <= |Accepted(b, |b|, charset)|
  {
    ThresholdBounds(|charset|);
    var i :| 0 <= i < |b| && b[i] < 128;
    assert |Accepted(b, i + 1, charset)| >= 1;
    AcceptedPrefix(b, i + 1, |b|, charset);
  }

  /** Each batch with a low byte supplies at least one character. */
  lemma {:induction false} DrawsAtLeastBatches(batches: seq<Batch>, k: nat, charset: string)
    requires 1 <= |charset| <= 256 && AllLow(batches) && k <= |batches|
    ensures k <= |Draws(batches, k, charset)|
  {
    if k > 0 {
      AcceptedNonEmpty(batches[k - 1], charset);
      DrawsAtLeastBatches(batches, k - 1, charset);
    }
  }

  /** With low bytes in every batch, the sampler pulls no more batches than
      the characters it is asked for. */
  lemma UsedAtMostLength(batches: seq<Batch>, charset: string, length: nat)
    requires 1 <= |charset| <= 256 && AllLow(batches) && length <= |Draws(batches, |batches|, charset)|
    ensures BatchesUsed(batches, length, charset) <= length
  {
    var used := BatchesUsed(batches, length, charset);
    if used > 0 {
      DrawsAtLeastBatches(batches, used - 1, charset);
    }
  }

  lemma AllLowSuffix(batches: seq<Batch>, k: nat)
    requires AllLow(batches) && k <= |batches|
    ensures AllLow(batches[k..])
  {
    forall j | 0 <= j < |batches| - k ensures HasLowByte(batches[k..][j]) {
      assert batches[k..][j] == batches[k + j];
    }
  }

  // ---------------------------------------------------------------------------
  // The password (generatePassword)
  // ---------------------------------------------------------------------------

  /** `needed` holds one character of each class in `classes`, in order. */
  ghost predicate OnePerClass(needed: string, classes: seq<CharClass>) {
    |needed| == |classes| && forall j :: 0 <= j < |needed| ==> needed[j] in Alphabet(classes[j])
  }

  /** How a password is put together: a shuffle of `fill`, characters of the
      pool, followed by `needed`, one character of each enabled class's full
      alphabet; together they are exactly `length` characters. */
  ghost predicate Assembled(opts: Options, pw: string, fill: string, needed: string) {
    && BuildCharset(opts).Success?
    && OnePerClass(needed, EnabledClasses(opts))
    && (forall i :: 0 <= i < |fill| ==> fill[i] in BuildCharset(opts).value)
    && |fill| + |needed| == opts.length
    && multiset(pw) == multiset(fill + needed)
  }

  /** A permutation keeps every character of what it permutes. */
  lemma PermutationLength(pw: string, base: string)
    requires multiset(pw) == multiset(base)
    ensures |pw| == |base|
  {
    assert |pw| == |multiset(pw)| == |multiset(base)| == |base|;
  }

  lemma PermutationKeeps(pw: string, base: string, j: nat)
    requires multiset(pw) == multiset(base) && j < |base|
    ensures exists i :: 0 <= i < |pw| && pw[i] == base[j]
  {
    assert base[j] in multiset(base);
  }

  /** Coverage over any assignment of alphabets to classes: if `needed[j]`
      lies in the alphabet of `classes[j]`, a permutation of `fill + needed`
      holds a character of each class. */
  lemma {:induction false} CoversClasses(pw: string, fill: string, needed: string, classes: seq<CharClass>, alphabet: CharClass -> string)
    requires |needed| == |classes| && forall j :: 0 <= j < |needed| ==> needed[j] in alphabet(classes[j])
    requires multiset(pw) == multiset(fill + needed)
    ensures forall k :: k in classes ==> exists i :: 0 <= i < |pw| && pw[i] in alphabet(k)
  {
    forall k | k in classes
      ensures exists i :: 0 <= i < |pw| && pw[i] in alphabet(k)
    {
      var j :| 0 <= j < |classes| && classes[j] == k;
      PermutationKeeps(pw, fill + needed, |fill| + j);
      var i :| 0 <= i < |pw| && pw[i] == (fill + needed)[|fill| + j];
      assert pw[i] == needed[j];
    }
  }

  /** Class coverage: an assembled password holds a character of every enabled class. */
  lemma CoversEnabledClasses(opts: Options, pw: string, fill: string, needed: string)
    requires Assembled(opts, pw, fill, needed)
    ensures forall k :: k in EnabledClasses(opts) ==> exists i :: 0 <= i < |pw| && pw[i] in Alphabet(k)
  {
    CoversClasses(pw, fill, needed, EnabledClasses(opts), Alphabet);
  }

  /** The first accepted character is a character of the alphabet, and the
      call that draws it pulls at least one batch. */
  lemma FirstDraw(batches: seq<Batch>, alphabet: string)
    requires |Draws(batches, |batches|, alphabet)| > 0
    ensures Draws(batches, |batches|, alphabet)[0] in alphabet
    ensures 1 <= BatchesUsed(batches, 1, alphabet) <= |batches|
  {
    DrawsInCharset(batches, |batches|, alphabet);
  }

  /** A pick in progress: the guaranteed characters so far, and the batches
      not yet pulled. */
  type Picked = (string, seq<Batch>)

  /** One line `if (enabled) needed.push(secureRandomString(1, ALPHABET))`,
      from the state `st`: when the class is enabled, the first accepted
      character of its alphabet is appended and the batches the call pulled
      are gone. `None` when what is left of the stream holds no accepted
      character of that alphabet, where the source would keep drawing. */
  ghost function PickOne(enabled: bool, k: CharClass, st: Picked): (r: Option<Picked>)
    ensures !enabled ==> r == Some(st)
    ensures r.Some? ==> st.0 <= r.value.0 && |r.value.0| == |st.0| + |Slot(enabled, k)|
    ensures r.Some? && enabled ==> r.value.0[|st.0|] in Alphabet(k)
    ensures r.Some? ==> |r.value.1| <= |st.1| && r.value.1 == st.1[|st.1| - |r.value.1|..]
  {
    if !enabled then Some(st)
    else
      var alphabet := Alphabet(k);
      var draws := Draws(st.1, |st.1|, alphabet);
      if |draws| == 0 then None
      else
        FirstDraw(st.1, alphabet);
        var used := BatchesUsed(st.1, 1, alphabet);
        Some((st.0 + [draws[0]], st.1[used..]))
  }

  /** The next push line, once the earlier ones have finished. */
  ghost function Then(o: Option<Picked>, enabled: bool, k: CharClass): Option<Picked> {
    match o
    case None => None
    case Some(st) => PickOne(enabled, k, st)
  }

  /** The four push lines of generatePassword on the stream `batches`: the
      guaranteed characters and the batches they leave. */
  ghost function Guaranteed(opts: Options, batches: seq<Batch>): (r: Option<Picked>)
    ensures r.Some? ==> |r.value.0| == |EnabledClasses(opts)|
  {
    Then(Then(Then(Then(Some(([], batches)), opts.lowercase, Lower),
      opts.uppercase, Upper), opts.numbers, Digit), opts.symbols, Symbol)
  }

  /** A push keeps one character per class, adding its own class when enabled. */
  lemma PickOneKeepsOnePerClass(enabled: bool, k: CharClass, st: Picked, classes: seq<CharClass>)
    requires OnePerClass(st.0, classes) && PickOne(enabled, k, st).Some?
    ensures OnePerClass(PickOne(enabled, k, st).value.0, classes + Slot(enabled, k))
  {
    var r := PickOne(enabled, k, st).value.0;
    var cs := classes + Slot(enabled, k);
    forall j | 0 <= j < |r| ensures r[j] in Alphabet(cs[j]) {
      if j < |st.0| {
        assert r[j] == st.0[j] && cs[j] == classes[j];
      }
    }
  }

  /** The guaranteed characters are one of each enabled class, in class order. */
  lemma GuaranteedOnePerClass(opts: Options, batches: seq<Batch>)
    requires Guaranteed(opts, batches).Some?
    ensures OnePerClass(Guaranteed(opts, batches).value.0, EnabledClasses(opts))
  {
    var o0: Option<Picked> := Some(([], batches));
    var o2 := Then(Then(o0, opts.lowercase, Lower), opts.uppercase, Upper);
    assert o2.Some?;
    TwoThenOnePerClass(o0, opts.lowercase, Lower, opts.uppercase, Upper, []);
    assert [] + Slot(opts.lowercase, Lower) == Slot(opts.lowercase, Lower);
    TwoThenOnePerClass(o2, opts.numbers, Digit, opts.symbols, Symbol,
      Slot(opts.lowercase, Lower) + Slot(opts.uppercase, Upper));
  }

  /** Two more push lines keep one character per class. */
  lemma TwoThenOnePerClass(o: Option<Picked>, e1: bool, k1: CharClass, e2: bool, k2: CharClass,
                           classes: seq<CharClass>)
    requires o.Some? && OnePerClass(o.value.0, classes)
    requires Then(Then(o, e1, k1), e2, k2).Some?
    ensures OnePerClass(Then(Then(o, e1, k1), e2, k2).value.0, classes + Slot(e1, k1) + Slot(e2, k2))
  {
    var o1 := Then(o, e1, k1);
    assert o1.Some?;
    PickOneKeepsOnePerClass(e1, k1, o.value, classes);
    PickOneKeepsOnePerClass(e2, k2, o1.value, classes + Slot(e1, k1));
  }

  /** One push line, proved against `PickOne`. */
  method PushGuaranteed(enabled: bool, k: CharClass, needed: string, batches: seq<Batch>)
    returns (needed': string, rest: seq<Batch>)
    requires PickOne(enabled, k, (needed, batches)).Some?
    ensures PickOne(enabled, k, (needed, batches)) == Some((needed', rest))
  {
    needed', rest := needed, batches;
    if enabled {
      var s, used := SecureRandomString(1, Alphabet(k), batches);
      needed', rest := needed + [s[0]], batches[used..];
    }
  }

  /** The four `needed.push` lines of generatePassword: one character of each
      enabled class, in class order, each drawn from the batches the previous
      ones left. */
  method PickGuaranteed(opts: Options, batches: seq<Batch>) returns (needed: string, rest: seq<Batch>)
    requires Guaranteed(opts, batches).Some?
    ensures Guaranteed(opts, batches) == Some((needed, rest))
  {
    needed, rest := PushGuaranteed(opts.lowercase, Lower, [], batches);
    needed, rest := PushGuaranteed(opts.uppercase, Upper, needed, rest);
    needed, rest := PushGuaranteed(opts.numbers, Digit, needed, rest);
    needed, rest := PushGuaranteed(opts.symbols, Symbol, needed, rest);
  }

  /** `base.sort(() => randomBytes(1)[0] - 128)`: a sort with a random
      comparator leaves some permutation of its input, and which one is not
      modelled, so the result is any arrangement of the same characters. */
  method Shuffle(base: string) returns (pw: string)
    ensures multiset(pw) == multiset(base) && |pw| == |base|
  {
    pw :| multiset(pw) == multiset(base);
    assert |pw| == |multiset(pw)| == |multiset(base)| == |base|;
  }

  /** The guaranteed characters come from the full class alphabets, so one
      of them can be ambiguous although the pool leaves it out: a batch whose
      first byte is 14 makes 'o' the guaranteed lower-case character. */
  lemma GuaranteedMayBeAmbiguous(opts: Options, b: Batch)
    requires opts.lowercase && !opts.ambiguous && b[0] == 14
    ensures |Accepted(b, |b|, Alphabet(Lower))| >= 1 && Accepted(b, |b|, Alphabet(Lower))[0] == 'o'
    ensures 'o' in AMBIGUOUS && BuildCharset(opts).Success? && 'o' !in BuildCharset(opts).value
  {
    assert |LOWER| == 26;
    DivModUnique(256, 26, 9, 22);
    assert Threshold(26) == 234;
    assert Accepted(b, 1, LOWER) == Step(b[0], LOWER) == [LOWER[14]];
    AcceptedPrefix(b, 1, |b|, LOWER);
  }

  /** `Math.max(0, length - picked)`. */
  function Remaining(length: int, picked: nat): (r: nat)
    ensures picked <= length ==> picked + r == length
    ensures length <= picked ==> r == 0
  {
    if length - picked > 0 then length - picked else 0
  }

  /** The stream supplies all that generatePassword draws from it: each
      guaranteed pick finds an accepted character of its class, and the
      batches the picks leave hold enough accepted pool characters. */
  ghost predicate EnoughRandomness(opts: Options, batches: seq<Batch>) {
    BuildCharset(opts).Success? ==>
      && Guaranteed(opts, batches).Some?
      && var st := Guaranteed(opts, batches).value;
         Remaining(opts.length, |st.0|) <= |Draws(st.1, |st.1|, BuildCharset(opts).value)|
  }

  /** The guaranteed characters that generatePassword draws from `batches`. */
  ghost function Needed(opts: Options, batches: seq<Batch>): string
    requires BuildCharset(opts).Success? && EnoughRandomness(opts, batches)
  {
    Guaranteed(opts, batches).value.0
  }

  /** The pool characters that generatePassword draws from the batches the
      guaranteed picks leave. */
  ghost function Fill(opts: Options, batches: seq<Batch>): string
    requires BuildCharset(opts).Success? && EnoughRandomness(opts, batches)
  {
    var st := Guaranteed(opts, batches).value;
    Draws(st.1, |st.1|, BuildCharset(opts).value)[..Remaining(opts.length, |st.0|)]
  }

  /** A first batch with a byte below 128 supplies a character of any
      alphabet of 1 to 256 characters, so a one-character request pulls
      only that batch. */
  lemma FirstBatchSuffices(batches: seq<Batch>, alphabet: string)
    requires 1 <= |batches| && HasLowByte(batches[0]) && 1 <= |alphabet| <= 256
    ensures 1 <= |Draws(batches, |batches|, alphabet)|
    ensures BatchesUsed(batches, 1, alphabet) == 1
  {
    AcceptedNonEmpty(batches[0], alphabet);
    assert Draws(batches, 1, alphabet) == Accepted(batches[0], |batches[0]|, alphabet);
    BatchesUsedUnique(batches, 1, alphabet, 1);
  }

  /** With a byte below 128 in every batch, an enabled push takes exactly
      one batch: started on the batches of `all` from `m` on, it leaves those
      from `m + 1` on. */
  lemma PickOneLow(enabled: bool, k: CharClass, st: Picked, all: seq<Batch>, m: nat)
    requires AllLow(all) && m <= |all| && st.1 == all[m..] && (enabled ==> m < |all|)
    ensures PickOne(enabled, k, st).Some?
    ensures PickOne(enabled, k, st).value.1 == all[m + |Slot(enabled, k)|..]
  {
    if enabled {
      assert st.1[0] == all[m];
      FirstBatchSuffices(st.1, Alphabet(k));
      assert st.1[1..] == all[m + 1..];
    }
  }

  /** With a byte below 128 in every batch, the four push lines finish and
      together take one batch per guaranteed character. */
  lemma GuaranteedLow(opts: Options, batches: seq<Batch>)
    requires AllLow(batches) && 4 <= |batches|
    ensures Guaranteed(opts, batches).Some?
    ensures var st := Guaranteed(opts, batches).value;
      |st.0| <= 4 && st.1 == batches[|st.0|..]
  {
    var o0: Option<Picked> := Some(([], batches));
    TwoThenLow(o0, opts.lowercase, Lower, opts.uppercase, Upper, batches, 0);
    var o2 := Then(Then(o0, opts.lowercase, Lower), opts.uppercase, Upper);
    TwoThenLow(o2, opts.numbers, Digit, opts.symbols, Symbol, batches, 2);
  }

  /** Two more push lines on a stream of low batches. */
  lemma TwoThenLow(o: Option<Picked>, e1: bool, k1: CharClass, e2: bool, k2: CharClass,
                   all: seq<Batch>, n: nat)
    requires AllLow(all) && n + 1 < |all|
    requires o.Some? && |o.value.0| <= n && o.value.1 == all[|o.value.0|..]
    ensures var r := Then(Then(o, e1, k1), e2, k2);
      r.Some? && |r.value.0| <= n + 2 && r.value.1 == all[|r.value.0|..]
  {
    ThenLow(o, e1, k1, all, n);
    ThenLow(Then(o, e1, k1), e2, k2, all, n + 1);
  }

  /** One more push line on a stream of low batches, after at most `n`
      characters have taken one batch each. */
  lemma ThenLow(o: Option<Picked>, enabled: bool, k: CharClass, all: seq<Batch>, n: nat)
    requires AllLow(all) && n < |all|
    requires o.Some? && |o.value.0| <= n && o.value.1 == all[|o.value.0|..]
    ensures Then(o, enabled, k).Some?
    ensures |Then(o, enabled, k).value.0| <= n + 1
    ensures Then(o, enabled, k).value.1 == all[|Then(o, enabled, k).value.0|..]
  {
    PickOneLow(enabled, k, o.value, all, |o.value.0|);
  }

  /** A byte below 128 in every batch, and a batch for every character
      asked for, is enough randomness for any request of a valid length. */
  lemma LowBytesSuffice(opts: Options, batches: seq<Batch>)
    requires AllLow(batches) && ValidLength(opts.length) && opts.length <= |batches|
    ensures EnoughRandomness(opts, batches)
  {
    if BuildCharset(opts).Success? {
      GuaranteedLow(opts, batches);
      var st := Guaranteed(opts, batches).value;
      AllLowSuffix(batches, |st.0|);
      DrawsAtLeastBatches(st.1, |st.1|, BuildCharset(opts).value);
    }
  }

  /** A permutation of the fill and the guaranteed characters is a password
      of the requested length that holds a character of every enabled class. */
  lemma PasswordAssembled(opts: Options, batches: seq<Batch>, pw: string)
    requires ValidLength(opts.length) && BuildCharset(opts).Success? && EnoughRandomness(opts, batches)
    requires multiset(pw) == multiset(Fill(opts, batches) + Needed(opts, batches))
    ensures |pw| == opts.length && Assembled(opts, pw, Fill(opts, batches), Needed(opts, batches))
    ensures forall k :: k in EnabledClasses(opts) ==> exists i :: 0 <= i < |pw| && pw[i] in Alphabet(k)
  {
    var fill, needed := Fill(opts, batches), Needed(opts, batches);
    FillAndNeeded(opts, batches);
    PermutationLength(pw, fill + needed);
    CoversEnabledClasses(opts, pw, fill, needed);
  }

  /** The guaranteed characters are one per enabled class, the fill comes
      from the pool, and together they have the requested length. */
  lemma FillAndNeeded(opts: Options, batches: seq<Batch>)
    requires ValidLength(opts.length) && BuildCharset(opts).Success? && EnoughRandomness(opts, batches)
    ensures OnePerClass(Needed(opts, batches), EnabledClasses(opts))
    ensures forall i :: 0 <= i < |Fill(opts, batches)| ==> Fill(opts, batches)[i] in BuildCharset(opts).value
    ensures |Fill(opts, batches)| + |Needed(opts, batches)| == opts.length
  {
    var st := Guaranteed(opts, batches).value;
    GuaranteedOnePerClass(opts, batches);
    DrawsInCharset(st.1, |st.1|, BuildCharset(opts).value);
  }

  /** What the guaranteed picks leave: the batches still hold the fill, and
      the fill is the first accepted pool characters of those batches. */
  lemma AfterPicks(opts: Options, batches: seq<Batch>, needed: string, rest: seq<Batch>)
    requires BuildCharset(opts).Success? && EnoughRandomness(opts, batches)
    requires Guaranteed(opts, batches) == Some((needed, rest))
    ensures Remaining(opts.length, |needed|) <= |Draws(rest, |rest|, BuildCharset(opts).value)|
    ensures Needed(opts, batches) == needed
    ensures Fill(opts, batches) == Draws(rest, |rest|, BuildCharset(opts).value)[..Remaining(opts.length, |needed|)]
  {
  }

  /** generatePassword. The length is checked first, then the pool; one
      character is drawn from each enabled class's full alphabet, the rest
      from the pool, and the whole is shuffled by a sort whose comparator is
      random, which yields some permutation of it. `batches` is the stream
      of `crypto.randomBytes(32)` results that the sampler consumes. The
      password is a permutation of exactly the pool characters and the
      guaranteed characters that the stream determines. */
  method GeneratePassword(opts: Options, batches: seq<Batch>) returns (r: Result<string, GenError>)
    requires ValidLength(opts.length) ==> EnoughRandomness(opts, batches)
    ensures !ValidLength(opts.length) ==> r == Failure(LengthOutOfRange)
    ensures ValidLength(opts.length) && NoClassEnabled(opts) ==> r == Failure(EmptyCharset)
    ensures ValidLength(opts.length) && !NoClassEnabled(opts) ==> (
      && r.Success? && |r.value| == opts.length
      && Assembled(opts, r.value, Fill(opts, batches), Needed(opts, batches)))
    ensures r.Success? ==> forall k :: k in EnabledClasses(opts) ==>
      exists i :: 0 <= i < |r.value| && r.value[i] in Alphabet(k)
  {
    if opts.length < MinLength || opts.length > MaxLength {
      return Failure(LengthOutOfRange);
    }
    var built := BuildCharset(opts);
    if built.Failure? {
      return Failure(built.error);
    }
    var charset := built.value;

    var needed, rest := PickGuaranteed(opts, batches);
    AfterPicks(opts, batches, needed, rest);

    var remaining := Remaining(opts.length, |needed|);
    var fill, _ := SecureRandomString(remaining, charset, rest);
    var base := fill + needed;

    var pw := Shuffle(base);
    PasswordAssembled(opts, batches, pw);
    return Success(pw);
  }
}
