/**
 * The integrity checker: the djb2 hash of the dictionary file
 * (gerarHashFicheiro), its decimal rendering, and the comparison of the
 * stored hash with a recomputed one (compararHashFicheiro and
 * verificarIntegridadeFicheiro).  The file is given as its bytes, or None
 * when it cannot be opened.
 */
module Integrity {
  import opened Wrappers

  /** A value returned by fgetc before EOF. */
  type Byte = x: int | 0 <= x < 256

  /** The hash is an `unsigned long` of 64 bits: every step wraps modulo 2^64. */
  const MODULUS: int := 0x1_0000_0000_0000_0000

  const SEED: int := 5381

  /** The inverse of 33 modulo 2^64: 33 * INVERSE_33 == 1 + 2 * MODULUS. */
  const INVERSE_33: int := 1117984489315730401

  type Hash = x: int | 0 <= x < MODULUS

  // ------------------------------------------------------------------
  // The djb2 fold
  // ------------------------------------------------------------------

  /** One step, as written: (hash << 5) + hash + c, every operation wrapping. */
  function Step(h: Hash, c: Byte): (r: Hash)
  {
    (((h * 32) % MODULUS + h) % MODULUS + c) % MODULUS
  }

  /** The shift-and-add step is the multiplication the comment names: hash * 33 + c. */
  lemma StepIsTimes33(h: Hash, c: Byte)
    ensures Step(h, c) == (h * 33 + c) % MODULUS
  {
    var x := h * 32;
    ModAbsorb(x, h + c);
    ModAbsorb((x % MODULUS + h), c);
  }

  /** Reducing an addend first does not change the sum's remainder. */
  lemma ModAbsorb(x: int, y: int)
    ensures (x % MODULUS + y) % MODULUS == (x + y) % MODULUS
  {
    var q := x / MODULUS;
    assert x == q * MODULUS + x % MODULUS;
    AddMultiple(x % MODULUS + y, q);
    assert x + y == (x % MODULUS + y) + q * MODULUS;
  }

  lemma AddMultiple(a: int, q: int)
    ensures (a + q * MODULUS) % MODULUS == a % MODULUS
  {
    var r := a % MODULUS;
    var p := a / MODULUS;
    assert a == p * MODULUS + r;
    assert a + q * MODULUS == (p + q) * MODULUS + r;
  }

  /** The hash of `s` continued from `h`: the loop of gerarHashFicheiro. */
  function HashFrom(h: Hash, s: seq<Byte>): Hash
    decreases |s|
  {
    if s == [] then h else Step(HashFrom(h, s[..|s| - 1]), s[|s| - 1])
  }

  /** djb2 of a whole file. */
  function Djb2(s: seq<Byte>): Hash
  {
    HashFrom(SEED, s)
  }

  /** gerarHashFicheiro's loop: fold every byte into the accumulator, starting at 5381. */
  method HashBytes(s: seq<Byte>) returns (h: Hash)
    ensures h == Djb2(s)
  {
    h := SEED;
    for i := 0 to |s|
      invariant h == HashFrom(SEED, s[..i])
    {
      assert s[..i + 1][..i] == s[..i];
      h := ((h * 32) % MODULUS + h) % MODULUS;
      h := (h + s[i]) % MODULUS;
    }
    assert s[..|s|] == s;
  }

  /** Hashing a concatenation is hashing the second part from the hash of the first. */
  lemma {:induction false} HashConcat(h: Hash, a: seq<Byte>, b: seq<Byte>)
    ensures HashFrom(h, a + b) == HashFrom(HashFrom(h, a), b)
    decreases |b|
  {
    if b == [] {
      assert a + b == a;
    } else {
      assert (a + b)[..|a + b| - 1] == a + b[..|b| - 1];
      assert (a + b)[|a + b| - 1] == b[|b| - 1];
      HashConcat(h, a, b[..|b| - 1]);
    }
  }

  /** Multiplying by 33 modulo 2^64 is undone by its inverse. */
  lemma Undo33(h: Hash)
    ensures ((h * 33) % MODULUS) * INVERSE_33 % MODULUS == h
  {
    var q := (h * 33) / MODULUS;
    var x := (h * 33) % MODULUS;
    assert h * 33 == q * MODULUS + x;
    assert x * INVERSE_33 == h + (2 * h - q * INVERSE_33) * MODULUS;
    AddMultiple(h, 2 * h - q * INVERSE_33);
  }

  /** The step adds the byte to the reduced product. */
  lemma StepAsSum(h: Hash, c: Byte)
    ensures Step(h, c) == ((h * 33) % MODULUS + c) % MODULUS
  {
    StepIsTimes33(h, c);
    ModAbsorb(h * 33, c);
  }

  /** Below twice the modulus, the remainder subtracts the modulus at most once. */
  lemma ModBelowTwice(a: int)
    requires 0 <= a < 2 * MODULUS
    ensures a % MODULUS == (if a < MODULUS then a else a - MODULUS)
  {
    if a >= MODULUS {
      AddMultiple(a - MODULUS, 1);
    }
  }

  /** Two different states stay different after the same byte. */
  lemma StepInjective(h1: Hash, h2: Hash, c: Byte)
    requires Step(h1, c) == Step(h2, c)
    ensures h1 == h2
  {
    StepAsSum(h1, c);
    StepAsSum(h2, c);
    var x1, x2 := (h1 * 33) % MODULUS, (h2 * 33) % MODULUS;
    ModBelowTwice(x1 + c);
    ModBelowTwice(x2 + c);
    assert x1 == x2;
    Undo33(h1);
    Undo33(h2);
  }

  /** From the same state, two different bytes give two different states. */
  lemma StepByteInjective(h: Hash, c1: Byte, c2: Byte)
    requires Step(h, c1) == Step(h, c2)
    ensures c1 == c2
  {
    StepAsSum(h, c1);
    StepAsSum(h, c2);
    var x := (h * 33) % MODULUS;
    ModBelowTwice(x + c1);
    ModBelowTwice(x + c2);
  }

  /** Different states stay different through any common continuation. */
  lemma {:induction false} HashFromInjective(h1: Hash, h2: Hash, s: seq<Byte>)
    requires h1 != h2
    ensures HashFrom(h1, s) != HashFrom(h2, s)
    decreases |s|
  {
    if s != [] {
      HashFromInjective(h1, h2, s[..|s| - 1]);
      if HashFrom(h1, s) == HashFrom(h2, s) {
        StepInjective(HashFrom(h1, s[..|s| - 1]), HashFrom(h2, s[..|s| - 1]), s[|s| - 1]);
      }
    }
  }

  /** Changing any single byte of a file changes its djb2 hash. */
  lemma SingleByteChange(s: seq<Byte>, k: nat, c: Byte)
    requires k < |s| && s[k] != c
    ensures Djb2(s) != Djb2(s[k := c])
  {
    var t := s[k := c];
    var pre, post := s[..k], s[k + 1..];
    assert s == (pre + [s[k]]) + post;
    assert t == (pre + [c]) + post;
    HashConcat(SEED, pre + [s[k]], post);
    HashConcat(SEED, pre + [c], post);
    assert (pre + [s[k]])[..k] == pre && (pre + [c])[..k] == pre;
    var h := HashFrom(SEED, pre);
    if Step(h, s[k]) == Step(h, c) {
      StepByteInjective(h, s[k], c);
    }
    HashFromInjective(Step(h, s[k]), Step(h, c), post);
  }

  // ------------------------------------------------------------------
  // Decimal rendering (sprintf "%lu")
  // ------------------------------------------------------------------

  function DigitChar(d: nat): (ch: char)
    requires d < 10
    ensures '0' <= ch <= '9'
  {
    ['0', '1', '2', '3', '4', '5', '6', '7', '8', '9'][d]
  }

  function DigitValue(ch: char): (d: nat)
    requires '0' <= ch <= '9'
    ensures d < 10 && DigitChar(d) == ch
  {
    if ch == '0' then 0 else if ch == '1' then 1 else if ch == '2' then 2
    else if ch == '3' then 3 else if ch == '4' then 4 else if ch == '5' then 5
    else if ch == '6' then 6 else if ch == '7' then 7 else if ch == '8' then 8 else 9
  }

  predicate IsDigits(s: string)
  {
    forall i | 0 <= i < |s| :: '0' <= s[i] <= '9'
  }

  /** The decimal digits of `n`, most significant first, with no leading zero. */
  function Decimal(n: nat): (s: string)
    ensures |s| > 0 && IsDigits(s)
    ensures n >= 10 ==> s[0] != '0'
  {
    if n < 10 then [DigitChar(n)] else Decimal(n / 10) + [DigitChar(n % 10)]
  }

  /** Reading decimal digits back. */
  function ParseDecimal(s: string): nat
    requires IsDigits(s)
    decreases |s|
  {
    if s == [] then 0 else ParseDecimal(s[..|s| - 1]) * 10 + DigitValue(s[|s| - 1])
  }

  /** Reading back what was rendered gives the number. */
  lemma {:induction false} DecimalRoundTrip(n: nat)
    ensures ParseDecimal(Decimal(n)) == n
  {
    var s := Decimal(n);
    if n < 10 {
      assert s[..0] == [];
    } else {
      DecimalRoundTrip(n / 10);
      assert s[..|s| - 1] == Decimal(n / 10);
    }
  }

  /** Different hashes are rendered as different strings. */
  lemma DecimalInjective(a: nat, b: nat)
    requires Decimal(a) == Decimal(b)
    ensures a == b
  {
    DecimalRoundTrip(a);
    DecimalRoundTrip(b);
  }

  /** A number below 10^k has at most k digits. */
  lemma {:induction false} DecimalLength(n: nat, k: nat, bound: nat)
    requires k > 0 && bound == Pow10(k) && n < bound
    ensures |Decimal(n)| <= k
    decreases k
  {
    if n >= 10 {
      assert k > 1;
      DecimalLength(n / 10, k - 1, Pow10(k - 1));
    }
  }

  function Pow10(k: nat): (p: nat)
    ensures p > 0
  {
    if k == 0 then 1 else 10 * Pow10(k - 1)
  }

  /** Every hash fits the 21-character buffer: at most 20 digits and the terminator. */
  lemma HashFitsBuffer(h: Hash)
    ensures |Decimal(h)| <= 20
  {
    assert Pow10(5) == 100000;
    assert Pow10(10) == 10000000000;
    assert Pow10(15) == 1000000000000000;
    assert Pow10(20) == 100000000000000000000;
    DecimalLength(h, 20, Pow10(20));
  }

  // ------------------------------------------------------------------
  // Comparison
  // ------------------------------------------------------------------

  /**
   * gerarHashFicheiro: the decimal djb2 hash of the file's bytes, or None
   * when the file cannot be opened.
   */
  function FileHash(file: Option<seq<Byte>>): (r: Option<string>)
    ensures r.None? <==> file.None?
    ensures r.Some? ==> IsDigits(r.value) && 0 < |r.value| <= 20
  {
    match file
    case None => None
    case Some(bytes) => HashFitsBuffer(Djb2(bytes)); Some(Decimal(Djb2(bytes)))
  }

  /**
   * compararHashFicheiro: two missing hashes match, one missing hash does
   * not, and two present hashes match when the strings are equal.
   */
  function HashesMatch(stored: Option<string>, candidate: Option<string>): (same: bool)
    ensures same <==> stored == candidate
  {
    if stored.None? && candidate.None? then true
    else if stored.None? || candidate.None? then false
    else stored.value == candidate.value
  }

  /** verificarIntegridadeFicheiro: compare the stored hash with the file's hash recomputed now. */
  function IntegrityPreserved(stored: Option<string>, file: Option<seq<Byte>>): bool
  {
    HashesMatch(stored, FileHash(file))
  }

  /** gerarHashFicheiro: hash the file's bytes with the loop and render the result. */
  method GenerateHash(file: Option<seq<Byte>>) returns (r: Option<string>)
    ensures r == FileHash(file)
  {
    if file.None? {
      return None;
    }
    var h := HashBytes(file.value);
    r := Some(Decimal(h));
  }

  /**
   * The promise of the checker: the hash stored when a file was loaded
   * matches that file, and no longer matches once any single byte changes,
   * nor once the file cannot be opened.
   */
  lemma IntegrityDetectsChange(s: seq<Byte>, k: nat, c: Byte)
    requires k < |s| && s[k] != c
    ensures IntegrityPreserved(FileHash(Some(s)), Some(s))
    ensures !IntegrityPreserved(FileHash(Some(s)), Some(s[k := c]))
    ensures !IntegrityPreserved(FileHash(Some(s)), None)
  {
    SingleByteChange(s, k, c);
    if Decimal(Djb2(s)) == Decimal(Djb2(s[k := c])) {
      DecimalInjective(Djb2(s), Djb2(s[k := c]));
    }
  }
}
