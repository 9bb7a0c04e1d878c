/** The machine-level vocabulary of the C++ extension: bytes, the view a C
    routine has of a NUL-terminated buffer, and the fixed-width integers whose
    wrap-around the extension's time arithmetic inherits. */
module CTypes {

  newtype byte = x: int | 0 <= x < 256

  type Bytes = seq<byte>

  const NUL: byte := 0

  const TWO_TO_THE_63: int := 0x8000_0000_0000_0000
  const TWO_TO_THE_64: int := 0x1_0000_0000_0000_0000

  predicate InInt32(x: int) {
    -0x8000_0000 <= x < 0x8000_0000
  }

  predicate InInt64(x: int) {
    -TWO_TO_THE_63 <= x < TWO_TO_THE_63
  }

  predicate InUint32(x: int) {
    0 <= x < 0x1_0000_0000
  }

  /** C `int`. */
  type int32 = x: int | InInt32(x)

  /** C `long` / `time_t` on a 64-bit platform. */
  type int64 = x: int | InInt64(x)

  /** C `unsigned int`. */
  type uint32 = x: int | InUint32(x)

  /** Two's-complement reduction into 64 bits: what `time_t` arithmetic
      yields when a sum leaves its range. */
  function Wrap64(x: int): (r: int64)
    ensures InInt64(x) ==> r == x
  {
    var shifted := x + TWO_TO_THE_63;
    shifted % TWO_TO_THE_64 - TWO_TO_THE_63
  }

  /** The 64-bit value differs from the exact one by a whole number of 2^64
      periods. Kept apart from `Wrap64` so that proofs which only carry
      wrapped sums around do not reason about the modulus. */
  lemma Wrap64Congruent(x: int)
    ensures (x - Wrap64(x)) % TWO_TO_THE_64 == 0
  {
    var shifted := x + TWO_TO_THE_63;
    assert shifted == TWO_TO_THE_64 * (shifted / TWO_TO_THE_64) + shifted % TWO_TO_THE_64;
  }

  /** Adding a whole number of 2^64 periods does not change the 64-bit value. */
  lemma {:induction false} Wrap64Periodic(x: int, k: int)
    ensures Wrap64(x + k * TWO_TO_THE_64) == Wrap64(x)
  {
    var a := x + TWO_TO_THE_63;
    var b := a + k * TWO_TO_THE_64;
    var qa, ra := a / TWO_TO_THE_64, a % TWO_TO_THE_64;
    assert a == TWO_TO_THE_64 * qa + ra;
    assert b == TWO_TO_THE_64 * (qa + k) + ra;
    assert 0 <= ra < TWO_TO_THE_64;
    assert b / TWO_TO_THE_64 == qa + k && b % TWO_TO_THE_64 == ra by {
      DivModUnique(b, TWO_TO_THE_64, qa + k, ra);
    }
  }

  lemma DivModUnique(n: int, d: int, q: int, r: int)
    requires 0 < d
    requires n == d * q + r && 0 <= r < d
    ensures n / d == q && n % d == r
  {
    var q', r' := n / d, n % d;
    assert n == d * q' + r' && 0 <= r' < d;
    var t := q - q';
    assert d * t == r' - r;
    if t > 0 {
      ProductAtLeast(d, t);
    } else if t < 0 {
      ProductAtLeast(d, -t);
    }
  }

  lemma {:induction false} ProductAtLeast(d: int, t: int)
    requires 0 < d && 0 < t
    ensures d * t >= d && d * -t <= -d
    decreases t
  {
    if t > 1 {
      ProductAtLeast(d, t - 1);
      assert d * t == d * (t - 1) + d;
      assert d * -t == d * -(t - 1) - d;
    }
  }

  /** Wrapping an intermediate sum first and the total afterwards is the same
      as wrapping the total once. */
  lemma Wrap64OfWrapped(x: int, y: int)
    ensures Wrap64(Wrap64(x) + y) == Wrap64(x + y)
  {
    Wrap64Congruent(x);
    var k := (x - Wrap64(x)) / TWO_TO_THE_64;
    assert x - Wrap64(x) == k * TWO_TO_THE_64;
    Wrap64Periodic(Wrap64(x) + y, k);
  }

  /** The bytes of an ASCII string literal. */
  function Ascii(s: string): Bytes {
    seq(|s|, i requires 0 <= i < |s| => (s[i] as int % 256) as byte)
  }

  lemma AsciiAppend(a: string, b: string)
    ensures Ascii(a + b) == Ascii(a) + Ascii(b)
  {
  }

  /** What a C routine handed `data` as a `const char*` reads: everything
      before the first NUL byte, or all of `data` when it holds none (the
      driver terminating every buffer it returns). */
  function CStr(data: Bytes): (r: Bytes)
    ensures r <= data
    ensures NUL !in r
    ensures |r| < |data| ==> data[|r|] == NUL
  {
    if |data| == 0 || data[0] == NUL then [] else [data[0]] + CStr(data[1..])
  }

  /** A buffer without NUL is read whole. */
  lemma CStrOfTerminated(data: Bytes)
    requires NUL !in data
    ensures CStr(data) == data
  {
  }

  /** Reading a C string is idempotent: the NUL-free prefix is its own prefix. */
  lemma CStrIdempotent(data: Bytes)
    ensures CStr(CStr(data)) == CStr(data)
  {
    CStrOfTerminated(CStr(data));
  }

  /** A buffer whose first `n` bytes hold no NUL is read at least that far. */
  lemma CStrKeepsPrefix(data: Bytes, n: nat)
    requires n <= |data| && NUL !in data[..n]
    ensures |CStr(data)| >= n && CStr(data)[..n] == data[..n]
  {
  }

  function Min(a: int, b: int): (m: int)
  {
    if a < b then a else b
  }
}
