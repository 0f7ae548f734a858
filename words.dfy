/** Machine integers of the simulator: C `int` (32-bit two's complement, wrapping),
    `unsigned int` (32 bits), `int16_t` and bytes, modelled on unbounded integers with
    every wrap-around written out. */
module Words {

  const WORD: int := 0x1_0000_0000  // 2^32
  const HALF: int := 0x8000_0000    // 2^31

  type u32 = x: int | 0 <= x < 0x1_0000_0000
  type i32 = x: int | -0x8000_0000 <= x < 0x8000_0000
  type i16 = x: int | -0x8000 <= x < 0x8000
  type u8 = x: int | 0 <= x < 0x100

  datatype Option<+T> = None | Some(value: T)

  /** Conversion of an exact integer result to C `int`: the one 32-bit value that is
      congruent to `x` modulo 2^32. */
  function Wrap(x: int): (r: i32)
    ensures -HALF <= x < HALF ==> r == x
  {
    if -HALF <= x < HALF then x
    else
      var u := x % WORD;
      if u < HALF then u else u - WORD
  }

  /** The bit pattern of a C `int` read as `unsigned int`. */
  function Unsigned(x: i32): (r: u32)
    ensures x >= 0 ==> r == x
  {
    if x < 0 then x + WORD else x
  }

  /** The bit pattern of an `unsigned int` read as a C `int`. */
  function Signed(x: u32): (r: i32)
    ensures x < HALF ==> r == x
  {
    if x < HALF then x else x - WORD
  }

  lemma SignedUnsigned(x: i32)
    ensures Signed(Unsigned(x)) == x
  {
  }

  lemma UnsignedSigned(x: u32)
    ensures Unsigned(Signed(x)) == x
  {
  }

  /** The bit pattern of a wrapped result is the exact result modulo 2^32. */
  lemma UnsignedWrap(x: int)
    ensures Unsigned(Wrap(x)) == x % WORD
  {
  }

  lemma MulAtLeast(a: int, d: int)
    requires a >= 1 && d > 0
    ensures a * d >= d
  {
  }

  /** Quotient and remainder are determined by any decomposition x == q * d + r with
      0 <= r < d. */
  lemma DivModUnique(x: int, d: int, q: int, r: int)
    requires d > 0 && 0 <= r < d && x == q * d + r
    ensures x / d == q && x % d == r
  {
    var q', r' := x / d, x % d;
    assert x == q' * d + r';
    assert (q' - q) * d == r - r';
    if q' > q {
      MulAtLeast(q' - q, d);
    } else if q' < q {
      assert (q - q') * d == r' - r;
      MulAtLeast(q - q', d);
    }
  }

  /** Reducing modulo 2^32 before an addition or after it gives the same residue: what
      makes two `unsigned int` additions in a row one addition. */
  lemma AddMod(x: int, y: int)
    ensures (x % WORD + y) % WORD == (x + y) % WORD
  {
    var q, r := x / WORD, x % WORD;
    DivModUnique(x + y, WORD, q + (r + y) / WORD, (r + y) % WORD);
  }

  /** The bit of `x` whose weight is `weight` (a power of two, as in the C mask
      `x & weight`), in (infinite) two's complement: for a positive divisor Dafny's
      division rounds toward minus infinity, which is what an arithmetic shift does. */
  predicate Bit(x: int, weight: nat)
    requires weight > 0
  {
    (x / weight) % 2 == 1
  }

  /** Bit 31 of a value depends only on its residue modulo 2^32, and of a value in
      [0, 2^32) it says whether the value is at least 2^31. */
  lemma Bit31(x: int)
    ensures Bit(x, HALF) <==> Bit(x % WORD, HALF)
    ensures Bit(x % WORD, HALF) <==> x % WORD >= HALF
  {
    var q, r := x / WORD, x % WORD;
    DivModUnique(r, HALF, r / HALF, r % HALF);
    DivModUnique(x, HALF, 2 * q + r / HALF, r % HALF);
  }
}
