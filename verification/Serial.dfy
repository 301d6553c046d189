/** 32-bit unsigned arithmetic and the wrapping serial-number order of the protocol.
    `Diff` orders like section 3.2 of RFC 1982. */
module Serial {
  const MODULUS: int := 0x1_0000_0000
  const HALF: int := 0x8000_0000

  type Byte = x: int | 0 <= x < 0x100
  type U16 = x: int | 0 <= x < 0x1_0000
  type U32 = x: int | 0 <= x < 0x1_0000_0000
  type U64 = x: int | 0 <= x < 0x1_0000_0000_0000_0000

  type Bytes = seq<Byte>

  // A C conversion to a 32-bit unsigned integer.
  function Wrap(x: int): U32 {
    x % 0x1_0000_0000
  }

  // A C conversion of a 32-bit unsigned value to a signed one.
  function Signed(x: U32): int {
    if x < HALF then x else x - MODULUS
  }

  // Unsigned addition of two 32-bit values.
  function Add(x: U32, y: U32): U32 {
    if x + y < MODULUS then x + y else x + y - MODULUS
  }

  // `k` increments of a 32-bit counter.
  function Advance(x: U32, k: nat): U32 {
    if k == 0 then x else Add(Advance(x, k - 1), 1)
  }

  // How many increments lead from `base` to `x`.
  function Off(base: U32, x: U32): U32 {
    if base <= x then x - base else x - base + MODULUS
  }

  // The difference `later - earlier` reduced to 32 bits and read as signed.
  function Diff(later: U32, earlier: U32): int {
    Signed(Off(earlier, later))
  }

  function Min(x: int, y: int): int {
    if x <= y then x else y
  }

  function Max(x: int, y: int): int {
    if x >= y then x else y
  }

  // C division of a signed value by two: towards zero.
  function HalfTowardsZero(x: int): int {
    if x >= 0 then x / 2 else -((-x) / 2)
  }

  // Inside any window of fewer than 2^31 serial numbers, `Diff` is the plain distance, so its
  // sign decides the order of the window and wrap-around is invisible.
  lemma DiffInWindow(base: U32, x: U32, y: U32)
    requires Off(base, x) <= HALF && Off(base, y) <= HALF && !(Off(base, x) == HALF && Off(base, y) == 0)
    ensures Diff(x, y) == Off(base, x) - Off(base, y)
  {
  }

  // Moving the base of a window forward shortens every distance by the same amount.
  lemma OffRebase(base: U32, newBase: U32, x: U32)
    requires Off(base, newBase) <= Off(base, x)
    ensures Off(newBase, x) == Off(base, x) - Off(base, newBase)
  {
  }

  lemma {:induction false} AdvanceOff(base: U32, x: U32, k: nat)
    requires Off(base, x) + k < MODULUS
    ensures Off(base, Advance(x, k)) == Off(base, x) + k
  {
    if k > 0 {
      AdvanceOff(base, x, k - 1);
    }
  }

  lemma WrapSmall(x: nat)
    requires x < MODULUS
    ensures Wrap(x) == x && (x < HALF ==> Signed(Wrap(x)) == x)
  {
  }

  lemma WrapStep(x: int)
    ensures Add(Wrap(x), 1) == Wrap(x + 1)
  {
    assert x == x / MODULUS * MODULUS + Wrap(x);
    if Wrap(x) == MODULUS - 1 {
      assert x + 1 == (x / MODULUS + 1) * MODULUS;
    }
  }
}
