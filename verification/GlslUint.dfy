/** Unsigned 32-bit words as the generated shaders use them: GLSL `uint` with wrapping addition,
    shifts that drop what leaves the word, and bitwise `&`, `|`, `~` defined bit by bit. */
module GlslUint {

  const TWO16: nat := 0x1_0000
  const TWO32: nat := 0x1_0000_0000

  type uint32 = n: nat | n < 0x1_0000_0000
  type uint16 = n: nat | n < 0x1_0000

  function Pow2(k: nat): (p: nat)
    ensures p >= 1
  {
    if k == 0 then 1 else 2 * Pow2(k - 1)
  }

  function Add(x: uint32, y: uint32): uint32 {
    (x + y) % TWO32
  }

  /** The shaders shift by nothing or by half a word. */
  function Shr(x: uint32, k: nat): uint32
    requires k == 0 || k == 16
  {
    if k == 0 then x else x / TWO16
  }

  function Shl(x: uint32, k: nat): uint32
    requires k == 0 || k == 16
  {
    if k == 0 then x else (x * TWO16) % TWO32
  }

  function Not(x: uint32): uint32 {
    0xFFFF_FFFF - x
  }

  function And(x: nat, y: nat): nat
    decreases x
  {
    if x == 0 || y == 0 then 0
    else 2 * And(x / 2, y / 2) + (if x % 2 == 1 && y % 2 == 1 then 1 else 0)
  }

  function Or(x: nat, y: nat): nat
    decreases x + y
  {
    if x == 0 then y else if y == 0 then x
    else 2 * Or(x / 2, y / 2) + (if x % 2 == 1 || y % 2 == 1 then 1 else 0)
  }

  lemma {:induction false} Pow2Add(a: nat, b: nat)
    ensures Pow2(a + b) == Pow2(a) * Pow2(b)
    decreases a
  {
    if a > 0 {
      Pow2Add(a - 1, b);
    }
  }

  // The mask and merge lemmas double the width of the field they speak of at each step, so that every
  // division is by a constant.

  /** Masking: a field of m = 2, 4, 16, 256, 65536 low ones under the rest z of the mask. */
  lemma And1(x: nat, z: nat)
    ensures And(x, 2 * z + 1) == 2 * And(x / 2, z) + x % 2
    ensures And(x, 2 * z) == 2 * And(x / 2, z)
  {
    assert (2 * z + 1) / 2 == z && (2 * z) / 2 == z;
  }

  lemma And2(x: nat, z: nat)
    ensures And(x, 4 * z + 3) == 4 * And(x / 4, z) + x % 4
    ensures And(x, 4 * z) == 4 * And(x / 4, z)
  {
    hide And;
    And1(x, 2 * z + 1);
    And1(x, 2 * z);
    And1(x / 2, z);
    assert x / 2 / 2 == x / 4;
  }

  lemma And4(x: nat, z: nat)
    ensures And(x, 16 * z + 15) == 16 * And(x / 16, z) + x % 16
    ensures And(x, 16 * z) == 16 * And(x / 16, z)
  {
    hide And;
    And2(x, 4 * z + 3);
    And2(x, 4 * z);
    And2(x / 4, z);
    assert x / 4 / 4 == x / 16;
  }

  lemma And8(x: nat, z: nat)
    ensures And(x, 256 * z + 255) == 256 * And(x / 256, z) + x % 256
    ensures And(x, 256 * z) == 256 * And(x / 256, z)
  {
    hide And;
    And4(x, 16 * z + 15);
    And4(x, 16 * z);
    And4(x / 16, z);
    assert x / 16 / 16 == x / 256;
  }

  lemma And16(x: nat, z: nat)
    ensures And(x, TWO16 * z + 0xFFFF) == TWO16 * And(x / TWO16, z) + x % TWO16
    ensures And(x, TWO16 * z) == TWO16 * And(x / TWO16, z)
  {
    hide And;
    And8(x, 256 * z + 255);
    And8(x, 256 * z);
    And8(x / 256, z);
    assert x / 256 / 256 == x / TWO16;
  }

  lemma AndZero(x: nat)
    ensures And(x, 0) == 0
  {
  }

  /** The masks of the shaders: the low half, the high half and the lowest bit of a word. */
  lemma AndMasks(x: uint32)
    ensures And(x, 0xFFFF) == x % TWO16
    ensures And(x, 0xFFFF_0000) == TWO16 * (x / TWO16)
    ensures And(x, 1) == x % 2
  {
    hide And;
    AndZero(x);
    AndZero(x / TWO16);
    AndZero(x / 2);
    And16(x, 0);
    And16(x, 0xFFFF);
    And16(x / TWO16, 0);
    And1(x, 0);
    assert TWO16 * 0xFFFF == 0xFFFF_0000;
  }

  /** Or-ing words that share no bit is addition. */
  lemma {:induction false} OrIsSum(x: nat, y: nat)
    requires And(x, y) == 0
    ensures Or(x, y) == Or(y, x) == x + y
    decreases x
  {
    if x != 0 && y != 0 {
      OrIsSum(x / 2, y / 2);
    }
  }

  /** Or-ing a high half with a low half is putting them side by side. */
  lemma OrHalves(hi: uint16, lo: uint16)
    ensures Or(TWO16 * hi, lo) == Or(lo, TWO16 * hi) == TWO16 * hi + lo
  {
    And16(lo, hi);
    OrIsSum(lo, TWO16 * hi);
  }

  lemma ShiftBy16(x: uint32)
    ensures Shr(x, 16) == x / TWO16
    ensures Shl(x, 16) == TWO16 * (x % TWO16)
  {
  }
}
