// Machine words of the 32-bit target, as ranges of mathematical integers.
// Wrap-around is always written out with the operations below.

module Words {

  type u8 = x: int | 0 <= x < 0x100
  type u16 = x: int | 0 <= x < 0x1_0000
  type u32 = x: int | 0 <= x < 0x1_0000_0000

  const U32_MAX: u32 := 0xFFFF_FFFF

  datatype Option<T> = None | Some(value: T)

  /** The low 32 bits of an unbounded count. */
  function Low32(n: nat): u32 {
    n % 0x1_0000_0000
  }

  /** Unsigned 32-bit addition, wrapping around. */
  function Add32(a: u32, b: u32): u32 {
    if a + b < 0x1_0000_0000 then a + b else a + b - 0x1_0000_0000
  }

  /** Unsigned 32-bit subtraction, wrapping around. */
  function Sub32(a: u32, b: u32): u32 {
    if a >= b then a - b else a - b + 0x1_0000_0000
  }

  /** A wrapped counter stays the low word of the unbounded count. */
  lemma CountUp(n: nat)
    ensures Add32(Low32(n), 1) == Low32(n + 1)
  {
  }

  /** Bitwise and. */
  function And(a: nat, b: nat): (r: nat)
    ensures r <= a && r <= b
  {
    if a == 0 || b == 0 then 0
    else (if a % 2 == 1 && b % 2 == 1 then 1 else 0) + 2 * And(a / 2, b / 2)
  }

  function Pow2(n: nat): nat {
    if n == 0 then 1 else 2 * Pow2(n - 1)
  }

  lemma {:induction false} AndOnes(n: nat, x: nat)
    requires x < Pow2(n)
    ensures And(Pow2(n) - 1, x) == x
  {
    if n > 0 && x > 0 {
      assert (Pow2(n) - 1) / 2 == Pow2(n - 1) - 1;
      AndOnes(n - 1, x / 2);
    }
  }

  lemma AndAllOnes(x: u32)
    ensures And(U32_MAX, x) == x
  {
    assert Pow2(8) == 0x100 by { assert Pow2(4) == 16 && Pow2(6) == 64; }
    assert Pow2(16) == 0x1_0000 by { assert Pow2(10) == 0x400 && Pow2(12) == 0x1000 && Pow2(14) == 0x4000; }
    assert Pow2(24) == 0x100_0000 by { assert Pow2(18) == 0x4_0000 && Pow2(20) == 0x10_0000 && Pow2(22) == 0x40_0000; }
    assert Pow2(32) == 0x1_0000_0000 by {
      assert Pow2(26) == 0x400_0000 && Pow2(28) == 0x1000_0000 && Pow2(30) == 0x4000_0000;
    }
    AndOnes(32, x);
  }
}
