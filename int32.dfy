/** JavaScript's 32-bit integer view of a Number, as used by the bitwise
    operators: both operands of `|` go through ToInt32, the OR is taken on
    the 32-bit two's-complement patterns, and the result is read back as a
    signed 32-bit integer. Bit patterns are kept as integers in
    0 .. 2^32 - 1 and OR is defined bit by bit. */
module Int32 {

  const TWO_31: int := 0x8000_0000
  const TWO_32: int := 0x1_0000_0000

  predicate InRange(x: int) {
    -TWO_31 <= x < TWO_31
  }

  function Pow2(k: nat): (p: nat)
    ensures 0 < p
  {
    if k == 0 then 1 else 2 * Pow2(k - 1)
  }

  /** ToInt32 on an integral Number: reduce modulo 2^32 into the signed
      range. */
  function ToInt32(n: int): (r: int)
    ensures InRange(r)
    ensures (n - r) % TWO_32 == 0
    ensures InRange(n) ==> r == n
  {
    var m := n % TWO_32;
    if m >= TWO_31 then m - TWO_32 else m
  }

  /** The two's-complement bit pattern of a signed 32-bit integer. */
  function Bits(x: int): (u: nat)
    requires InRange(x)
    ensures u < TWO_32
    ensures 0 <= x ==> u == x
  {
    if x < 0 then x + TWO_32 else x
  }

  /** The signed 32-bit integer a bit pattern stands for. */
  function Signed(u: nat): (x: int)
    requires u < TWO_32
    ensures InRange(x)
    ensures Bits(x) == u
  {
    if u >= TWO_31 then u - TWO_32 else u
  }

  /** The OR of the low k bits of x and y, bit by bit from the least
      significant one. */
  function OrBits(x: nat, y: nat, k: nat): (r: nat)
    ensures r < Pow2(k)
  {
    if k == 0 then 0
    else 2 * OrBits(x / 2, y / 2, k - 1) + (if x % 2 == 1 || y % 2 == 1 then 1 else 0)
  }

  /** `x | y` on two Numbers that ToInt32 has already reduced. */
  function BitOr(x: int, y: int): (r: int)
    requires InRange(x) && InRange(y)
    ensures InRange(r)
  {
    Pow2Is32();
    Signed(OrBits(Bits(x), Bits(y), 32))
  }

  lemma Pow2Is32()
    ensures Pow2(32) == TWO_32
  {
    assert Pow2(8) == 256;
    Pow2Add(8, 8);
    Pow2Add(16, 16);
  }

  lemma {:induction false} Pow2Add(a: nat, b: nat)
    ensures Pow2(a + b) == Pow2(a) * Pow2(b)
  {
    if a > 0 {
      Pow2Add(a - 1, b);
    }
  }

  /** OR with nothing set leaves the low k bits of y. */
  lemma {:induction false} ZeroOrBits(y: nat, k: nat)
    requires y < Pow2(k)
    ensures OrBits(0, y, k) == y
  {
    if k > 0 {
      ZeroOrBits(y / 2, k - 1);
    }
  }

  /** Setting bit j of a number whose bits all lie below j adds 2^j. */
  lemma {:induction false} OrBitsHighBit(b: nat, j: nat, k: nat)
    requires j < k && b < Pow2(j)
    ensures OrBits(b, Pow2(j), k) == b + Pow2(j)
  {
    if j == 0 {
      assert b == 0;
      ZeroOrBits(1, k);
    } else {
      assert Pow2(j) / 2 == Pow2(j - 1) && Pow2(j) % 2 == 0;
      OrBitsHighBit(b / 2, j - 1, k - 1);
    }
  }

  /** OR-ing 256 into a byte sets bit 8, which a byte never has: the result
      is 256 + b. */
  lemma OrByteWith256(b: int)
    requires 0 <= b < 256
    ensures BitOr(b, 256) == 256 + b
  {
    assert Pow2(8) == 256;
    OrBitsHighBit(b, 8, 32);
  }
}
