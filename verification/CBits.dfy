/** The bit expressions of the varint codec, each with the arithmetic it stands for. */
module CBits {
  import opened Bits
  import opened Wire
  import opened Descriptor

  /** (pb_byte_t)(x & 0x7F) */
  method LowSeven(x: nat) returns (r: byte)
    ensures r == x % 128
  {
    assert Pow2(7) == 128;
    LowMaskOfSum(x % 128, x / 128, 7);
    r := And(x, 0x7F);
  }

  /** x >> 7 */
  method ShiftSeven(x: nat) returns (r: nat)
    ensures r == x / 128
  {
    assert Pow2(7) == 128;
    ShrOfSum(x % 128, x / 128, 7);
    r := Shr(x, 7);
  }

  /** The low seven bits, and the others */
  method TakeSeven(x: nat) returns (b: byte, rest: nat)
    ensures b < 128 && x == b + 128 * rest
  {
    b := LowSeven(x);
    rest := ShiftSeven(x);
  }

  /** x >> 3 */
  method ShiftThree(x: nat) returns (r: nat)
    ensures r == x / 8
  {
    assert Pow2(3) == 8;
    ShrOfSum(x % 8, x / 8, 3);
    r := Shr(x, 3);
  }

  /** b | 0x80 for a seven-bit b */
  method Continue(b: byte) returns (r: byte)
    requires b < 128
    ensures r == b + 128
  {
    assert Pow2(7) == 128;
    ShrOfSum(0, 1, 7);
    OrDisjoint(b, 0x80, 7);
    r := Or(b, 0x80);
  }

  /** b | ((high & 0x07) << 4) for a four-bit b */
  method JoinHighBits(b: byte, high: nat) returns (r: byte)
    requires b < 16
    ensures r == b + 16 * (high % 8)
  {
    assert Pow2(3) == 8 && Pow2(4) == 16;
    LowMaskOfSum(high % 8, high / 8, 3);
    Above(b, high % 8, 4);
    r := Or(b, Shl(And(high, 0x07), 4));
  }

  lemma TopBit(b: byte)
    ensures And(b, 0x80) == b - b % 128
  {
    assert Pow2(7) == 128 && Pow2(8) == 256;
    AndHighMask(b, 7, 8);
    ShrOfSum(b % 128, b / 128, 7);
  }

  /** (b & 0x80) != 0 */
  method Continues(b: byte) returns (r: bool)
    ensures r == (b >= 128)
  {
    TopBit(b);
    r := And(b, 0x80) != 0;
  }

  /** result | (x << bitpos), where result still fits below bitpos */
  method PutAbove(result: nat, x: nat, bitpos: nat) returns (r: nat)
    requires result < Pow2(bitpos)
    ensures r == result + Pow2(bitpos) * x
  {
    Above(result, x, bitpos);
    r := Or(result, Shl(x, bitpos));
  }
}
