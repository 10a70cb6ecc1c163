/** Writing numbers, tags and strings to an output stream. */
module NumberEncoders {
  import opened Bits
  import opened Wire
  import opened Numbers
  import opened CBits
  import opened OutStream

  /** The number still to be written after i bytes: the current group b, then low, then high
      above the bits of low that are left. */
  function Rest(i: nat, b: nat, low: nat, high: nat): nat
    requires i <= 4
  {
    b + 128 * low +
    (match i
     case 0 => 0x1_0000_0000 * high
     case 1 => 0x200_0000 * high
     case 2 => 0x4_0000 * high
     case 3 => 0x800 * high
     case _ => 0x10 * high)
  }

  /** b and low fit the bits of the low half that are left after i bytes. */
  predicate InLowHalf(i: nat, b: nat, low: nat) {
    && b < 128
    && match i
       case 0 => b + 128 * low < 0x1_0000_0000
       case 1 => b + 128 * low < 0x200_0000
       case 2 => b + 128 * low < 0x4_0000
       case 3 => b + 128 * low < 0x800
       case _ => b + 128 * low < 0x10
  }

  lemma NextGroup(i: nat, b: nat, low: nat, high: nat, next: nat, rest: nat)
    requires i < 4 && InLowHalf(i, b, low) && (low > 0 || high > 0)
    requires next < 128 && low == next + 128 * rest
    ensures InLowHalf(i + 1, next, rest)
    ensures Rest(i, b, low, high) == b + 128 * Rest(i + 1, next, rest, high)
    ensures Rest(i + 1, next, rest, high) > 0
  {
  }

  lemma WriteGroup(done: seq<byte>, b: byte, rest: nat)
    requires b < 128 && rest > 0
    ensures done + VarintBytes(b + 128 * rest) == (done + [128 + b]) + VarintBytes(rest)
  {
    assert (b + 128 * rest) / 128 == rest && (b + 128 * rest) % 128 == b;
    assert VarintBytes(b + 128 * rest) == [128 + b] + VarintBytes(rest);
  }

  /** byte |= 0x80; buffer[i] = byte: one more byte of v, of which rest is still to be written */
  method PutGroup(buffer: array<byte>, i: nat, b: byte, ghost v: nat, ghost rest: nat)
    requires i < buffer.Length && b < 128 && rest > 0
    requires VarintBytes(v) == buffer[..i] + VarintBytes(b + 128 * rest)
    modifies buffer
    ensures VarintBytes(v) == buffer[..i + 1] + VarintBytes(rest)
  {
    WriteGroup(buffer[..i], b, rest);
    var continued := Continue(b);
    buffer[i] := continued;
    assert buffer[..i + 1] == buffer[..i] + [continued];
  }

  lemma LastOfLowHalf(i: nat, b: nat, low: nat, high: nat)
    requires i <= 4 && InLowHalf(i, b, low) && (i == 4 || (low == 0 && high == 0))
    ensures Rest(i, b, low, high) == b + 16 * high
    ensures high > 0 ==> i == 4 && b < 16
  {
  }

  /** The first loop of pb_encode_varint_32: up to four groups from the low half. If there is a
      high half, four bits of the low half are left in b. */
  method EncodeLowHalf(low0: nat, high: nat, buffer: array<byte>) returns (i: nat, b: byte)
    requires low0 < TWO32 && buffer.Length == 10
    modifies buffer
    ensures i <= 4 && b < 128 && (high > 0 ==> i == 4 && b < 16)
    ensures VarintBytes(low0 + TWO32 * high) == buffer[..i] + VarintBytes(b + 16 * high)
  {
    ghost var v := low0 + TWO32 * high;
    var low;
    i := 0;
    b, low := TakeSeven(low0);
    assert Rest(0, b, low, high) == v;
    while i < 4 && (low != 0 || high != 0)
      invariant i <= 4 && InLowHalf(i, b, low)
      invariant VarintBytes(v) == buffer[..i] + VarintBytes(Rest(i, b, low, high))
      decreases 4 - i
    {
      var next, rest := TakeSeven(low);
      NextGroup(i, b, low, high, next, rest);
      PutGroup(buffer, i, b, v, Rest(i + 1, next, rest, high));
      i := i + 1;
      b, low := next, rest;
    }
    LastOfLowHalf(i, b, low, high);
  }

  /** high fits the bits that are left after i bytes, i at least 4. */
  predicate InHighHalf(i: nat, high: nat) {
    match i
    case 4 => high < 0x2000_0000
    case 5 => high < 0x40_0000
    case 6 => high < 0x8000
    case 7 => high < 0x100
    case 8 => high < 2
    case 9 => high == 0
    case _ => false
  }

  lemma NextHighGroup(i: nat, high: nat)
    requires InHighHalf(i, high) && high > 0
    ensures i < 9 && InHighHalf(i + 1, high / 128)
  {
  }

  /** The second loop of pb_encode_varint_32: the groups of the high half */
  method EncodeHighHalf(v: nat, b0: byte, high0: nat, buffer: array<byte>) returns (i: nat, b: byte)
    requires b0 < 128 && high0 < 0x2000_0000 && buffer.Length == 10
    requires VarintBytes(v) == buffer[..4] + VarintBytes(b0 + 128 * high0)
    modifies buffer
    ensures 4 <= i <= 9 && b < 128
    ensures VarintBytes(v) == buffer[..i] + [b]
  {
    var high := high0;
    i, b := 4, b0;
    while high != 0
      invariant 4 <= i <= 9 && b < 128 && InHighHalf(i, high)
      invariant VarintBytes(v) == buffer[..i] + VarintBytes(b + 128 * high)
      decreases high
    {
      NextHighGroup(i, high);
      PutGroup(buffer, i, b, v, high);
      i := i + 1;
      b, high := TakeSeven(high);
    }
  }

  /** pb_encode_varint_32: the canonical base-128 form of the 64-bit number, from its two
      halves, by way of a buffer of ten bytes */
  method EncodeVarint32(stream: OStream, low: nat, high: nat) returns (ok: bool)
    requires stream.Valid() && low < TWO32 && high < TWO32
    modifies stream, stream.buf
    ensures stream.Emits(ok, Some(VarintBytes(low + TWO32 * high)))
  {
    var buffer := new byte[10];
    var i, b := EncodeLowHalf(low, high, buffer);
    if high != 0 {
      b := JoinHighBits(b, high);
      var rest := ShiftThree(high);
      assert high == high % 8 + 8 * rest;
      i, b := EncodeHighHalf(low + TWO32 * high, b, rest, buffer);
    }
    buffer[i] := b;
    i := i + 1;
    assert buffer[..i] == buffer[..i - 1] + [b];
    ok := stream.Write(buffer[..i]);
  }

  /** pb_encode_varint */
  method EncodeVarint(stream: OStream, value: nat) returns (ok: bool)
    requires stream.Valid() && value < TWO64
    modifies stream, stream.buf
    ensures stream.Emits(ok, Some(VarintBytes(value)))
  {
    if value <= 0x7F {
      ok := stream.Write([value]);
    } else {
      ok := EncodeVarint32(stream, value % TWO32, value / TWO32);
    }
  }

  lemma PowersOf64()
    ensures Pow2(63) == TWO63
  {
    assert Pow2(8) == 256;
    assert Pow2(16) == 256 * Pow2(8);
    assert Pow2(24) == 256 * Pow2(16);
    assert Pow2(32) == 256 * Pow2(24);
    assert Pow2(40) == 256 * Pow2(32);
    assert Pow2(48) == 256 * Pow2(40);
    assert Pow2(56) == 256 * Pow2(48);
    assert Pow2(63) == 128 * Pow2(56);
  }

  lemma DroppedSign(v: nat, low: nat, high: nat)
    requires low < TWO63 && v == low + TWO63 * high
    ensures And(v, 0x7FFF_FFFF_FFFF_FFFF) == low
  {
    PowersOf64();
    LowMaskOfSum(low, high, 63);
  }

  /** v & (((uint64_t)-1) >> 1) */
  method DropSign(v: nat) returns (r: nat)
    requires v < TWO64
    ensures r == v % TWO63
  {
    DroppedSign(v, v % TWO63, v / TWO63);
    r := And(v, 0x7FFF_FFFF_FFFF_FFFF);
  }

  /** pb_encode_svarint: doubled with the sign bit dropped, and complemented if negative */
  method EncodeSvarint(stream: OStream, value: int) returns (ok: bool)
    requires stream.Valid() && -TWO63 <= value < TWO63
    modifies stream, stream.buf
    ensures stream.Emits(ok, Some(VarintBytes(Zigzag(value))))
  {
    var zigzagged: nat;
    if value < 0 {
      var dropped := DropSign(Unsigned64(value));
      zigzagged := TWO64 - 1 - 2 * dropped;
    } else {
      zigzagged := 2 * value;
    }
    ok := EncodeVarint(stream, zigzagged);
  }

  lemma LEStep(v: nat, k: nat)
    requires k > 0
    ensures LEBytes(v, k) == [v % 256] + LEBytes(v / 256, k - 1)
  {
  }

  lemma FourBytes(v: nat)
    ensures LEBytes(v, 4) == [v % 256, v / 256 % 256, v / 256 / 256 % 256, v / 256 / 256 / 256 % 256]
  {
    LEStep(v, 4);
    LEStep(v / 256, 3);
    LEStep(v / 256 / 256, 2);
    LEStep(v / 256 / 256 / 256, 1);
    assert LEBytes(v / 256 / 256 / 256 / 256, 0) == [];
  }

  /** pb_encode_fixed32 */
  method EncodeFixed32(stream: OStream, value: nat) returns (ok: bool)
    requires stream.Valid() && value < TWO32
    modifies stream, stream.buf
    ensures stream.Emits(ok, Some(LEBytes(value, 4)))
  {
    FourBytes(value);
    var v1 := value / 256;
    var v2 := v1 / 256;
    var v3 := v2 / 256;
    ok := stream.Write([value % 256, v1 % 256, v2 % 256, v3 % 256]);
  }

  lemma EightBytes(v: nat, v4: nat)
    requires v4 == v / 256 / 256 / 256 / 256
    ensures LEBytes(v, 8)
            == [v % 256, v / 256 % 256, v / 256 / 256 % 256, v / 256 / 256 / 256 % 256] + LEBytes(v4, 4)
  {
    LEStep(v, 8);
    LEStep(v / 256, 7);
    LEStep(v / 256 / 256, 6);
    LEStep(v / 256 / 256 / 256, 5);
  }

  /** pb_encode_fixed64 */
  method EncodeFixed64(stream: OStream, value: nat) returns (ok: bool)
    requires stream.Valid() && value < TWO64
    modifies stream, stream.buf
    ensures stream.Emits(ok, Some(LEBytes(value, 8)))
  {
    var v1 := value / 256;
    var v2 := v1 / 256;
    var v3 := v2 / 256;
    var v4 := v3 / 256;
    var v5 := v4 / 256;
    var v6 := v5 / 256;
    var v7 := v6 / 256;
    EightBytes(value, v4);
    FourBytes(v4);
    ok := stream.Write([value % 256, v1 % 256, v2 % 256, v3 % 256] + [v4 % 256, v5 % 256, v6 % 256, v7 % 256]);
  }
}
