/** Reading numbers, tags, substreams and unknown fields from an input stream. */
module NumberDecoders {
  import opened Bits
  import opened Wire
  import opened Schema
  import opened Numbers
  import opened DecodeSpec
  import opened CBits
  import opened VarintRuns
  import opened InStream

  //
  // Bit expressions
  //

  /** b & 0x70 and b & 0x78 */
  method MiddleBits(b: byte) returns (x: nat, y: nat)
    ensures x == b % 128 - b % 16 && y == b % 128 - b % 8
  {
    assert Pow2(3) == 8 && Pow2(4) == 16 && Pow2(7) == 128;
    AndMiddleMask(b, 4, 7);
    AndMiddleMask(b, 3, 7);
    ShrOfSum(b % 128, b / 128, 7);
    ShrOfSum(b % 16, b / 16, 4);
    ShrOfSum(b % 8, b / 8, 3);
    x, y := And(b, 0x70), And(b, 0x78);
  }

  lemma Low7(a: nat, g: nat)
    requires g < 128
    ensures (128 * a + g) % 128 == g
  {
  }

  lemma MiddleSums(b: nat)
    ensures b % 128 == 16 * (b / 16 % 8) + b % 16 == 8 * (b / 8 % 16) + b % 8
  {
    var s, t := b / 16, b / 8;
    assert b == 16 * s + b % 16 && s == 8 * (s / 8) + s % 8;
    assert b == 8 * t + b % 8 && t == 16 * (t / 16) + t % 16;
    Low7(s / 8, 16 * (s % 8) + b % 16);
    Low7(t / 16, 8 * (t % 16) + b % 8);
  }

  /** !((b & 0x70) != 0 && (b & 0x78) != 0x78) */
  method FifthByteFits(b: byte) returns (r: bool)
    ensures r <==> b / 16 % 8 == 0 || b / 8 % 16 == 15
  {
    var x, y := MiddleBits(b);
    MiddleSums(b);
    r := !(x != 0 && y != 0x78);
  }

  /** x & 0x0F */
  method LowFour(x: nat) returns (r: nat)
    ensures r == x % 16
  {
    assert Pow2(4) == 16;
    LowMaskOfSum(x % 16, x / 16, 4);
    r := And(x, 0x0F);
  }

  /** x & 0x07 */
  method LowThree(x: nat) returns (r: nat)
    ensures r == x % 8
  {
    assert Pow2(3) == 8;
    LowMaskOfSum(x % 8, x / 8, 3);
    r := And(x, 0x07);
  }

  lemma SomePowers()
    ensures Pow2(31) == 0x8000_0000
  {
    assert Pow2(8) == 256;
    assert Pow2(16) == 256 * Pow2(8);
    assert Pow2(24) == 256 * Pow2(16);
    assert Pow2(31) == 128 * Pow2(24);
  }

  /** (x >> 31) != 0 */
  method Bit31Set(x: nat) returns (r: bool)
    ensures r == (x / 0x8000_0000 != 0)
  {
    SomePowers();
    ShrOfSum(x % 0x8000_0000, x / 0x8000_0000, 31);
    r := Shr(x, 31) != 0;
  }

  /** (b & 0xFE) != 0 */
  method MoreThanOne(b: byte) returns (r: bool)
    ensures r == (b >= 2)
  {
    assert Pow2(1) == 2 && Pow2(8) == 256;
    AndHighMask(b, 1, 8);
    ShrOfSum(b % 2, b / 2, 1);
    r := And(b, 0xFE) != 0;
  }

  //
  // Varints
  //

  /** The body of the loop of pb_decode_varint32_eof, for its i-th byte */
  method AddGroup32(result: nat, bitpos: nat, b: byte, ghost i: nat) returns (ok: bool, r: nat)
    requires 1 <= i <= 10 && bitpos == 7 * i
    requires i < 5 ==> result < Pow128(i)
    ensures ok <==> WithGroup(result, i, b).Some?
    ensures ok ==> r == WithGroup(result, i, b).value
  {
    GroupPosition(i);
    var low := LowSeven(b);
    if bitpos >= 32 {
      var signExtension := if bitpos < 63 then 0xFF else 0x01;
      var negative := Bit31Set(result);
      var validExtension := low == 0 || (negative && b == signExtension);
      ok := !(bitpos >= 64 || !validExtension);
      r := result;
    } else if bitpos == 28 {
      ok := FifthByteFits(b);
      var nibble := LowFour(b);
      FourGroups();
      r := PutAbove(result, nibble, bitpos);
    } else {
      ok := true;
      r := PutAbove(result, low, bitpos);
    }
  }

  /** The do-while loop of pb_decode_varint32_eof, after the first byte of s */
  method MoreGroups32(stream: IStream, ghost s: seq<byte>, first: nat) returns (ok: bool, result: nat)
    requires stream.Valid() && s != [] && s[0] >= 128 && Partial32(s, 1, first) && stream.Rest() == s[1..]
    modifies stream
    ensures stream.Reads(ok, Varint32(s))
    ensures ok ==> result == Varint32(s).value
    ensures stream.state <= old(stream.state) + 10
  {
    ghost var i := 1;
    var bitpos := 7;
    result := first;
    while true
      invariant Run(s, i) && Partial32(s, i, result) && bitpos == 7 * i
      invariant stream.Moved() && stream.state == old(stream.state) + i - 1 && stream.Rest() == s[i..]
      decreases stream.bytesLeft
    {
      var b;
      ok, b := stream.ReadByte();
      if !ok {
        Unfinished(s);
        return false, 0;
      }
      NextGroup32(s, i, result);
      ok, result := AddGroup32(result, bitpos, b, i);
      if !ok {
        Refused32(s, i);
        return false, 0;
      }
      bitpos := bitpos + 7;
      i := i + 1;
      var more := Continues(b);
      if !more {
        Accepted32(s, i - 1, result);
        return true, result;
      }
    }
  }

  /** pb_decode_varint32_eof: the 32-bit varint, in at most eleven reads; at the end of the
      input exactly if there was nothing to read. */
  method DecodeVarint32Eof(stream: IStream) returns (ok: bool, dest: nat, eof: bool)
    requires stream.Valid()
    modifies stream
    ensures stream.Reads(ok, Varint32(old(stream.Rest())))
    ensures ok ==> dest == Varint32(old(stream.Rest())).value
    ensures !ok ==> eof == (old(stream.bytesLeft) == 0)
    ensures stream.state <= old(stream.state) + 11
  {
    ghost var s := stream.Rest();
    eof := false;
    var b;
    ok, b := stream.ReadByte();
    if !ok {
      if stream.bytesLeft == 0 {
        eof := true;
      }
      return false, 0, eof;
    }
    FirstGroup(s);
    var result;
    var more := Continues(b);
    if !more {
      result := b;
      Accepted32(s, 0, b);
    } else {
      result := LowSeven(b);
      ok, result := MoreGroups32(stream, s, result);
      if !ok {
        return false, 0, false;
      }
    }
    return true, result, false;
  }

  /** pb_decode_varint32 */
  method DecodeVarint32(stream: IStream) returns (ok: bool, dest: nat)
    requires stream.Valid()
    modifies stream
    ensures stream.Reads(ok, Varint32(old(stream.Rest())))
    ensures ok ==> dest == Varint32(old(stream.Rest())).value
    ensures stream.state <= old(stream.state) + 11
  {
    var eof;
    ok, dest, eof := DecodeVarint32Eof(stream);
  }

  /** result |= (uint64_t)(b & 0x7F) << bitpos */
  method AddGroup64(result: nat, bitpos: nat, b: byte, ghost s: seq<byte>, ghost i: nat) returns (r: nat)
    requires i < |s| && b == s[i] && result == Groups(s[..i]) && bitpos == 7 * i
    ensures r == Groups(s[..i + 1])
  {
    NextGroup64(s, i);
    GroupPosition(i);
    var low := LowSeven(b);
    r := PutAbove(result, low, bitpos);
  }

  /** One more byte in the loop of pb_decode_varint */
  method NextGroup(stream: IStream, bitpos: nat, result: nat, ghost s: seq<byte>, ghost i: nat)
    returns (ok: bool, b: byte, r: nat)
    requires stream.Valid() && i <= 9 && i <= |s| && stream.Rest() == s[i..] && Run(s, i)
    requires result == Groups(s[..i]) && bitpos == 7 * i
    modifies stream
    ensures stream.Moved() && stream.state <= old(stream.state) + 1
    ensures if ok then stream.state == old(stream.state) + 1 && i < |s| && b == s[i] && stream.Rest() == s[i + 1..]
                       && (i == 9 ==> b < 2) && r == Groups(s[..i + 1])
            else Varint64(s).Fail?
  {
    r := result;
    ok, b := stream.ReadByte();
    if !ok {
      Unfinished(s);
      return;
    }
    var tooBig := MoreThanOne(b);
    if bitpos >= 63 && tooBig {
      Refused64(s);
      return false, b, r;
    }
    r := AddGroup64(result, bitpos, b, s, i);
  }

  /** pb_decode_varint: the 64-bit varint, in at most ten reads */
  method DecodeVarint(stream: IStream) returns (ok: bool, dest: nat)
    requires stream.Valid()
    modifies stream
    ensures stream.Reads(ok, Varint64(old(stream.Rest())))
    ensures ok ==> dest == Varint64(old(stream.Rest())).value
    ensures stream.state <= old(stream.state) + 10
  {
    ghost var s, i := stream.Rest(), 0;
    var bitpos, result := 0, 0;
    while true
      invariant i <= 9 && Run(s, i) && result == Groups(s[..i]) && bitpos == 7 * i
      invariant stream.Moved() && stream.state == old(stream.state) + i && stream.Rest() == s[i..]
      decreases stream.bytesLeft
    {
      var b;
      ok, b, result := NextGroup(stream, bitpos, result, s, i);
      if !ok {
        return false, 0;
      }
      bitpos := bitpos + 7;
      i := i + 1;
      var more := Continues(b);
      if !more {
        Accepted64(s, i - 1);
        return true, result;
      }
    }
  }

  /** pb_decode_svarint */
  method DecodeSvarint(stream: IStream) returns (ok: bool, dest: int)
    requires stream.Valid()
    modifies stream
    ensures stream.Reads(ok, Varint64(old(stream.Rest())))
    ensures ok ==> dest == UnZigzag(Varint64(old(stream.Rest())).value)
  {
    var value;
    ok, value := DecodeVarint(stream);
    dest := 0;
    if ok {
      var half: int := value / 2;
      dest := if value % 2 == 1 then -half - 1 else half;
    }
  }

  /** pb_decode_bool */
  method DecodeBool(stream: IStream) returns (ok: bool, dest: int)
    requires stream.Valid()
    modifies stream
    ensures stream.Reads(ok, DecodeNum(Bool, 1, old(stream.Rest())))
    ensures ok ==> dest == DecodeNum(Bool, 1, old(stream.Rest())).value
  {
    var value;
    ok, value := DecodeVarint32(stream);
    dest := if value != 0 then 1 else 0;
  }

  //
  // Words
  //

  function Word(b0: nat, b1: nat, b2: nat, b3: nat): nat {
    b0 + 0x100 * b1 + 0x1_0000 * b2 + 0x100_0000 * b3
  }

  lemma FromFourBytes(d: seq<byte>)
    requires |d| >= 4
    ensures FromLE(d) == Word(d[0], d[1], d[2], d[3]) + TWO32 * FromLE(d[4..])
  {
    assert d[1..][1..] == d[2..] && d[2..][1..] == d[3..] && d[3..][1..] == d[4..];
    assert FromLE(d[3..]) == d[3] + 256 * FromLE(d[4..]);
    assert FromLE(d[2..]) == d[2] + 256 * FromLE(d[3..]);
    assert FromLE(d[1..]) == d[1] + 256 * FromLE(d[2..]);
  }

  /** pb_decode_fixed32 */
  method DecodeFixed32(stream: IStream) returns (ok: bool, dest: nat)
    requires stream.Valid()
    modifies stream
    ensures stream.Reads(ok, DecodeNum(Fixed32, 4, old(stream.Rest())))
    ensures ok ==> dest == DecodeNum(Fixed32, 4, old(stream.Rest())).value
  {
    var d;
    ok, d := stream.Read(4);
    if !ok {
      return false, 0;
    }
    FromFourBytes(d);
    assert d[4..] == [];
    dest := Word(d[0], d[1], d[2], d[3]);
  }

  /** pb_decode_fixed64 */
  method DecodeFixed64(stream: IStream) returns (ok: bool, dest: nat)
    requires stream.Valid()
    modifies stream
    ensures stream.Reads(ok, DecodeNum(Fixed64, 8, old(stream.Rest())))
    ensures ok ==> dest == DecodeNum(Fixed64, 8, old(stream.Rest())).value
  {
    var d;
    ok, d := stream.Read(8);
    if !ok {
      return false, 0;
    }
    FromFourBytes(d);
    FromFourBytes(d[4..]);
    assert d[4..][4..] == [];
    dest := Word(d[0], d[1], d[2], d[3]) + TWO32 * Word(d[4], d[5], d[6], d[7]);
  }

  //
  // Casts to the field's size
  //

  /** (uintN_t)v */
  function UnsignedCast(v: nat, size: nat): nat {
    if size == 8 then v % TWO64 else if size == 4 then v % TWO32
    else if size == 2 then v % 0x1_0000 else v % 0x100
  }

  /** (intN_t)n */
  function SignedCast(n: int, size: nat): int {
    if size == 8 then (if n % TWO64 >= TWO63 then n % TWO64 - TWO64 else n % TWO64)
    else if size == 4 then (if n % TWO32 >= 0x8000_0000 then n % TWO32 - TWO32 else n % TWO32)
    else if size == 2 then (if n % 0x1_0000 >= 0x8000 then n % 0x1_0000 - 0x1_0000 else n % 0x1_0000)
    else (if n % 0x100 >= 0x80 then n % 0x100 - 0x100 else n % 0x100)
  }

  /** A cast keeps exactly the numbers of its size. */
  lemma UnsignedCastExact(v: nat, size: nat)
    requires IntegerSize(size) && v < TWO64
    ensures UnsignedCast(v, size) == v <==> v < 2 * HalfRange(size)
  {
  }

  lemma SignedCastExact(n: int, size: nat)
    requires IntegerSize(size) && -TWO63 <= n < TWO63
    ensures SignedCast(n, size) == n <==> -HalfRange(size) <= n < HalfRange(size)
  {
  }

  /** pb_dec_varint: cast to the field's size, refused if the cast changed the number */
  method DecVarint(stream: IStream, k: Kind, size: nat) returns (ok: bool, dest: int)
    requires stream.Valid() && (k.Varint? || k.UVarint? || k.SVarint?) && IntegerSize(size)
    modifies stream
    ensures stream.Reads(ok, DecodeNum(k, size, old(stream.Rest())))
    ensures ok ==> dest == DecodeNum(k, size, old(stream.Rest())).value
  {
    dest := 0;
    if k.UVarint? {
      var value;
      ok, value := DecodeVarint(stream);
      if ok {
        UnsignedCastExact(value, size);
        dest := UnsignedCast(value, size);
        ok := dest == value;
      }
    } else {
      var svalue;
      if k.SVarint? {
        ok, svalue := DecodeSvarint(stream);
      } else {
        var value;
        ok, value := DecodeVarint(stream);
        svalue := if !ok then 0 else if size == 8 then Signed64(value) else Signed32(value);
      }
      if ok {
        SignedCastExact(svalue, size);
        dest := SignedCast(svalue, size);
        ok := dest == svalue;
      }
    }
  }

  //
  // Tags and unknown fields
  //

  /** pb_decode_tag */
  method DecodeTag(stream: IStream) returns (ok: bool, wireType: nat, tag: nat, eof: bool)
    requires stream.Valid()
    modifies stream
    ensures stream.Reads(ok, Varint32(old(stream.Rest())))
    ensures ok ==> tag == Varint32(old(stream.Rest())).value / 8
    ensures ok ==> wireType == Varint32(old(stream.Rest())).value % 8
    ensures !ok ==> eof == (old(stream.bytesLeft) == 0)
  {
    wireType, tag := 0, 0;
    var temp;
    ok, temp, eof := DecodeVarint32Eof(stream);
    if !ok {
      return;
    }
    tag := ShiftThree(temp);
    wireType := LowThree(temp);
  }

  /** pb_skip_varint, which reads varints of any length */
  method SkipVarint(stream: IStream) returns (ok: bool)
    requires stream.Valid()
    modifies stream
    ensures stream.Reads(ok, RawVarint(old(stream.Rest())))
  {
    ghost var s, i := stream.Rest(), 0;
    while true
      invariant Run(s, i) && stream.Moved() && stream.Rest() == s[i..]
      decreases stream.bytesLeft
    {
      var d;
      ok, d := stream.Read(1);
      if !ok {
        Unfinished(s);
        return false;
      }
      assert d[0] == s[i];
      i := i + 1;
      var more := Continues(d[0]);
      if !more {
        RunEnds(s, i - 1);
        return true;
      }
    }
  }

  /** pb_skip_string */
  method SkipString(stream: IStream) returns (ok: bool)
    requires stream.Valid()
    modifies stream
    ensures stream.Reads(ok, Payload(old(stream.Rest())))
  {
    var length;
    ok, length := DecodeVarint32(stream);
    if !ok {
      return false;
    }
    ok := stream.Skip(length);
  }

  /** pb_skip_field */
  method SkipUnknown(stream: IStream, wireType: nat) returns (ok: bool)
    requires stream.Valid()
    modifies stream
    ensures stream.Reads(ok, SkipField(wireType, old(stream.Rest())))
  {
    if wireType == WT_VARINT {
      ok := SkipVarint(stream);
    } else if wireType == WT_64BIT {
      ok := stream.Skip(8);
    } else if wireType == WT_STRING {
      ok := SkipString(stream);
    } else if wireType == WT_32BIT {
      ok := stream.Skip(4);
    } else {
      ok := false;
    }
  }

  //
  // Substreams
  //

  /** pb_make_string_substream: the substream has exactly the payload; parent and substream
      together have the bytes that were left behind the length prefix. */
  method MakeSubstream(stream: IStream) returns (ok: bool, sub: IStream)
    requires stream.Valid()
    modifies stream
    ensures ok <==> Payload(old(stream.Rest())).Ok?
    ensures fresh(sub) && sub.Valid() && (if ok then stream.Valid() else stream.Moved())
    ensures ok ==> Inside(sub, stream) && sub.Rest() == Payload(old(stream.Rest())).value
    ensures ok ==> sub.End() + stream.bytesLeft == old(stream.End())
    ensures ok ==> Behind(sub, stream) == Payload(old(stream.Rest())).rest
  {
    var size;
    ok, size := DecodeVarint32(stream);
    if !ok {
      sub := new IStream.FromBuffer(stream.buf, stream.state, stream.bytesLeft);
      return;
    }
    if stream.bytesLeft < size {
      sub := new IStream.FromBuffer(stream.buf, stream.state, stream.bytesLeft);
      return false, sub;
    }
    sub := stream.SplitOff(size);
  }

  /** pb_close_string_substream: however much of the substream was read, the parent goes on at
      its end. */
  method CloseSubstream(stream: IStream, sub: IStream) returns (ok: bool)
    requires Inside(sub, stream)
    modifies stream, sub
    ensures ok && stream.Valid() && stream.Rest() == old(Behind(sub, stream))
    ensures stream.state == old(sub.End()) && stream.bytesLeft == old(stream.bytesLeft)
  {
    if sub.bytesLeft > 0 {
      ok := sub.Skip(sub.bytesLeft);
      if !ok {
        assert false;
      }
    }
    stream.state := sub.state;
    return true;
  }
}
