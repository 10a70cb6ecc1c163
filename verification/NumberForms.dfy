/** The forms of numbers on the wire, kind by kind, with all constants written out: what the
    encoder writes, and what the decoder makes of any bytes. */
module NumberForms {
  import opened Wire
  import opened Schema
  import opened Numbers

  //
  // What the encoder writes
  //

  /** The encoder's varints are the shortest ones. */
  lemma {:induction false} ShortestForm(s: seq<byte>)
    requires RawVarint(s).Ok?
    ensures |VarintBytes(RawVarint(s).value)| <= |s| - |RawVarint(s).rest|
  {
    if s[0] >= 128 {
      ShortestForm(s[1..]);
      var v := RawVarint(s[1..]).value;
      assert (s[0] - 128 + 128 * v) / 128 == v;
    }
  }

  /** A number of any size, read as an unsigned 64-bit one: itself, its two's complement in 64
      bits whatever its size, or its zigzag form */
  lemma WrittenAsVarint(k: Kind, size: nat, n: int, t: seq<byte>)
    requires InRange(k, size, n) && !k.Fixed32? && !k.Fixed64?
    ensures DecodeNum(UVarint, 8, EncodeNum(k, size, n) + t)
            == Ok(if k.SVarint? then (if n >= 0 then 2 * n else -2 * n - 1)
                  else if n >= 0 then n else n + 0x1_0000_0000_0000_0000, t)
  {
    Varint64OfBytes(if k.SVarint? then Zigzag(n) else if k.Varint? then Unsigned64(n) else n, t);
  }

  /** What is written for a number of any size is read back by a 64-bit field of its kind. */
  lemma ReadBackWider(k: Kind, size: nat, n: int, t: seq<byte>)
    requires InRange(k, size, n) && (k.Varint? || k.UVarint? || k.SVarint?)
    ensures DecodeNum(k, 8, EncodeNum(k, size, n) + t) == Ok(n, t)
  {
    assert InRange(k, 8, n);
    NumRoundTrip(k, 8, n, t);
  }

  /** A word of four bytes, least significant first */
  function FourByteWord(b0: int, b1: int, b2: int, b3: int): int {
    b0 + 0x100 * b1 + 0x1_0000 * b2 + 0x100_0000 * b3
  }

  lemma FourBytes(b: seq<byte>)
    requires |b| >= 4
    ensures FromLE(b) == FourByteWord(b[0], b[1], b[2], b[3]) + 0x1_0000_0000 * FromLE(b[4..])
  {
    assert b[1..][1..] == b[2..] && b[2..][1..] == b[3..] && b[3..][1..] == b[4..];
    assert FromLE(b) == b[0] + 256 * FromLE(b[1..]);
    assert FromLE(b[1..]) == b[1] + 256 * FromLE(b[2..]);
    assert FromLE(b[2..]) == b[2] + 256 * FromLE(b[3..]);
  }

  /** Words are written with their least significant byte first. */
  lemma WrittenAsWord(k: Kind, size: nat, n: int)
    requires InRange(k, size, n) && (k.Fixed32? || k.Fixed64?)
    ensures var b := EncodeNum(k, size, n);
            && |b| == (if k.Fixed32? then 4 else 8)
            && n == FourByteWord(b[0], b[1], b[2], b[3])
                    + (if k.Fixed32? then 0 else 0x1_0000_0000 * FourByteWord(b[4], b[5], b[6], b[7]))
  {
    var b := EncodeNum(k, size, n);
    FixedRoundTrip(n, |b|, []);
    FourBytes(b);
    if k.Fixed64? { FourBytes(b[4..]); }
  }

  //
  // What the decoder makes of any bytes
  //

  /** An unsigned field takes exactly the 64-bit varints below 2^8, 2^16, 2^32 or 2^64. */
  lemma UnsignedRead(size: nat, s: seq<byte>)
    requires IntegerSize(size)
    ensures var bound := if size == 1 then 0x100 else if size == 2 then 0x1_0000
                         else if size == 4 then 0x1_0000_0000 else 0x1_0000_0000_0000_0000;
            DecodeNum(UVarint, size, s)
            == if Varint64(s).Ok? && Varint64(s).value < bound then Ok(Varint64(s).value, Varint64(s).rest) else Fail
  {
  }

  /** A 64-bit field takes every 64-bit varint, as two's complement. */
  lemma SignedRead64(s: seq<byte>)
    ensures DecodeNum(Varint, 8, s).Ok? <==> Varint64(s).Ok?
    ensures var r := DecodeNum(Varint, 8, s);
            r.Ok? ==> r.rest == Varint64(s).rest && -0x8000_0000_0000_0000 <= r.value < 0x8000_0000_0000_0000
                      && (r.value == Varint64(s).value || r.value == Varint64(s).value - 0x1_0000_0000_0000_0000)
  {
  }

  /** A 32-bit field takes every 64-bit varint too, and keeps its low 32 bits: so it reads
      negative numbers that were written in five bytes as well as in ten. */
  lemma SignedRead32(s: seq<byte>)
    ensures DecodeNum(Varint, 4, s).Ok? <==> Varint64(s).Ok?
    ensures var r := DecodeNum(Varint, 4, s);
            r.Ok? ==> r.rest == Varint64(s).rest && -0x8000_0000 <= r.value < 0x8000_0000
                      && r.value % 0x1_0000_0000 == Varint64(s).value % 0x1_0000_0000
  {
  }

  /** A smaller field takes what fits it of the numbers that a 32-bit field reads. */
  lemma SignedReadSmall(size: nat, s: seq<byte>)
    requires size == 1 || size == 2
    ensures var r, half := DecodeNum(Varint, 4, s), if size == 1 then 0x80 else 0x8000;
            DecodeNum(Varint, size, s) == if r.Ok? && -half <= r.value < half then r else Fail
  {
  }

  /** Even varints stand for the numbers from 0 on, odd ones for those from -1 down; a field
      takes those of its size. */
  lemma ZigzagRead(size: nat, s: seq<byte>)
    requires IntegerSize(size)
    ensures var r, half := DecodeNum(SVarint, size, s),
                           if size == 1 then 0x80 else if size == 2 then 0x8000
                           else if size == 4 then 0x8000_0000 else 0x8000_0000_0000_0000;
            match Varint64(s)
            case Fail => r.Fail?
            case Ok(v, rest) =>
              && (r.Ok? <==> v < 2 * half)
              && (r.Ok? ==> r.rest == rest && (v == 2 * r.value || v == -2 * r.value - 1))
  {
  }

  /** A boolean takes every 32-bit varint, and is true unless that is zero. */
  lemma BoolRead(s: seq<byte>)
    ensures DecodeNum(Bool, 1, s).Ok? <==> Varint32(s).Ok?
    ensures var r := DecodeNum(Bool, 1, s);
            r.Ok? ==> r.rest == Varint32(s).rest && (r.value == 0 <==> Varint32(s).value == 0)
                      && (r.value == 0 || r.value == 1)
  {
  }

  /** Four or eight bytes make a word. */
  lemma WordRead(k: Kind, s: seq<byte>)
    requires k.Fixed32? || k.Fixed64?
    ensures var size := if k.Fixed32? then 4 else 8;
            && (DecodeNum(k, size, s).Ok? <==> |s| >= size)
            && (|s| >= size ==>
                  DecodeNum(k, size, s)
                  == Ok(FourByteWord(s[0], s[1], s[2], s[3])
                        + (if k.Fixed32? then 0 else 0x1_0000_0000 * FourByteWord(s[4], s[5], s[6], s[7])),
                        s[size..]))
  {
    var size := if k.Fixed32? then 4 else 8;
    if |s| >= size {
      FourBytes(s[..size]);
      if k.Fixed64? { FourBytes(s[..8][4..]); }
    }
  }
}
