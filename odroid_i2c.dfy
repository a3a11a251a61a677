/** OdroidI2c: one open I2C device on the board side. Register reads and writes go to
    the native layer as byte buffers; a 16-bit word travels little-endian, low byte first. */
module NativeI2c {
  import opened Lang

  /** Buffer sizes of a byte and a word transfer. */
  const ByteLength: int := 1
  const WordLength: int := 2

  /** A call into the I2C native layer. */
  datatype NativeCall =
    | OpenDevice(nameIdx: int, address: int, idx: int)                     // open
    | CloseDevice(idx: int)                                                  // close
    | ReadBuffer(idx: int, reg: int, length: int)                            // readRegBuffer
    | WriteBuffer(idx: int, reg: int, data: seq<JByte>, length: int)         // writeRegBuffer

  /** The buffer `writeRegWord` fills: `[0]` is `(byte)(data & 0xFF)` and `[1]` is
      `(byte)((data & 0xFF00) >> 8)`. */
  function EncodeWord(data: JShort): (b: seq<JByte>)
    ensures |b| == WordLength
  {
    [ToByte(LowByte(data)), ToByte(SecondByteBits(data) / 256)]
  }

  /** The value `readRegWord` builds from a two-byte buffer:
      `(short)(((b1 & 0xFF) << 8) | (b0 & 0xFF))`. The two masked bytes occupy disjoint
      bits, so the shift-and-or is the sum `(b1 & 0xFF) * 256 + (b0 & 0xFF)`. */
  function DecodeWord(b0: JByte, b1: JByte): (w: JShort)
  {
    ToShort(LowByte(b1) * 256 + LowByte(b0))
  }

  /** The unsigned 16-bit pattern of a short, split into its two bytes. */
  lemma ShortBits(data: JShort)
    ensures data % 65536 == (data % 65536) / 256 * 256 + data % 256
    ensures (data % 65536) / 256 == (data / 256) % 256
  {
    var d := data as int;
    if d >= 0 {
      assert d % 65536 == d;
      assert 0 <= d / 256 < 256;
    } else {
      var u := d + 65536;
      assert d % 65536 == u;
      assert u == (d / 256 + 256) * 256 + d % 256;
      assert u / 256 == d / 256 + 256;
      assert u % 256 == d % 256;
      assert -128 <= d / 256 < 0;
      assert (d / 256) % 256 == d / 256 + 256;
    }
  }

  /** `writeRegWord` sends the low byte first and the high byte second: the buffer's
      bytes, read unsigned, are bits 0-7 and bits 8-15 of the word. */
  lemma EncodeWordBytes(data: JShort)
    ensures LowByte(EncodeWord(data)[0]) == data % 256
    ensures LowByte(EncodeWord(data)[1]) == (data / 256) % 256
    ensures LowByte(EncodeWord(data)[1]) * 256 + LowByte(EncodeWord(data)[0]) == data % 65536
  {
    var lo, hi := data % 256, (data % 65536) / 256;
    ShortBits(data);
    assert 0 <= hi < 256;
    assert LowByte(ToByte(lo)) == lo;
    assert SecondByteBits(data) / 256 == hi;
    assert LowByte(ToByte(hi)) == hi;
  }

  /** Round trip: reading back the buffer `writeRegWord` sends yields the original word. */
  lemma WordRoundTrip(data: JShort)
    ensures DecodeWord(EncodeWord(data)[0], EncodeWord(data)[1]) == data
  {
    var e := EncodeWord(data);
    EncodeWordBytes(data);
    var u := LowByte(e[1]) * 256 + LowByte(e[0]);
    assert u == data % 65536;
    if data < 0 {
      assert u == data + 65536;
      assert (u + 32768) % 65536 == data + 32768;
    }
    assert ToShort(u) == data;
  }

  /** A byte masked unsigned and narrowed back is the byte itself. */
  lemma ByteOfLowByte(b: JByte)
    ensures ToByte(LowByte(b)) == b
  {
    if b < 0 {
      assert LowByte(b) == b + 256;
      assert (b + 256 + 128) % 256 == b + 128;
    }
  }

  /** The two bytes of a 16-bit pattern are recovered by `% 256` and `/ 256`. */
  lemma SplitPattern(hi: int, lo: int)
    requires 0 <= hi < 256 && 0 <= lo < 256
    ensures (hi * 256 + lo) % 256 == lo && (hi * 256 + lo) / 256 == hi
  {
  }

  /** The short a 16-bit pattern u narrows to is u or u - 2^16. */
  lemma NarrowPattern(u: int)
    requires 0 <= u < 65536
    ensures ToShort(u) == if u < 32768 then u else u - 65536
  {
    if u >= 32768 {
      assert (u + 32768) % 65536 == u - 32768;
    }
  }

  /** Both candidates have the pattern's two bytes in their low 16 bits. */
  lemma PatternBytes(w: int, u: int)
    requires 0 <= u < 65536 && (w == u || w == u - 65536)
    ensures LowByte(w) == u % 256 && SecondByteBits(w) / 256 == u / 256
  {
    assert w % 65536 == u;
    if w != u {
      assert w % 256 == u % 256;
    }
  }

  /** And the other way: re-encoding a decoded buffer gives back the same two bytes. */
  lemma BytesRoundTrip(b0: JByte, b1: JByte)
    ensures EncodeWord(DecodeWord(b0, b1)) == [b0, b1]
  {
    var lo, hi := LowByte(b0), LowByte(b1);
    var u := hi * 256 + lo;
    SplitPattern(hi, lo);
    NarrowPattern(u);
    var w := DecodeWord(b0, b1);
    PatternBytes(w, u);
    ByteOfLowByte(b0);
    ByteOfLowByte(b1);
    assert EncodeWord(w) == [ToByte(lo), ToByte(hi)];
  }

  class OdroidI2c {
    const idx: int
    const name: string
    /** The native calls made for this device, oldest first. */
    ghost var native: seq<NativeCall>

    /** Opens the device at `address` on bus `i2cNameIdx` under the manager's index `idx`. */
    constructor(name: string, i2cNameIdx: int, address: int, idx: int)
      ensures this.idx == idx && this.name == name
      ensures native == [OpenDevice(i2cNameIdx, address, idx)]
    {
      this.idx := idx;
      this.name := name;
      native := [OpenDevice(i2cNameIdx, address, idx)];
    }

    method Close()
      modifies this`native
      ensures native == old(native) + [CloseDevice(idx)]
    {
      native := native + [CloseDevice(idx)];
    }

    /** `read(length)`: a buffer read from register 0. `result` is what the native layer returns. */
    method Read(length: int, result: seq<JByte>) returns (r: seq<JByte>)
      modifies this`native
      ensures r == result
      ensures native == old(native) + [ReadBuffer(idx, 0, length)]
    {
      r := ReadRegBuffer(0, length, result);
    }

    method ReadRegBuffer(reg: int, length: int, result: seq<JByte>) returns (r: seq<JByte>)
      modifies this`native
      ensures r == result
      ensures native == old(native) + [ReadBuffer(idx, reg, length)]
    {
      native := native + [ReadBuffer(idx, reg, length)];
      r := result;
    }

    /** `readRegByte`: element 0 of a one-byte read; an empty result throws. */
    method ReadRegByte(reg: int, result: seq<JByte>) returns (r: Result<JByte>)
      modifies this`native
      ensures native == old(native) + [ReadBuffer(idx, reg, ByteLength)]
      ensures r == if |result| >= 1 then Ok(result[0]) else Err(IndexOutOfBounds)
    {
      var buffer := ReadRegBuffer(reg, ByteLength, result);
      if |buffer| < 1 {
        return Err(IndexOutOfBounds);
      }
      r := Ok(buffer[0]);
    }

    /** `readRegWord`: the little-endian word of a two-byte read; a shorter result throws. */
    method ReadRegWord(reg: int, result: seq<JByte>) returns (r: Result<JShort>)
      modifies this`native
      ensures native == old(native) + [ReadBuffer(idx, reg, WordLength)]
      ensures r == if |result| >= 2 then Ok(DecodeWord(result[0], result[1])) else Err(IndexOutOfBounds)
    {
      var buffer := ReadRegBuffer(reg, WordLength, result);
      if |buffer| < 2 {
        return Err(IndexOutOfBounds);
      }
      r := Ok(DecodeWord(buffer[0], buffer[1]));
    }

    /** `write(buffer, length)`: a buffer write to register 0; `status` is the native result. */
    method Write(buffer: array<JByte>, length: int, status: bool) returns (ok: bool)
      modifies this`native
      ensures ok == status
      ensures native == old(native) + [WriteBuffer(idx, 0, buffer[..], length)]
    {
      ok := WriteRegBuffer(0, buffer, length, status);
    }

    method WriteRegBuffer(reg: int, buffer: array<JByte>, length: int, status: bool) returns (ok: bool)
      modifies this`native
      ensures ok == status
      ensures native == old(native) + [WriteBuffer(idx, reg, buffer[..], length)]
    {
      native := native + [WriteBuffer(idx, reg, buffer[..], length)];
      ok := status;
    }

    /** `writeRegByte`: a fresh one-byte buffer holding `data`. */
    method WriteRegByte(reg: int, data: JByte, status: bool) returns (ok: bool)
      modifies this`native
      ensures ok == status
      ensures native == old(native) + [WriteBuffer(idx, reg, [data], ByteLength)]
    {
      var buffer := new JByte[ByteLength](_ => 0);
      buffer[0] := data;
      assert buffer[..] == [data];
      ok := WriteRegBuffer(reg, buffer, ByteLength, status);
    }

    /** `writeRegWord`: a fresh two-byte buffer, high byte into `[1]`, then low byte into `[0]`. */
    method WriteRegWord(reg: int, data: JShort, status: bool) returns (ok: bool)
      modifies this`native
      ensures ok == status
      ensures native == old(native) + [WriteBuffer(idx, reg, EncodeWord(data), WordLength)]
    {
      var buffer := new JByte[WordLength](_ => 0);
      buffer[1] := ToByte(SecondByteBits(data) / 256);
      buffer[0] := ToByte(LowByte(data));
      assert buffer[..] == EncodeWord(data);
      ok := WriteRegBuffer(reg, buffer, WordLength, status);
    }
  }
}
