/** The four-byte tag frame: `ByteBuffer.allocate(4).order(o).putInt(tag)`
    on the sending side and `ByteBuffer.wrap(frame).order(o).asIntBuffer().get()`
    on the receiving side. The sender and receiver both use the platform's
    native order; here the order is a parameter. */
module TagCodec {
  import opened Json

  datatype ByteOrder = BigEndian | LittleEndian

  /** The two's-complement bit pattern of an int, as an unsigned value. */
  function Unsigned(x: Int32): (u: int)
    ensures 0 <= u < 0x1_0000_0000
  {
    if x < 0 then x + 0x1_0000_0000 else x
  }

  /** The int whose two's-complement bit pattern is the unsigned value `u`. */
  function Signed(u: int): Int32
    requires 0 <= u < 0x1_0000_0000
  {
    if u < 0x8000_0000 then u else u - 0x1_0000_0000
  }

  /** The four bytes of `u`, most significant first. */
  function BigEndianBytes(u: int): (b: Bytes)
    requires 0 <= u < 0x1_0000_0000
    ensures |b| == 4
  {
    [(u / 0x100 / 0x100 / 0x100) as Byte, (u / 0x100 / 0x100 % 0x100) as Byte,
     (u / 0x100 % 0x100) as Byte, (u % 0x100) as Byte]
  }

  /** The unsigned value of four bytes, most significant first. */
  function BigEndianValue(b: Bytes): (u: int)
    requires |b| == 4
  {
    b[0] as int * 0x100_0000 + b[1] as int * 0x1_0000 + b[2] as int * 0x100 + b[3] as int
  }

  function Reverse4(b: Bytes): (r: Bytes)
    requires |b| == 4
  {
    [b[3], b[2], b[1], b[0]]
  }

  /** `putInt` into a four-byte buffer of the given order. */
  function EncodeTag(x: Int32, order: ByteOrder): (frame: Bytes)
    ensures |frame| == 4
  {
    var big := BigEndianBytes(Unsigned(x));
    if order == BigEndian then big else Reverse4(big)
  }

  /** The first int of the frame read in the given order; a frame shorter
      than four bytes holds no int and `get()` underflows. */
  function DecodeTag(frame: Bytes, order: ByteOrder): (r: Result<Int32>)
    ensures r.Ok? <==> |frame| >= 4
    ensures r.Err? ==> r.fault == BufferUnderflow
  {
    if |frame| < 4 then Err(BufferUnderflow)
    else
      var big := if order == BigEndian then frame[..4] else Reverse4(frame[..4]);
      Ok(Signed(BigEndianValue(big)))
  }

  lemma BytesRoundTrip(u: int)
    requires 0 <= u < 0x1_0000_0000
    ensures BigEndianValue(BigEndianBytes(u)) == u
  {
    var q1 := u / 0x100;
    var q2 := q1 / 0x100;
    var q3 := q2 / 0x100;
    assert u == q1 * 0x100 + u % 0x100;
    assert q1 == q2 * 0x100 + q1 % 0x100;
    assert q2 == q3 * 0x100 + q2 % 0x100;
    assert BigEndianBytes(u) == [q3 as Byte, (q2 % 0x100) as Byte, (q1 % 0x100) as Byte, (u % 0x100) as Byte];
  }

  lemma DivModByte(q: int, r: int)
    requires 0 <= r < 0x100
    ensures (q * 0x100 + r) / 0x100 == q && (q * 0x100 + r) % 0x100 == r
  {
  }

  lemma ValueRoundTrip(b: Bytes)
    requires |b| == 4
    ensures 0 <= BigEndianValue(b) < 0x1_0000_0000
    ensures BigEndianBytes(BigEndianValue(b)) == b
  {
    var u := BigEndianValue(b);
    var x0, x1, x2, x3 := b[0] as int, b[1] as int, b[2] as int, b[3] as int;
    var q1 := x0 * 0x100 + x1;
    var q2 := q1 * 0x100 + x2;
    assert u == q2 * 0x100 + x3;
    DivModByte(q2, x3);
    DivModByte(q1, x2);
    DivModByte(x0, x1);
    assert u / 0x100 == q2 && u % 0x100 == x3;
    assert q2 / 0x100 == q1 && q2 % 0x100 == x2;
    assert q1 / 0x100 == x0 && q1 % 0x100 == x1;
  }

  /** The receiver reads back exactly the tag the sender wrote. */
  lemma DecodeEncode(x: Int32, order: ByteOrder)
    ensures DecodeTag(EncodeTag(x, order), order) == Ok(x)
  {
    var big := BigEndianBytes(Unsigned(x));
    BytesRoundTrip(Unsigned(x));
    if order == LittleEndian {
      assert EncodeTag(x, order)[..4] == Reverse4(big);
      assert Reverse4(Reverse4(big)) == big;
    } else {
      assert EncodeTag(x, order)[..4] == big;
    }
  }

  /** Conversely, every four-byte frame is the encoding of the tag read from it. */
  lemma EncodeDecode(frame: Bytes, order: ByteOrder)
    requires |frame| == 4
    ensures DecodeTag(frame, order).Ok?
    ensures EncodeTag(DecodeTag(frame, order).value, order) == frame
  {
    var big := if order == BigEndian then frame else Reverse4(frame);
    assert frame[..4] == frame;
    ValueRoundTrip(big);
    assert Unsigned(Signed(BigEndianValue(big))) == BigEndianValue(big);
    if order == LittleEndian {
      assert Reverse4(big) == frame;
    }
  }
}
