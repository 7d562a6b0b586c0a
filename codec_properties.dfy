/** What the frame codec of msg.go promises: the layout Pack produces, the
    round trips, the capacity error, body clamping, the behaviour on short
    input, and the big-frame size read from only four bytes. */
module CodecProperties {
  import opened Binary
  import opened Codec

  /** The int32 stored little-endian at bytes off..off+3, or 0 when they
      are not all there: what an int32 binary.Read at that offset leaves. */
  function Int32At(b: seq<uint8>, off: nat): int32
  {
    if |b| < off + 4 then 0 else DecodeInt32(b[off..off + 4])
  }

  /** The small-frame type field: bytes 0..3. */
  function HeaderType(b: seq<uint8>): int32
  {
    Int32At(b, 0)
  }

  /** The small-frame size field: bytes 4..7. */
  function HeaderSize(b: seq<uint8>): int32
  {
    Int32At(b, SIZE_TYPE)
  }

  /** How many body bytes UnPack keeps for a declared size below the cap
      with avail bytes after the header. */
  function KeptLength(size: int32, avail: nat): nat
  {
    var rest := ToInt32(size - SIZE_HEAD);
    if rest <= 0 then 0 else Min(rest, avail)
  }

  /** What Next(buf, n) returns, as slices of buf. */
  lemma NextParts(buf: seq<uint8>, n: nat)
    ensures Next(buf, n).0 == buf[..Min(n, |buf|)]
    ensures Next(buf, n).1 == buf[Min(n, |buf|)..]
  {
  }

  /** UnPack reads its two header fields from bytes 0..3 and 4..7. */
  lemma UnPackHeader(b: seq<uint8>)
    ensures UnPack(b).value.msgType == HeaderType(b)
    ensures UnPack(b).value.size == HeaderSize(b)
  {
    var mType := Next(b, SIZE_TYPE);
    var mSize := Next(mType.1, SIZE_SIZE);
    NextParts(b, SIZE_TYPE);
    NextParts(mType.1, SIZE_SIZE);
    assert UnPack(b).value.msgType == ReadInt32(mType.0);
    assert UnPack(b).value.size == ReadInt32(mSize.0);
    if |b| >= 8 {
      assert mType.0 == b[..4] && mType.0[..4] == b[..4];
      assert mSize.0 == b[4..8] && mSize.0[..4] == b[4..8];
    } else if |b| >= 4 {
      assert mType.0 == b[..4];
      assert |mSize.0| < 4;
    }
  }

  /** UnPack fails exactly when the declared size is above the cap; it then
      still reports the type and the size, with no body. */
  lemma UnPackOverCapacity(b: seq<uint8>)
    ensures UnPack(b).err.Some? <==> HeaderSize(b) > MAX_BUFFER
    ensures HeaderSize(b) > MAX_BUFFER ==>
      UnPack(b) == Decoded(Msg(HeaderType(b), HeaderSize(b), []), Some(OverMaxBuffer))
  {
    UnPackHeader(b);
  }

  /** Once the header declares more than the cap, what follows it does not
      matter. */
  lemma UnPackOverCapacityIgnoresBody(header: seq<uint8>, x: seq<uint8>, y: seq<uint8>)
    requires |header| == SIZE_HEAD && HeaderSize(header) > MAX_BUFFER
    ensures UnPack(header + x) == UnPack(header + y)
    ensures UnPack(header + x).err == Some(OverMaxBuffer)
  {
    assert (header + x)[..4] == header[..4] == (header + y)[..4];
    assert (header + x)[4..8] == header[4..8] == (header + y)[4..8];
    assert HeaderType(header + x) == HeaderType(header + y);
    assert HeaderSize(header + x) == HeaderSize(header) == HeaderSize(header + y);
    UnPackOverCapacity(header + x);
    UnPackOverCapacity(header + y);
  }

  /** Below the cap UnPack succeeds, and its body is the first
      KeptLength(size, |b| - 8) bytes after the header: empty when
      size - 8 is not positive in int32, never past rest nor past the end
      of b. */
  lemma UnPackClamps(b: seq<uint8>)
    requires |b| >= SIZE_HEAD && HeaderSize(b) <= MAX_BUFFER
    ensures UnPack(b).err == None
    ensures UnPack(b).value.content == b[SIZE_HEAD..SIZE_HEAD + KeptLength(HeaderSize(b), |b| - SIZE_HEAD)]
  {
    UnPackHeader(b);
    assert Next(Next(b, 4).1, 4).1 == b[8..];
  }

  /** Input too short for the size field decodes as an empty message with
      no error: neither field is set below four bytes, the size is not set
      below eight. */
  lemma UnPackShortInput(b: seq<uint8>)
    requires |b| < SIZE_HEAD
    ensures UnPack(b) == Decoded(Msg(HeaderType(b), 0, []), None)
    ensures |b| < SIZE_TYPE ==> UnPack(b) == Decoded(Msg(0, 0, []), None)
  {
    UnPackHeader(b);
  }

  /** Bytes beyond the declared size never reach the body, once the whole
      frame is there and the size is at most the cap and not in the wrap
      range [MinInt32, MinInt32 + 7] (UnPackWrappedSize). A size below 8
      keeps no body at all. */
  lemma UnPackIgnoresTrailing(b: seq<uint8>, extra: seq<uint8>)
    requires |b| >= SIZE_HEAD && MIN_INT32 + SIZE_HEAD <= HeaderSize(b) <= MAX_BUFFER && |b| >= HeaderSize(b)
    ensures UnPack(b + extra) == UnPack(b)
  {
    var size := HeaderSize(b);
    assert (b + extra)[..4] == b[..4];
    assert (b + extra)[4..8] == b[4..8];
    assert HeaderSize(b + extra) == size;
    UnPackHeader(b);
    UnPackHeader(b + extra);
    UnPackClamps(b);
    UnPackClamps(b + extra);
    if size < SIZE_HEAD {
      assert ToInt32(size - SIZE_HEAD) == size - SIZE_HEAD;
    } else {
      assert (b + extra)[8..size] == b[8..size];
    }
  }

  /** A declared size in [MinInt32, MinInt32 + 7] makes size - 8 wrap to a
      positive int32 of at least 2^31 - 8, so instead of an empty body UnPack
      keeps that many bytes after the header, or all of them when fewer are
      there: every byte after the header for inputs of at most MaxInt32
      bytes. */
  lemma UnPackWrappedSize(b: seq<uint8>)
    requires |b| >= SIZE_HEAD && HeaderSize(b) < MIN_INT32 + SIZE_HEAD
    ensures UnPack(b).err == None
    ensures UnPack(b).value.content ==
      b[SIZE_HEAD..SIZE_HEAD + Min(|b| - SIZE_HEAD, HeaderSize(b) - SIZE_HEAD + TWO_32)]
    ensures |b| <= MAX_INT32 ==>
      UnPack(b) == Decoded(Msg(HeaderType(b), HeaderSize(b), b[SIZE_HEAD..]), None)
  {
    var size := HeaderSize(b);
    DivModUnique(size - SIZE_HEAD, TWO_32, -1, size - SIZE_HEAD + TWO_32);
    assert ToInt32(size - SIZE_HEAD) == size - SIZE_HEAD + TWO_32;
    UnPackHeader(b);
    UnPackClamps(b);
  }

  /** Round trip: a frame within the cap decodes to its type, its size
      8 + |c| and its body, with no error. */
  lemma UnPackPackRoundTrip(t: int32, c: seq<uint8>)
    requires SIZE_HEAD + |c| <= MAX_BUFFER
    ensures UnPack(Pack(t, c)) == Decoded(Msg(t, SIZE_HEAD + |c|, c), None)
  {
    var b := Pack(t, c);
    UnPackHeader(b);
    UnPackClamps(b);
    assert b[8..8 + |c|] == c;
  }

  /** Pack itself enforces no cap: a frame it builds over the cap cannot be
      unpacked. */
  lemma UnPackPackOverCapacity(t: int32, c: seq<uint8>)
    requires MAX_BUFFER < SIZE_HEAD + |c| <= MAX_INT32
    ensures UnPack(Pack(t, c)) == Decoded(Msg(t, SIZE_HEAD + |c|, []), Some(OverMaxBuffer))
  {
    UnPackOverCapacity(Pack(t, c));
  }

  /** Pack(7, "AB") is 07 00 00 00 0A 00 00 00 41 42, and unpacks again. */
  lemma PackExample()
    ensures Pack(7, [0x41, 0x42]) == [0x07, 0, 0, 0, 0x0A, 0, 0, 0, 0x41, 0x42]
    ensures UnPack([0x07, 0, 0, 0, 0x0A, 0, 0, 0, 0x41, 0x42]) == Decoded(Msg(7, 10, [0x41, 0x42]), None)
  {
    var b := Pack(7, [0x41, 0x42]);
    var expected: seq<uint8> := [0x07, 0, 0, 0, 0x0A, 0, 0, 0, 0x41, 0x42];
    assert EncodeLe(7, 4) == [0x07, 0, 0, 0];
    assert EncodeLe(10, 4) == [0x0A, 0, 0, 0];
    assert b == expected;
    UnPackPackRoundTrip(7, [0x41, 0x42]);
  }

  /** A header declaring size 8 means a header-only frame: the body is
      empty and there is no error, whatever bytes follow. */
  lemma UnPackHeaderOnly(b: seq<uint8>)
    requires |b| >= SIZE_HEAD && HeaderSize(b) == SIZE_HEAD
    ensures UnPack(b) == Decoded(Msg(HeaderType(b), SIZE_HEAD, []), None)
  {
    UnPackHeader(b);
    UnPackClamps(b);
    assert KeptLength(SIZE_HEAD, |b| - SIZE_HEAD) == 0;
  }

  /** UnpackBig takes its size from bytes 0..3 alone, as soon as four bytes
      are there (not eight), and 0 otherwise. */
  lemma UnpackBigSize(b: seq<uint8>)
    ensures UnpackBig(b).value.size == Int32At(b, 0)
  {
    if |b| >= 4 {
      assert Next(b, 8).0[..4] == b[..4];
    }
  }

  /** So bytes 4..7 of the 8-byte size field never matter. */
  lemma UnpackBigIgnoresHighSizeBytes(b: seq<uint8>, b': seq<uint8>)
    requires |b| == |b'| >= SIZE_SIZE_BIG
    requires b[..4] == b'[..4] && b[8..] == b'[8..]
    ensures UnpackBig(b) == UnpackBig(b')
  {
    UnpackBigSize(b);
    UnpackBigSize(b');
    assert Next(b, 8).1 == b[8..];
    assert Next(b', 8).1 == b'[8..];
  }

  /** The body UnpackBig keeps is clamped as in UnPack. */
  lemma UnpackBigClamps(b: seq<uint8>)
    requires |b| >= SIZE_SIZE_BIG
    ensures UnpackBig(b).value.content == b[SIZE_SIZE_BIG..SIZE_SIZE_BIG + KeptLength(Int32At(b, 0), |b| - SIZE_SIZE_BIG)]
  {
    UnpackBigSize(b);
    assert Next(b, 8).1 == b[8..];
  }

  /** Whatever the body, UnpackBig(PackBig(c)) reads the size 8 + |c|
      truncated to int32: the low four of the eight bytes PackBig wrote. */
  lemma UnpackBigPackBigSize(c: seq<uint8>)
    ensures UnpackBig(PackBig(c)).value.size == ToInt32(SIZE_SIZE_BIG + |c|)
  {
    var b := PackBig(c);
    var s := ToInt64(SIZE_SIZE_BIG + |c|);
    assert b[..8] == EncodeLe(s, 8) by {
      assert EncodeLe(DecodeInt64(b[..8]), 8) == b[..8];
    }
    assert b[..4] == EncodeLe(s, 8)[..4];
    LowBytesInt32(s, 8);
    UnpackBigSize(b);
    Int32OfInt64(SIZE_SIZE_BIG + |c|, s);
  }

  /** Round trip for big frames whose size fits an int32. */
  lemma UnpackBigPackBigRoundTrip(c: seq<uint8>)
    requires SIZE_SIZE_BIG + |c| <= MAX_INT32
    ensures UnpackBig(PackBig(c)) == Decoded(Big(SIZE_SIZE_BIG + |c|, c), None)
  {
    var b := PackBig(c);
    UnpackBigPackBigSize(c);
    UnpackBigSize(b);
    UnpackBigClamps(b);
    assert b[8..8 + |c|] == c;
  }
}
