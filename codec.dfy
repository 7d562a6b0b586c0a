/** The frame codec of package msg (msg.go).

    A small frame is a 4-byte little-endian int32 type, a 4-byte
    little-endian int32 size that counts the 8 header bytes and the body, and
    then the body; UnPack refuses a declared size above MAX_BUFFER. A big
    frame is an 8-byte little-endian int64 size and then the body; UnpackBig
    keeps the size in an int32 and so reads only the first four of those
    bytes. */
module Codec {
  import opened Binary

  const MAX_BUFFER: int := 1024
  const SIZE_TYPE: nat := 4
  const SIZE_SIZE: nat := 4
  const SIZE_HEAD: nat := SIZE_TYPE + SIZE_SIZE

  const MAX_BUFFER_BIG: int := 2147483647
  const SIZE_SIZE_BIG: nat := 8

  /** A small frame. An absent body (Go's nil slice) is the empty sequence. */
  datatype Msg = Msg(msgType: int32, size: int32, content: seq<uint8>)

  /** A big frame as UnpackBig returns it. */
  datatype Big = Big(size: int32, content: seq<uint8>)

  /** The errors the decoders can return, with the text Go gives them. */
  datatype CodecError = OverMaxBuffer | OverMaxBufferBig
  {
    /** The two texts differ, and both start with OVER_maxBuffer. */
    function Message(): (m: string)
      ensures "OVER_maxBuffer" <= m
      ensures m == "OVER_maxBuffer" <==> this == OverMaxBuffer
    {
      match this
      case OverMaxBuffer => "OVER_maxBuffer"
      case OverMaxBufferBig => "OVER_maxBufferBIG"
    }
  }

  datatype Option<T> = None | Some(value: T)

  /** A decoder's two return values: the frame, filled in as far as decoding
      got, and the error, None standing for Go's nil. */
  datatype Decoded<T> = Decoded(value: T, err: Option<CodecError>)

  /** The bytes after the header that a decoder keeps as the body: nothing
      when rest is not positive, otherwise the first rest bytes if that many
      are there and all of them if not. */
  function Body(rest: int, tail: seq<uint8>): (r: seq<uint8>)
    ensures |r| == if rest <= 0 then 0 else Min(rest, |tail|)
    ensures r == tail[..|r|]
  {
    if rest > 0 then
      if rest > |tail| - 1 then tail else tail[..rest]
    else
      []
  }

  /** Pack: the type, the size 8 + |mContent| converted to int32, and the
      body. No cap is applied; a body too long for int32 wraps the size. */
  function Pack(mType: int32, mContent: seq<uint8>): (b: seq<uint8>)
    ensures |b| == SIZE_HEAD + |mContent|
    ensures DecodeInt32(b[..4]) == mType
    ensures DecodeInt32(b[4..8]) == ToInt32(SIZE_HEAD + |mContent|)
    ensures b[8..] == mContent
  {
    var mSize := ToInt32(SIZE_HEAD + |mContent|);
    var b := EncodeLe(mType, 4) + EncodeLe(mSize, 4) + mContent;
    assert b[..4] == EncodeLe(mType, 4);
    assert b[4..8] == EncodeLe(mSize, 4);
    Int32RoundTrip(mType);
    Int32RoundTrip(mSize);
    b
  }

  /** UnPack: read the type and the size through a buffer cursor, refuse a
      size above MAX_BUFFER, and otherwise keep up to size - 8 (computed in
      int32) of the remaining bytes as the body. A field whose four bytes
      are not all present keeps the value 0, because binary.Read's error is
      ignored. */
  function UnPack(b: seq<uint8>): (r: Decoded<Msg>)
    ensures r.err == None || r.err == Some(OverMaxBuffer)
    ensures r.err.Some? ==> r.value.content == []
    ensures |r.value.content| > 0 ==>
      SIZE_HEAD + |r.value.content| <= |b| && r.value.content == b[SIZE_HEAD..SIZE_HEAD + |r.value.content|]
  {
    var mType := Next(b, SIZE_TYPE);
    var msgType := ReadInt32(mType.0);
    var mSize := Next(mType.1, SIZE_SIZE);
    var size := ReadInt32(mSize.0);
    if size > MAX_BUFFER then
      Decoded(Msg(msgType, size, []), Some(OverMaxBuffer))
    else
      var rest := ToInt32(size - SIZE_HEAD);
      Decoded(Msg(msgType, size, Body(rest, mSize.1)), None)
  }

  /** PackBig: the size 8 + |mContent| as an 8-byte int64, then the body. */
  function PackBig(mContent: seq<uint8>): (b: seq<uint8>)
    ensures |b| == SIZE_SIZE_BIG + |mContent|
    ensures DecodeInt64(b[..8]) == ToInt64(SIZE_SIZE_BIG + |mContent|)
    ensures b[8..] == mContent
  {
    var mSize := ToInt64(SIZE_SIZE_BIG + |mContent|);
    var b := EncodeLe(mSize, 8) + mContent;
    assert b[..8] == EncodeLe(mSize, 8);
    Int64RoundTrip(mSize);
    b
  }

  /** UnpackBig: take the 8 size bytes, but read them into an int32, which
      consumes only the first four; keep up to size - 8 (in int32) of the
      bytes after the eight as the body. The test against MAX_BUFFER_BIG is
      the one at msg.go:227; an int32 never exceeds it, so no error results. */
  function UnpackBig(b: seq<uint8>): (r: Decoded<Big>)
    ensures r.err == None
    ensures |r.value.content| > 0 ==>
      SIZE_SIZE_BIG + |r.value.content| <= |b| && r.value.content == b[SIZE_SIZE_BIG..SIZE_SIZE_BIG + |r.value.content|]
  {
    var mSize := Next(b, SIZE_SIZE_BIG);
    var size := ReadInt32(mSize.0);
    if size > MAX_BUFFER_BIG then
      Decoded(Big(size, []), Some(OverMaxBufferBig))
    else
      var rest := ToInt32(size - SIZE_SIZE_BIG);
      Decoded(Big(size, Body(rest, mSize.1)), None)
  }

  /** Go's copy(dst[at:], src): copies as many elements as both sides hold
      and returns that count; nothing else in dst changes. */
  method CopyInto(dst: array<uint8>, at: nat, src: array<uint8>) returns (n: nat)
    requires at <= dst.Length
    requires dst != src
    modifies dst
    ensures n == Min(dst.Length - at, src.Length)
    ensures dst[..at] == old(dst[..at])
    ensures dst[at..at + n] == src[..n]
    ensures dst[at + n..] == old(dst[at + n..])
  {
    n := Min(dst.Length - at, src.Length);
    var i := 0;
    while i < n
      invariant 0 <= i <= n
      invariant dst[..at] == old(dst[..at])
      invariant dst[at..at + i] == src[..i]
      invariant dst[at + i..] == old(dst[at + i..])
    {
      dst[at + i] := src[i];
      i := i + 1;
    }
  }

  /** CopyBytes: a new slice holding a followed by b. */
  method CopyBytes(a: array<uint8>, b: array<uint8>) returns (result: array<uint8>)
    ensures fresh(result)
    ensures result[..] == a[..] + b[..]
  {
    var n := a.Length;
    result := new uint8[n + b.Length];
    var copied := CopyInto(result, 0, a);
    copied := CopyInto(result, n, b);
    assert result[..] == result[..n] + result[n..];
  }
}
