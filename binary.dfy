/** Fixed-width integers as Go has them, the little-endian byte order that
    encoding/binary writes and reads them in, and the two bytes.Buffer and
    binary.Read behaviours the frame codec relies on. */
module Binary {

  /** A Go byte. */
  type uint8 = x: int | 0 <= x < 0x100

  const TWO_31: int := 0x8000_0000
  const TWO_32: int := 0x1_0000_0000
  const TWO_63: int := 0x8000_0000_0000_0000
  const TWO_64: int := 0x1_0000_0000_0000_0000

  /** A Go int32 and a Go int64. */
  type int32 = x: int | -0x8000_0000 <= x < 0x8000_0000
  type int64 = x: int | -0x8000_0000_0000_0000 <= x < 0x8000_0000_0000_0000

  const MAX_INT32: int32 := 0x7fff_ffff
  const MIN_INT32: int32 := -0x8000_0000

  function Min(a: int, b: int): (m: int)
    ensures m <= a && m <= b && (m == a || m == b)
  {
    if a < b then a else b
  }

  /** 256 to the power n: the number of values n bytes can hold. */
  function Pow256(n: nat): (p: nat)
    ensures p > 0
  {
    if n == 0 then 1 else 256 * Pow256(n - 1)
  }

  lemma Pow256Widths()
    ensures Pow256(4) == TWO_32 && Pow256(8) == TWO_64
  {
  }

  /** Go's conversion of an integer to int32: the low 32 bits, read in
      two's complement. Arithmetic in int32 wraps the same way. */
  function ToInt32(x: int): (r: int32)
    ensures (x - r) % TWO_32 == 0
    ensures MIN_INT32 <= x <= MAX_INT32 ==> r == x
  {
    var low := x % TWO_32;
    if low < TWO_31 then low else low - TWO_32
  }

  /** Go's conversion of an integer to int64. */
  function ToInt64(x: int): (r: int64)
    ensures (x - r) % TWO_64 == 0
    ensures -TWO_63 <= x < TWO_63 ==> r == x
  {
    var low := x % TWO_64;
    if low < TWO_63 then low else low - TWO_64
  }

  /** The low n bytes of x in two's complement, least significant first:
      what binary.Write with binary.LittleEndian emits for an n-byte integer. */
  function EncodeLe(x: int, n: nat): (r: seq<uint8>)
    ensures |r| == n
    decreases n
  {
    if n == 0 then [] else [x % 256] + EncodeLe(x / 256, n - 1)
  }

  /** The unsigned value of bytes stored least significant first. */
  function DecodeLe(bs: seq<uint8>): (r: nat)
    ensures r < Pow256(|bs|)
  {
    if bs == [] then 0
    else
      var high := DecodeLe(bs[1..]);
      assert 256 * high <= 256 * (Pow256(|bs| - 1) - 1);
      bs[0] + 256 * high
  }

  /** Four little-endian bytes read as a Go int32. */
  function DecodeInt32(bs: seq<uint8>): (v: int32)
    requires |bs| == 4
    ensures EncodeLe(v, 4) == bs
  {
    var u := DecodeLe(bs);
    EncodeDecodeLe(bs);
    Pow256Widths();
    if u < TWO_31 then u
    else
      EncodeLeShift(u, 4);
      u - TWO_32
  }

  /** Eight little-endian bytes read as a Go int64. */
  function DecodeInt64(bs: seq<uint8>): (v: int64)
    requires |bs| == 8
    ensures EncodeLe(v, 8) == bs
  {
    var u := DecodeLe(bs);
    EncodeDecodeLe(bs);
    Pow256Widths();
    if u < TWO_63 then u
    else
      EncodeLeShift(u, 8);
      u - TWO_64
  }

  /** Division with remainder has one answer. */
  lemma DivModUnique(x: int, d: int, q: int, r: int)
    requires d > 0 && x == d * q + r && 0 <= r < d
    ensures x / d == q && x % d == r
  {
    var q', r' := x / d, x % d;
    assert d * (q - q') == r' - r;
    if q > q' {
      MulAtLeast(d, q - q');
    } else if q < q' {
      MulAtLeast(d, q' - q);
    }
  }

  lemma MulAtLeast(d: int, k: int)
    requires d > 0 && k >= 1
    ensures d * k >= d
  {
  }

  /** Two integers closer than d with the same remainder modulo d are equal. */
  lemma ModEqualClose(x: int, y: int, d: int)
    requires d > 0 && x % d == y % d && -d < x - y < d
    ensures x == y
  {
    var qx, qy := x / d, y / d;
    assert x - y == d * (qx - qy);
    if qx > qy {
      MulAtLeast(d, qx - qy);
    } else if qx < qy {
      MulAtLeast(d, qy - qx);
    }
  }

  /** Decoding the n bytes of x gives x modulo 256^n. */
  lemma {:induction false} DecodeEncodeLe(x: int, n: nat)
    ensures DecodeLe(EncodeLe(x, n)) == x % Pow256(n)
    decreases n
  {
    if n > 0 {
      var p := Pow256(n - 1);
      DecodeEncodeLe(x / 256, n - 1);
      var e := EncodeLe(x, n);
      assert e[0] == x % 256 && e[1..] == EncodeLe(x / 256, n - 1);
      ModSplit(x, p);
    }
  }

  /** The remainder modulo 256 * p splits into the lowest byte and the
      remainder modulo p of the rest. */
  lemma ModSplit(x: int, p: int)
    requires p > 0
    ensures x % (256 * p) == x % 256 + 256 * ((x / 256) % p)
  {
    var high, low := x / 256, x % 256;
    var q, r := high / p, high % p;
    assert x == 256 * high + low;
    assert high == p * q + r;
    assert x == (256 * p) * q + (256 * r + low) by {
      assert 256 * (p * q) == (256 * p) * q;
    }
    DivModUnique(x, 256 * p, q, 256 * r + low);
  }

  /** Encoding the value of some bytes gives those bytes back. */
  lemma {:induction false} EncodeDecodeLe(bs: seq<uint8>)
    ensures EncodeLe(DecodeLe(bs), |bs|) == bs
  {
    if bs != [] {
      var high := DecodeLe(bs[1..]);
      DivModUnique(bs[0] + 256 * high, 256, high, bs[0]);
      EncodeDecodeLe(bs[1..]);
      assert EncodeLe(DecodeLe(bs), |bs|) == [bs[0]] + EncodeLe(high, |bs| - 1);
    }
  }

  /** Only the value modulo 256^n shows in its n bytes. */
  lemma {:induction false} EncodeLeShift(x: int, n: nat)
    ensures EncodeLe(x - Pow256(n), n) == EncodeLe(x, n)
    decreases n
  {
    if n > 0 {
      var p := Pow256(n - 1);
      assert (x - 256 * p) / 256 == x / 256 - p;
      EncodeLeShift(x / 256, n - 1);
    }
  }

  /** The first n of the n + m bytes of x are the n bytes of x. */
  lemma {:induction false} EncodeLePrefix(x: int, n: nat, m: nat)
    ensures EncodeLe(x, n + m)[..n] == EncodeLe(x, n)
    decreases n
  {
    if n > 0 {
      EncodeLePrefix(x / 256, n - 1, m);
    }
  }

  /** An int32 survives being written as four bytes and read back. */
  lemma Int32RoundTrip(v: int32)
    ensures DecodeInt32(EncodeLe(v, 4)) == v
  {
    var w := DecodeInt32(EncodeLe(v, 4));
    assert EncodeLe(w, 4) == EncodeLe(v, 4);
    DecodeEncodeLe(v, 4);
    DecodeEncodeLe(w, 4);
    Pow256Widths();
    ModEqualClose(w, v, TWO_32);
  }

  /** An int64 survives being written as eight bytes and read back. */
  lemma Int64RoundTrip(v: int64)
    ensures DecodeInt64(EncodeLe(v, 8)) == v
  {
    var w := DecodeInt64(EncodeLe(v, 8));
    assert EncodeLe(w, 8) == EncodeLe(v, 8);
    DecodeEncodeLe(v, 8);
    DecodeEncodeLe(w, 8);
    Pow256Widths();
    ModEqualClose(w, v, TWO_64);
  }

  /** Four bytes read as an int32 are the low 32 bits of any integer whose
      first four little-endian bytes they are. */
  lemma LowBytesInt32(x: int, n: nat)
    requires n >= 4
    ensures DecodeInt32(EncodeLe(x, n)[..4]) == ToInt32(x)
  {
    EncodeLePrefix(x, 4, n - 4);
    var w := DecodeInt32(EncodeLe(x, 4));
    DecodeEncodeLe(x, 4);
    DecodeEncodeLe(w, 4);
    Pow256Widths();
  }

  /** Integers equal modulo 2^64 have the same low 32 bits. */
  lemma Int32OfInt64(x: int, y: int)
    requires (x - y) % TWO_64 == 0
    ensures ToInt32(x) == ToInt32(y)
  {
    var k := (x - y) / TWO_64;
    assert x == y + TWO_64 * k;
    var q, r := y / TWO_32, y % TWO_32;
    assert x == TWO_32 * (q + TWO_32 * k) + r;
    DivModUnique(x, TWO_32, q + TWO_32 * k, r);
  }

  /** bytes.Buffer.Next(n): the next n bytes, or all that remain when fewer
      do, paired with what the buffer still holds afterwards. */
  function Next(buf: seq<uint8>, n: nat): (r: (seq<uint8>, seq<uint8>))
    ensures r.0 + r.1 == buf
    ensures |r.0| == Min(n, |buf|)
  {
    if n < |buf| then (buf[..n], buf[n..]) else (buf, [])
  }

  /** binary.Read of an int32 in little-endian order from a buffer holding
      src. It takes four bytes; with fewer it fails, and since the codec
      ignores that failure the destination keeps Go's zero value. */
  function ReadInt32(src: seq<uint8>): (v: int32)
    ensures |src| < 4 ==> v == 0
    ensures |src| >= 4 ==> EncodeLe(v, 4) == src[..4]
  {
    if |src| < 4 then 0 else DecodeInt32(src[..4])
  }
}
