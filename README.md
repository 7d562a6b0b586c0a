# gomsg frame codec in Dafny

This project models the frame codec of the Go package `msg` (file `msg.go`)
and proves what it does. The package frames messages for a TCP
request/response exchange:

- A **small frame** (`Pack` / `UnPack`) is a 4-byte little-endian `int32`
  type, a 4-byte little-endian `int32` size that counts the 8 header bytes
  plus the body, and then the body. `UnPack` refuses a declared size above
  `maxBuffer` (1024) with the error `OVER_maxBuffer`. It still reports the
  type and the size in that case. Otherwise it keeps at most `size - 8` of
  the bytes that follow the header, and never reads past the end of the input.
- A **big frame** (`PackBig` / `UnpackBig`) is an 8-byte little-endian
  `int64` size and then the body. `UnpackBig` stores the size in an `int32`,
  so `binary.Read` uses only the first four of the eight size bytes. Its test
  against `maxBufferBIG` (2147483647) can never be true.
- `CopyBytes` returns a fresh slice holding one slice followed by another.

Files:

- `binary.dfy`, module `Binary`. Go's `int32`/`int64` and its integer
  conversions, which wrap. The little-endian two's-complement encoding that
  `encoding/binary` uses (`EncodeLe`, `DecodeLe`, `DecodeInt32`,
  `DecodeInt64`). `bytes.Buffer.Next`. A `binary.Read` into an `int32` whose
  error is ignored (`ReadInt32`).
- `codec.dfy`, module `Codec`. The constants of `msg.go`, the `Msg` and
  `Big` types, and the five operations. The four codec operations are pure
  functions over `seq<uint8>`: they only append to a local buffer or advance
  a read cursor, and keep no state. `CopyBytes` is a method that fills a
  fresh array, like Go's `make` followed by two `copy` calls.
- `codec_properties.dfy`, module `CodecProperties`. Lemmas about layout, round
  trips, the capacity error, clamping, short input and the big-frame size.

Decisions:

- Integer widths are written out. `int32(8 + len(c))` in `Pack` is
  `ToInt32`, so a body too long for `int32` wraps the size field and `Pack`
  needs no precondition. `m.Size - int32(sizeHead)` is also computed in
  `int32`. For a declared size in `[MinInt32, MinInt32 + 7]` it wraps to a
  large positive number, at least 2^31 - 8. Then `UnPack` keeps that many
  bytes after the header instead of none. For inputs of at most MaxInt32
  bytes that is every byte after the header (`UnPackWrappedSize`).
- The decoders return both Go results: the frame and an optional error
  (`Decoded`). `None` stands for `nil`. A nil `Content` slice is the empty
  sequence.
- A header field whose bytes are not all present keeps the value 0, because
  the code ignores `binary.Read`'s error. A buffer shorter than 8 bytes
  therefore decodes with no error. `UnpackBig` needs only 4 bytes to set its
  size, since its `int32` read stops after four.
- Short input is not an error. A stricter decoder would reject input
  shorter than the 8-byte header. This code returns zero fields and no error
  instead (`UnPackShortInput`).
- The big-frame size is not checked against any ceiling. A decoder that
  read the whole 8-byte size could compare it with `maxBufferBIG`. This code
  reads 4 bytes into an `int32`, so that test is dead. The big-frame round
  trip therefore holds only while `8 + len(c)` fits an `int32`
  (`UnpackBigPackBigRoundTrip`). Beyond that, the decoded size is the low
  32 bits (`UnpackBigPackBigSize`).

## Model

| member | source | states |
|---|---|---|
| `Binary.ToInt32` | msg.go:106 | the int32 conversion: the result is congruent to the input modulo 2^32, and equals it when the input is in int32 range |
| `Binary.ToInt64` | msg.go:210 | the int64 conversion: congruent to the input modulo 2^64, and equal to it when in range |
| `Binary.EncodeLe` | msg.go:104-107 | binary.Write with binary.LittleEndian of an n-byte integer: exactly n bytes, least significant first; with DecodeLe it is a bijection between x modulo 256^n and n-byte sequences (DecodeEncodeLe, EncodeDecodeLe) |
| `Binary.DecodeLe` | msg.go:49 | the unsigned value of bytes stored least significant first, below 256^n for n bytes; the inverse of EncodeLe on n-byte sequences (EncodeDecodeLe) |
| `Binary.DecodeInt32` | msg.go:49 | four little-endian bytes read as an int32 re-encode to exactly those bytes |
| `Binary.DecodeInt64` | msg.go:211 | eight little-endian bytes read as an int64 re-encode to exactly those bytes |
| `Binary.DecodeEncodeLe` | msg.go:104-107 | decoding the n little-endian bytes written for x gives x modulo 256^n |
| `Binary.EncodeDecodeLe` | msg.go:49 | encoding the value read from some bytes gives those bytes back |
| `Binary.Int32RoundTrip` | msg.go:104 | an int32 written as four little-endian bytes reads back unchanged |
| `Binary.Int64RoundTrip` | msg.go:211 | an int64 written as eight little-endian bytes reads back unchanged |
| `Binary.LowBytesInt32` | msg.go:225 | the first four of the little-endian bytes of x, read as an int32, are x's low 32 bits |
| `Binary.Next` | msg.go:47 | Buffer.Next: the chunk and the remainder concatenate to the buffer, and the chunk holds min(n, length) bytes |
| `Binary.ReadInt32` | msg.go:53 | binary.Read of an int32 with the error ignored: 0 with fewer than four bytes, otherwise the value whose encoding is the first four bytes |
| `Codec.CodecError.Message` | msg.go:56 | the errors.New texts: exactly OVER_maxBuffer for the small-frame cap, and for the big one a distinct text starting with OVER_maxBuffer (OVER_maxBufferBIG in the body, msg.go:228) |
| `Codec.Body` | msg.go:59-67 | the kept body is a prefix of the bytes after the header, of length 0 when rest <= 0 and min(rest, available) otherwise |
| `Codec.Pack` | msg.go:101-112 | the frame has length 8 + len(c); bytes 0..3 decode to the type, bytes 4..7 to int32(8 + len(c)), and the rest is c |
| `Codec.UnPack` | msg.go:43-69 | the only error is OVER_maxBuffer, which comes with an empty body; a non-empty body is the bytes starting at offset 8, all within the input |
| `Codec.PackBig` | msg.go:207-216 | the frame has length 8 + len(c); bytes 0..7 decode to int64(8 + len(c)), and the rest is c |
| `Codec.UnpackBig` | msg.go:219-241 | never returns an error; a non-empty body is the bytes starting at offset 8, all within the input |
| `Codec.CopyInto` | msg.go:202 | Go's copy into dst[at:]: copies min(room, len(src)) elements and changes nothing else in dst |
| `Codec.CopyBytes` | msg.go:198-204 | returns a fresh array equal to a followed by b; a and b are not modified |
| `CodecProperties.UnPackHeader` | msg.go:44-53 | the decoded type is bytes 0..3 and the size is bytes 4..7, each 0 when its bytes are not all present |
| `CodecProperties.UnPackOverCapacity` | msg.go:54-57 | UnPack errs if and only if the declared size exceeds 1024; type and size are then still filled in and the body is empty |
| `CodecProperties.UnPackOverCapacityIgnoresBody` | msg.go:55-56 | with a header declaring more than 1024, UnPack gives the same OVER_maxBuffer result whatever bytes follow |
| `CodecProperties.UnPackClamps` | msg.go:58-67 | below the cap there is no error, and the body is the first min(int32(size - 8), available) bytes after the header, or empty when that is not positive |
| `CodecProperties.UnPackShortInput` | msg.go:47-53 | an input shorter than 8 bytes gives size 0, an empty body and no error; shorter than 4 also gives type 0 |
| `CodecProperties.UnPackIgnoresTrailing` | msg.go:59-67 | for a declared size from MinInt32 + 8 to 1024 with the whole frame present, appending any bytes leaves the result unchanged: bytes beyond the declared size never reach the body, and a size below 8 keeps none; the only exception below the cap is the wrap range [MinInt32, MinInt32 + 7] (UnPackWrappedSize) |
| `CodecProperties.UnPackWrappedSize` | msg.go:60 | a declared size in [MinInt32, MinInt32 + 7] wraps size - 8 to int32(size - 8) >= 2^31 - 8; there is no error, and the body is the first min(available, int32(size - 8)) bytes after the header, which is every byte after it for inputs of at most MaxInt32 bytes |
| `CodecProperties.UnPackPackRoundTrip` | msg.go:43-69 | for 8 + len(c) <= 1024, UnPack(Pack(t, c)) is type t, size 8 + len(c), body c, and no error |
| `CodecProperties.UnPackPackOverCapacity` | msg.go:106 | Pack enforces no cap: for 1024 < 8 + len(c) <= MaxInt32, its frame unpacks to OVER_maxBuffer with type and size set |
| `CodecProperties.PackExample` | msg.go:101-112 | Pack(7, [0x41, 0x42]) is 07 00 00 00 0A 00 00 00 41 42, which unpacks to type 7, size 10 and that body |
| `CodecProperties.UnPackHeaderOnly` | msg.go:59-67 | any input whose header declares size 8 unpacks to the header's type, size 8, an empty body and no error, whatever bytes follow |
| `CodecProperties.UnpackBigSize` | msg.go:223-225 | UnpackBig's size is bytes 0..3 as an int32 once four bytes are present, and 0 otherwise |
| `CodecProperties.UnpackBigIgnoresHighSizeBytes` | msg.go:38 | bytes 4..7 of the 8-byte size field never affect UnpackBig's result |
| `CodecProperties.UnpackBigClamps` | msg.go:231-239 | UnpackBig's body is clamped to min(int32(size - 8), available) bytes after offset 8, like UnPack's |
| `CodecProperties.UnpackBigPackBigSize` | msg.go:210-225 | for every body, UnpackBig(PackBig(c)) reads the size int32(8 + len(c)), the low four of the eight bytes written |
| `CodecProperties.UnpackBigPackBigRoundTrip` | msg.go:219-241 | for 8 + len(c) <= MaxInt32, UnpackBig(PackBig(c)) is size 8 + len(c), body c, and no error |

## Left out

- `Request`, `SingleRequest`, `SingleWrite` and `SingleRead` (msg.go:114-195) are left out because they are bound to I/O. They dial TCP, call `conn.Write` and `conn.Read`, poll with `time.Sleep` and print with `fmt.Printf`.
- `SingleRead` does parse a header itself (msg.go:169-179). It uses the same `Next` and `binary.Read` steps as `UnPack`, but without the `OVER_maxBuffer` check. It computes the body length as `int(m.Size) - sizeHead` in `int` (msg.go:181), so that length does not wrap the way msg.go:60 does. It then reads the body with a single `conn.Read` (msg.go:187). That parse is not modelled separately from the network reads around it.
- single_request.go is left out. It is one TCP exchange with sleep polling and contains no codec logic.
- The commented-out `UnPackUnLimited` (msg.go:71-98) is dead code and is not modelled.
- The internals of `bytes.Buffer` and `encoding/binary` are not modelled. They are replaced by `Next`, `EncodeLe`, `DecodeLe` and `ReadInt32`. Writes to a `bytes.Buffer` cannot fail, so `Pack` and `PackBig` have no error path.
- The error values of `binary.Read` are not modelled, because the code discards them. Only their effect, a field left at 0, is modelled.
- Errors are modelled by kind and text (`CodecError`), not by identity. Each `errors.New` call at msg.go:56 and msg.go:228 makes a new error value, so in Go two failing calls return errors that are not `==` even though their texts are equal. Lemmas such as `UnPackOverCapacityIgnoresBody` compare error kinds, not Go error values.
- Aliasing is not modelled: whether `Content` shares storage with the input slice (msg.go:59, msg.go:63) cannot be seen in a value model. Neither is the difference between a nil slice and an empty one.
- Codec.CopyInto: requires distinct source and destination arrays. Go's `copy` also handles overlapping slices, but `CopyBytes` always copies into a freshly made slice.
