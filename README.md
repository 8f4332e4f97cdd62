# Verified model of libwandio's gzip-framing compressing writer

This project models `lib/iow-zlib.c`, the libwandio write module that sits
between an application and a child writer (`iow_t`). It frames the output as a
gzip member: a ten-byte header when the writer is opened, then the bytes
produced by an external block codec, collected in a 1 MiB output buffer and
flushed to the child, then an eight-byte CRC32/ISIZE trailer when it is closed.

The model has six modules, one file each:

- `Options` (`options.dfy`): the `Option` datatype that decoders and searches
  return.
- `ByteOrder` (`byte_order.dfy`): the byte type, the `PUT2L`/`PUT4L` macros and
  the little-endian reads that undo them.
- `ChildWriter` (`child_writer.dfy`): the child writer. It is a class with a
  ghost log of the calls made on it, in order: each `wandio_wwrite` call with
  the bytes passed and the value returned, and the `wandio_wdestroy` call.
  Each write's answer is left open: any value up to the number of bytes
  offered, where a value of zero or less means failure.
- `GzipFramer` (`gzip_framer.dfy`): `write_gzip_header` and
  `write_gzip_footer`. The header and trailer bytes are pure functions, proved
  against decoders for the fixed header and the trailer of RFC 1952 (sections
  2.3 and 2.3.1). The two write methods issue one child write each.
- `ZlibWriterSpec` (`zlib_writer_spec.dfy`): pure functions on a snapshot of
  `struct zlibw_t`. `WriteSpec` is one `zlib_wwrite` call, `Run` is a sequence
  of calls, and `CloseWrites` gives the bytes `zlib_wclose` sends. Most of the
  properties are lemmas about these functions.
- `ZlibWriter` (`zlib_writer.dfy`): `struct zlibw_t` as the class `Session`,
  with an `array` output buffer. `zlib_wopen` is modelled by `Open` and the
  constructor, `zlib_wwrite` by `Write`, and `zlib_wclose` by `Close`. `Write`
  keeps the source's two nested `while` loops. Its contract says that the new
  state, the return value and the child writes are exactly what `WriteSpec`
  gives.

The codec (`blosc_compress`) and zlib's `crc32` are function values passed to
`Open`. The codec maps (level, input) to output bytes, and the CRC maps
(crc, bytes) to a value. `CrcSeed = 0` is the value of `crc32(0L, Z_NULL, 0)`.

The model follows the code where it departs from RFC 1952 or from what a
gzip writer is expected to do:

- `check` and `ulen` are reset at the start of every non-empty write
  (lib/iow-zlib.c:250-256). So the trailer gives the CRC-32 and length of the
  last non-empty write only (`LastWriteWins`, `TwoWritesKeepOnlySecond`).
  Section 2.3.1 of RFC 1952 says CRC32 and ISIZE cover the whole
  uncompressed input of the member.
- `check` and `ulen` are never set by `zlib_wopen`. The constructor gives them
  arbitrary values.
- A flush hands the child the whole 1 MiB buffer, including the bytes past the
  fill point (lib/iow-zlib.c:266; `FlushPolicy`, `OkRunFlushes`).
- `zlib_wclose` writes only the filled part of the buffer, then the trailer,
  then destroys the child.
- The status never becomes EOF inside this module. EOF is handled only when
  something else has set it.
- After a refused flush the source returns `len - avail_in` if some input was
  consumed, or -1 otherwise. The whole input is consumed in one codec call
  after the flush, so no input is ever consumed before a flush. The value
  returned is always -1 (`FailedFlush`).

## Model

| member | source | states |
|---|---|---|
| `ByteOrder.Put2LReadsBack` | lib/iow-zlib.c:72 | the two bytes PUT2L stores read back, least significant first, as the value modulo 2^16 |
| `ByteOrder.Put4LReadsBack` | lib/iow-zlib.c:73 | the four bytes PUT4L stores are four bytes that read back, least significant first, as the value modulo 2^32 |
| `ByteOrder.GetLE16Stores` | lib/iow-zlib.c:72 | any two bytes are what PUT2L stores for the value they read as |
| `ByteOrder.GetLE32Stores` | lib/iow-zlib.c:73 | any four bytes are what PUT4L stores for the value they read as |
| `GzipFramer.HeaderFields` | lib/iow-zlib.c:97-108 | the header is a ten-byte gzip member header with ID1/ID2 = 1F 8B, CM = 8, FLG = 0, MTIME = 0, OS = 3, and XFL = 2 iff level >= 9, 4 iff level == 1, 0 otherwise; it is exactly the encoding of those fields |
| `GzipFramer.HeaderReadsBack` | lib/iow-zlib.c:98-106 | encoding any header's fields (MTIME below 2^32) and decoding them gives the same fields |
| `GzipFramer.HeaderDecodesExactly` | lib/iow-zlib.c:98-106 | any bytes that decode as a header are the encoding of the decoded fields |
| `GzipFramer.FooterReadsBack` | lib/iow-zlib.c:137-142 | the trailer is 8 bytes: bytes 0-3 decode to check mod 2^32 and bytes 4-7 to ulen mod 2^32, little-endian |
| `GzipFramer.FooterDecodesExactly` | lib/iow-zlib.c:137-142 | any eight bytes are the trailer of the two 32-bit values they decode to |
| `GzipFramer.WriteGzipHeader` | lib/iow-zlib.c:91-130 | exactly one child write, of the ten header bytes; returns 10 if the child answered > 0, else 0 |
| `GzipFramer.WriteGzipFooter` | lib/iow-zlib.c:135-156 | exactly one child write, of the eight trailer bytes; returns 8 if the child answered > 0, else 0 |
| `ZlibWriterSpec.WriteSpec` | lib/iow-zlib.c:232-305 | a write keeps fill + avail_out == BUF_OUT_SIZE, returns at most len, and issues either no child write or one write of the whole buffer |
| `ZlibWriterSpec.StickyStatus` | lib/iow-zlib.c:234-239 | with err EOF or ERROR a write changes no state, issues no child write and returns 0 or -1 |
| `ZlibWriterSpec.ZeroLengthWrite` | lib/iow-zlib.c:250-262 | a zero-length write with err OK leaves check, ulen, status and buffer unchanged, issues no child write and returns 0 |
| `ZlibWriterSpec.FlushPolicy` | lib/iow-zlib.c:262-277 | a non-empty write flushes iff avail_out <= 51200; the flush passes all BUF_OUT_SIZE bytes, with the pending ones first |
| `ZlibWriterSpec.FailedFlush` | lib/iow-zlib.c:266-274 | a refused flush sets err to ERROR and returns -1; check and ulen are already reset and the buffer is untouched |
| `ZlibWriterSpec.SuccessfulWrite` | lib/iow-zlib.c:250-304 | a non-empty write with no refused flush returns len, sets ulen = len and check = crc32(seed, this call's bytes), and appends the codec output to the pending bytes (an emptied buffer after a flush) |
| `ZlibWriterSpec.WriteKeepsSessionLog` | lib/iow-zlib.c:262-277 | the child's log stays: accepted header, then whole-buffer flushes, all accepted while err is OK |
| `ZlibWriterSpec.Run` | lib/iow-zlib.c:232-305 | a sequence of writes gives one return value per write, at most one child write per write, and keeps the buffer accounting |
| `ZlibWriterSpec.StickyRun` | lib/iow-zlib.c:234-239 | after EOF or ERROR, any number of writes change nothing, reach neither codec nor child, and each returns 0 or -1 |
| `ZlibWriterSpec.OkRunFlushes` | lib/iow-zlib.c:264-277 | every flush of a run carries BUF_OUT_SIZE bytes; if the run ends OK it started OK and every flush was accepted |
| `ZlibWriterSpec.LastWriteWins` | lib/iow-zlib.c:250-256 | after a run that ends OK, check and ulen are the CRC-32 and length of the last non-empty write, or unchanged if there was none |
| `ZlibWriterSpec.TwoWritesKeepOnlySecond` | lib/iow-zlib.c:250-256 | after non-empty writes a then b, ulen is the length of b (not the sum of both lengths) and check == crc32(seed, b) |
| `ZlibWriterSpec.CloseAfterRun` | lib/iow-zlib.c:335-339 | close sends the pending bytes, then a trailer that decodes to the CRC-32 and length (mod 2^32) of the last non-empty write |
| `ZlibWriter.Session.constructor` | lib/iow-zlib.c:187-198 | a fresh 1 MiB buffer, empty (next_out at 0, avail_out == BUF_OUT_SIZE), err OK, the level, codec and CRC stored |
| `ZlibWriter.Session.Write` | lib/iow-zlib.c:232-305 | new state, return value and child writes are exactly those of WriteSpec; the session invariant is kept |
| `ZlibWriter.Session.CompressStep` | lib/iow-zlib.c:278-286 | check advanced over the input, codec output placed at next_out, next_out/avail_out moved by csize, avail_in 0, ulen + len |
| `ZlibWriter.Session.Close` | lib/iow-zlib.c:333-341 | the child gets exactly three more calls, in this order: a write of the BUF_OUT_SIZE - avail_out filled bytes, a write of the trailer of the current check/ulen, then the destroy; the session's first call is still the header write |
| `ZlibWriter.Open` | lib/iow-zlib.c:159-230 | null child or compressor refused: NULL and no call on the child; otherwise exactly one call, the header write, and a session (valid, empty buffer, err OK, the level) iff the child accepted it |

## Left out

- The blosc library (`blosc_init`, `blosc_set_nthreads`, `blosc_set_compressor`, `blosc_destroy`, `blosc_compress` internals) is foreign code with its own threads. The codec is a function parameter, and the compressor-selection result is a boolean parameter of `Open`.
- ZlibWriter.Session.Write: the source never checks that the codec's output fits. It passes `BUF_OUT_SIZE` as the destination size, not `avail_out`, and uses `csize` unchecked, even when it is negative. The model requires the output to fit in the free space (`CodecFits`), and the output length is never negative.
- zlib's `deflateInit2`, `deflateEnd` and the `crc32` algorithm are foreign calls. The deflate calls do not affect the bytes produced. `crc32` is a function parameter with seed 0.
- The `#if 0` blocks (alternative header via `deflateSetHeader`, `deflate` inside write, the `Z_FINISH` loop in close) are compiled out.
- `printf` logging, `malloc`/`free`, and the leaks on the early NULL returns of `zlib_wopen` are I/O and allocation plumbing.
- ZlibWriter.Session.Write: `len` is narrowed from `int64_t` to `int`, and `avail_in` is a `uInt`. The model requires `len < 2^31` rather than modelling the truncation.
- ChildWriter.Child.Write: the child's answer is assumed to be at most the number of bytes offered. So storing it in an `int` never truncates it.
- ZlibWriter.Session.Close: reading the uninitialised `check`/`ulen` when no non-empty write happened gives whatever values the constructor chose. No particular value is specified.
- Using a session after close, or closing it twice, is undefined in the source. The model rules both out through the session invariant.
- The `iow_source_t` table `zlib_wsource` is framework glue.
