/** The compressing writer of lib/iow-zlib.c: struct zlibw_t as a class whose
    methods zlib_wopen, zlib_wwrite and zlib_wclose update its fields and its
    1 MiB output buffer in place. Each method is proved to do what the
    functions of ZlibWriterSpec say. */
module ZlibWriter {
  import opened ByteOrder
  import opened ChildWriter
  import opened GzipFramer
  import opened ZlibWriterSpec

  /** struct zlibw_t. */
  class Session {
    /** The child writer this session owns. */
    const child: Child
    /** outbuff, BUF_OUT_SIZE bytes. */
    const outbuff: array<byte>
    /** The compression level given to open. */
    const compression: int
    /** blosc_compress at this session's settings. */
    const codec: Codec
    /** zlib's crc32. */
    const crc: Crc
    /** How many calls the child had seen before the header. */
    ghost const logStart: nat

    var err: Status
    var check: nat
    var ulen: nat
    /** strm.next_out, as an offset into outbuff. */
    var nextOut: nat
    /** strm.avail_out. */
    var availOut: nat
    /** strm.avail_in. */
    var availIn: nat
    /** Set by close; the session may not be used after it. */
    ghost var closed: bool

    function Cfg(): Config
    {
      Config(compression, codec, crc)
    }

    /** The state the functions of ZlibWriterSpec speak about. */
    ghost function Snap(): Snapshot
      reads this, outbuff
    {
      Snapshot(err, check, ulen, outbuff[..], nextOut, availOut, availIn)
    }

    /** The session invariant: the buffer accounting adds up, the first
        write the child saw from this session is an accepted gzip header,
        every write after it is a flush of the whole buffer, every one of
        those was accepted while err is OK, and the child is not destroyed. */
    ghost predicate Valid()
      reads this, outbuff, child
    {
      !closed && Wellformed(Snap()) &&
      SessionLog(child.log, logStart, compression, err)
    }

    /** The field set-up of zlib_wopen, before the header is written: an empty
        output buffer and err = ERR_OK. check and ulen are left unset, as in
        the source, and so take arbitrary values here. */
    constructor (child: Child, level: int, codec: Codec, crc: Crc)
      ensures this.child == child && compression == level && this.codec == codec && this.crc == crc
      ensures fresh(outbuff) && Wellformed(Snap())
      ensures err == Ok && nextOut == 0 && availOut == BufOutSize && availIn == 0 && !closed
      ensures logStart == |child.log|
    {
      this.child := child;
      this.compression := level;
      this.codec := codec;
      this.crc := crc;
      logStart := |child.log|;
      outbuff := new byte[BufOutSize];
      availIn := 0;
      nextOut := 0;
      availOut := BufOutSize;
      err := Ok;
      check := *;
      ulen := *;
      closed := false;
    }

    /** zlib_wwrite(iow, data, |data|). flushReply is the child's answer to
        the flush, when the write makes one. */
    method Write(data: seq<byte>) returns (r: int, ghost flushReply: int)
      requires Valid()
      requires |data| < MaxLen
      requires CodecFits(Snap(), Cfg(), data)
      modifies this`err, this`check, this`ulen, this`nextOut, this`availOut, this`availIn, outbuff, child
      ensures Valid()
      ensures var st := WriteSpec(old(Snap()), Cfg(), data, flushReply);
              Snap() == st.post && r == st.ret && child.log == old(child.log) + st.calls
    {
      flushReply := 1;
      if err == Eof {
        return 0, flushReply;
      }
      if err == Error {
        return -1, flushReply;
      }
      ghost var s0 := Snap();
      if |data| > 0 {
        check := CrcSeed;
        ulen := 0;
      }
      availIn := |data|;
      while err == Ok && availIn > 0
        invariant Wellformed(Snap()) && err == Ok
        invariant availIn == |data| ==> Snap() == Reset(s0, data) && child.log == old(child.log)
        invariant availIn != |data| ==>
                    availIn == 0 && (NeedsFlush(s0) ==> flushReply > 0) &&
                    Snap() == Compressed(if NeedsFlush(s0) then Emptied(Reset(s0, data)) else Reset(s0, data), Cfg(), data) &&
                    child.log == old(child.log) + FlushCalls(s0, flushReply)
        decreases availIn
      {
        while availOut <= FlushMark
          invariant availIn == |data|
          invariant (Snap() == Reset(s0, data) && child.log == old(child.log)) ||
                    (NeedsFlush(s0) && flushReply > 0 && Snap() == Emptied(Reset(s0, data)) &&
                     child.log == old(child.log) + FlushCalls(s0, flushReply))
          decreases if availOut <= FlushMark then 1 else 0
        {
          var bytesWritten := child.Write(outbuff[..]);
          flushReply := bytesWritten;
          if bytesWritten <= 0 {
            err := Error;
            WriteKeepsSessionLog(old(child.log), logStart, s0, Cfg(), data, flushReply);
            return if availIn != |data| then |data| - availIn else -1, flushReply;
          }
          nextOut := 0;
          availOut := BufOutSize;
        }
        CompressStep(data);
      }
      WriteKeepsSessionLog(old(child.log), logStart, s0, Cfg(), data, flushReply);
      return |data| - availIn, flushReply;
    }

    /** One pass of the body of the outer loop of zlib_wwrite after any flush:
        check is advanced over the avail_in input bytes, the codec's output
        is placed at next_out, and avail_in, avail_out, next_out and ulen are
        updated. */
    method CompressStep(data: seq<byte>)
      requires Wellformed(Snap()) && availIn == |data|
      requires |codec(compression, data)| <= availOut
      modifies this`check, this`ulen, this`availIn, this`availOut, this`nextOut, outbuff
      ensures Snap() == Compressed(old(Snap()), Cfg(), data)
    {
      assert data[..availIn] == data;
      check := crc(check, data[..availIn]);
      var out := codec(compression, data);
      forall i | nextOut <= i < nextOut + |out| {
        outbuff[i] := out[i - nextOut];
      }
      assert outbuff[..] == old(outbuff[..nextOut]) + out + old(outbuff[nextOut + |out|..]);
      availIn := availIn - |data|;
      availOut := availOut - |out|;
      nextOut := nextOut + |out|;
      ulen := ulen + |data|;
    }

    /** zlib_wclose: write the filled part of outbuff, then the trailer, then
        destroy the child, in that order. The answers of the two writes are
        ignored by the source; they are returned here as ghosts. */
    method Close() returns (ghost bufferReply: int, ghost footerReply: int)
      requires Valid()
      modifies this, child
      ensures closed
      ensures var w := CloseWrites(old(Snap()));
              child.log == old(child.log) + [Wrote(w[0], bufferReply), Wrote(w[1], footerReply), Destroyed]
      ensures child.log[logStart].Wrote? && child.log[logStart].data == Header(compression)
    {
      bufferReply := child.Write(outbuff[..BufOutSize - availOut]);
      var footerLen;
      footerLen, footerReply := WriteGzipFooter(child, check, ulen);
      child.Destroy();
      closed := true;
    }
  }

  /** zlib_wopen(child, level): no session without a child, nor when blosc
      refuses the "zlib" compressor (compressorSet stands for the result of
      blosc_set_compressor being non-negative); otherwise the session is set
      up, the header is written to the child, and the session is returned
      only if the child accepted the header. */
  method Open(child: Child?, level: int, compressorSet: bool, codec: Codec, crc: Crc) returns (w: Session?, ghost headerReply: int)
    modifies child
    ensures child == null || !compressorSet ==> w == null && (child != null ==> unchanged(child))
    ensures child != null && compressorSet ==>
              child.log == old(child.log) + [Wrote(Header(level), headerReply)] &&
              (w != null <==> headerReply > 0)
    ensures w != null ==>
              fresh(w) && fresh(w.outbuff) && w.Valid() &&
              w.child == child && w.compression == level && w.codec == codec && w.crc == crc &&
              w.err == Ok && w.nextOut == 0 && w.availOut == BufOutSize
  {
    headerReply := 0;
    if child == null {
      return null, headerReply;
    }
    if !compressorSet {
      return null, headerReply;
    }
    w := new Session(child, level, codec, crc);
    var len;
    len, headerReply := WriteGzipHeader(child, level);
    if len == 0 {
      return null, headerReply;
    }
  }
}
