/** The gzip container framing of lib/iow-zlib.c: the fixed ten-byte member
    header written by write_gzip_header and the eight-byte trailer written
    by write_gzip_footer (sections 2.2, 2.3 and 2.3.1 of RFC 1952). */
module GzipFramer {
  import opened ByteOrder
  import opened ChildWriter
  import opened Options

  const HeaderLength: nat := 10
  const FooterLength: nat := 8

  /** ID1 and ID2, the gzip magic number. */
  const Id1: byte := 0x1F
  const Id2: byte := 0x8B
  /** CM = 8: the "deflate" compression method. */
  const CmDeflate: byte := 8
  /** OS = 3: Unix. */
  const OsUnix: byte := 3

  /** The fixed part of a gzip member header: CM, FLG, MTIME, XFL and OS
      (ID1 and ID2 are the magic number every header starts with). */
  datatype MemberHeader = MemberHeader(cm: byte, flg: byte, mtime: nat, xfl: byte, os: byte)

  /** The ten header bytes of section 2.3 of RFC 1952, MTIME least significant byte first. */
  function EncodeHeader(h: MemberHeader): (r: seq<byte>)
  {
    [Id1, Id2, h.cm, h.flg] + Put4L(h.mtime) + [h.xfl, h.os]
  }

  /** Reads the fixed ten-byte header back; anything that is not ten bytes
      starting with the magic number is not a gzip member header. */
  function DecodeHeader(s: seq<byte>): (r: Option<MemberHeader>)
  {
    if |s| != HeaderLength || s[0] != Id1 || s[1] != Id2 then None
    else Some(MemberHeader(s[2], s[3], GetLE32(s[4..8]), s[8], s[9]))
  }

  /** The XFL byte write_gzip_header derives from the compression level. */
  function ExtraFlags(level: int): (x: byte)
    ensures x == 0 || x == 2 || x == 4
  {
    if level >= 9 then 2 else if level == 1 then 4 else 0
  }

  /** The header write_gzip_header builds in head[0..10]: no file name, no
      time stamp, no optional fields. */
  function Header(level: int): (r: seq<byte>)
    ensures |r| == HeaderLength
  {
    [Id1, Id2, CmDeflate, 0, 0, 0, 0, 0, ExtraFlags(level), OsUnix]
  }

  /** The trailer write_gzip_footer builds: PUT4L of the checksum, then PUT4L
      of the uncompressed length. */
  function Footer(check: nat, ulen: nat): (r: seq<byte>)
    ensures |r| == FooterLength
  {
    Put4L(check) + Put4L(ulen)
  }

  /** Reads CRC32 and ISIZE back from an eight-byte trailer. */
  function DecodeFooter(s: seq<byte>): (r: Option<(nat, nat)>)
  {
    if |s| != FooterLength then None
    else Some((GetLE32(s[..4]), GetLE32(s[4..])))
  }

  /** The header is a gzip member header with CM = deflate, FLG = 0 (so no
      optional field follows it), MTIME = 0, OS = Unix and XFL = 2 ("maximum
      compression") from level 9 up, 4 ("fastest") at level 1 and 0 otherwise,
      and it is the encoding of exactly those fields. */
  lemma HeaderFields(level: int)
    ensures DecodeHeader(Header(level)).Some?
    ensures var h := DecodeHeader(Header(level)).value;
            h.cm == CmDeflate && h.flg == 0 && h.mtime == 0 && h.os == OsUnix &&
            (h.xfl == 2 <==> level >= 9) && (h.xfl == 4 <==> level == 1) &&
            (h.xfl == 0 <==> level < 9 && level != 1) &&
            EncodeHeader(h) == Header(level)
  {
    var s := Header(level);
    assert s[4..8] == Put4L(0);
    Put4LReadsBack(0);
  }

  /** Encoding a header and reading it back gives the same fields. */
  lemma {:induction false} HeaderReadsBack(h: MemberHeader)
    requires h.mtime < 0x1_0000_0000
    ensures DecodeHeader(EncodeHeader(h)) == Some(h)
  {
    var s := EncodeHeader(h);
    assert s[4..8] == Put4L(h.mtime);
    Put4LReadsBack(h.mtime);
  }

  /** Every ten bytes that read as a header are the encoding of what was read. */
  lemma {:induction false} HeaderDecodesExactly(s: seq<byte>)
    requires DecodeHeader(s).Some?
    ensures DecodeHeader(s).value.mtime < 0x1_0000_0000
    ensures EncodeHeader(DecodeHeader(s).value) == s
  {
    GetLE32Stores(s[4..8]);
    assert s == s[..4] + s[4..8] + s[8..];
  }

  /** The trailer is eight bytes that read back as the checksum and the
      length, each modulo 2^32 (section 2.3.1 of RFC 1952: CRC32 and ISIZE). */
  lemma {:induction false} FooterReadsBack(check: nat, ulen: nat)
    ensures |Footer(check, ulen)| == FooterLength
    ensures DecodeFooter(Footer(check, ulen)) == Some((check % 0x1_0000_0000, ulen % 0x1_0000_0000))
  {
    var s := Footer(check, ulen);
    Put4LReadsBack(check);
    Put4LReadsBack(ulen);
    assert s[..4] == Put4L(check) && s[4..] == Put4L(ulen);
  }

  /** Every eight-byte trailer is the footer of the values read from it. */
  lemma {:induction false} FooterDecodesExactly(s: seq<byte>)
    requires |s| == FooterLength
    ensures var (check, ulen) := DecodeFooter(s).value;
            check < 0x1_0000_0000 && ulen < 0x1_0000_0000 && Footer(check, ulen) == s
  {
    GetLE32Stores(s[..4]);
    GetLE32Stores(s[4..]);
    assert s == s[..4] + s[4..];
  }

  /** write_gzip_header: one write of the ten header bytes to the child;
      returns 10 when the child accepted it and 0 when it failed. */
  method WriteGzipHeader(child: Child, compression: int) returns (len: nat, ghost reply: int)
    modifies child
    ensures child.log == old(child.log) + [Wrote(Header(compression), reply)]
    ensures len == if reply > 0 then HeaderLength else 0
  {
    var head := Header(compression);
    len := HeaderLength;
    var bytesWritten := child.Write(head);
    reply := bytesWritten;
    if bytesWritten <= 0 {
      len := 0;
    }
  }

  /** write_gzip_footer: one write of the eight trailer bytes to the child;
      returns 8 when the child accepted it and 0 when it failed. */
  method WriteGzipFooter(child: Child, check: nat, ulen: nat) returns (len: nat, ghost reply: int)
    modifies child
    ensures child.log == old(child.log) + [Wrote(Footer(check, ulen), reply)]
    ensures len == if reply > 0 then FooterLength else 0
  {
    len := FooterLength;
    var tail := Footer(check, ulen);
    var bytesWritten := child.Write(tail);
    reply := bytesWritten;
    if bytesWritten <= 0 {
      len := 0;
    }
  }
}
