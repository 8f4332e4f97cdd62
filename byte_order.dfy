/** Bytes and the least-significant-byte-first store macros PUT2L and PUT4L
    of lib/iow-zlib.c, with the little-endian reads that undo them. */
module ByteOrder {

  /** An unsigned char. */
  type byte = b: int | 0 <= b < 256

  /** The two bytes PUT2L stores: the low byte of the value, then the byte
      above it (storing into an unsigned char keeps only eight bits). */
  function Put2L(b: nat): (r: seq<byte>)
  {
    [b % 256, (b / 256) % 256]
  }

  /** The four bytes PUT4L stores: the low sixteen bits of the value as PUT2L
      stores them, then the bits above those in the same way. */
  function Put4L(b: nat): (r: seq<byte>)
  {
    Put2L(b % 0x1_0000) + Put2L(b / 0x1_0000)
  }

  /** Reads two bytes, least significant first. */
  function GetLE16(s: seq<byte>): (v: nat)
    requires |s| == 2
    ensures v < 0x1_0000
  {
    s[0] as int + 256 * (s[1] as int)
  }

  /** Reads four bytes, least significant first. */
  function GetLE32(s: seq<byte>): (v: nat)
    requires |s| == 4
    ensures v < 0x1_0000_0000
  {
    GetLE16(s[..2]) + 0x1_0000 * GetLE16(s[2..])
  }

  /** Splitting off the low byte and then the next one gives the low sixteen bits. */
  lemma {:induction false} LowSixteen(b: nat)
    ensures b % 0x1_0000 == b % 256 + 256 * ((b / 256) % 256)
  {
    var q, r1 := b / 256, b % 256;
    var q2, r2 := q / 256, q % 256;
    assert b == 256 * q + r1;
    assert q == 256 * q2 + r2;
    var x := 256 * r2 + r1;
    assert 0 <= x < 0x1_0000;
    assert b == 0x1_0000 * q2 + x;
    assert b % 0x1_0000 == x && b / 0x1_0000 == q2;
  }

  /** Splitting off the low sixteen bits and then the next sixteen gives the low thirty-two. */
  lemma {:induction false} LowThirtyTwo(b: nat)
    ensures b % 0x1_0000_0000 == b % 0x1_0000 + 0x1_0000 * ((b / 0x1_0000) % 0x1_0000)
  {
    var q, r1 := b / 0x1_0000, b % 0x1_0000;
    var q2, r2 := q / 0x1_0000, q % 0x1_0000;
    assert b == 0x1_0000 * q + r1;
    assert q == 0x1_0000 * q2 + r2;
    var x := 0x1_0000 * r2 + r1;
    assert 0 <= x < 0x1_0000_0000;
    assert b == 0x1_0000_0000 * q2 + x;
    assert b % 0x1_0000_0000 == x && b / 0x1_0000_0000 == q2;
  }

  /** Two bytes stored by PUT2L read back as the low sixteen bits of the value. */
  lemma {:induction false} Put2LReadsBack(b: nat)
    ensures |Put2L(b)| == 2 && GetLE16(Put2L(b)) == b % 0x1_0000
  {
    LowSixteen(b);
  }

  /** The four bytes stored by PUT4L read back, little-endian, as the
      value modulo 2^32: this is how a gzip reader recovers CRC32 and ISIZE. */
  lemma {:induction false} Put4LReadsBack(b: nat)
    ensures |Put4L(b)| == 4 && GetLE32(Put4L(b)) == b % 0x1_0000_0000
  {
    var lo, hi := b % 0x1_0000, b / 0x1_0000;
    Put2LReadsBack(lo);
    Put2LReadsBack(hi);
    var s := Put4L(b);
    assert s[..2] == Put2L(lo) && s[2..] == Put2L(hi);
    assert GetLE32(s) == lo + 0x1_0000 * (hi % 0x1_0000);
    LowThirtyTwo(b);
  }

  /** Reading two bytes and storing the value with PUT2L gives the same bytes back. */
  lemma {:induction false} GetLE16Stores(s: seq<byte>)
    requires |s| == 2
    ensures Put2L(GetLE16(s)) == s
  {
  }

  /** Reading four bytes and storing the value with PUT4L gives the same bytes back. */
  lemma {:induction false} GetLE32Stores(s: seq<byte>)
    requires |s| == 4
    ensures Put4L(GetLE32(s)) == s
  {
    var lo, hi := GetLE16(s[..2]), GetLE16(s[2..]);
    assert GetLE32(s) % 0x1_0000 == lo && GetLE32(s) / 0x1_0000 == hi;
    GetLE16Stores(s[..2]);
    GetLE16Stores(s[2..]);
    assert s == s[..2] + s[2..];
  }
}
