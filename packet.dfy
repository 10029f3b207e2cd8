/**
 * The px4io wire packet: a 68-byte frame made of a count/code byte, a CRC byte,
 * a page byte, an offset byte and 32 little-endian 16-bit register slots, and
 * the table-driven CRC8 that protects it.
 *
 * The packet is held as its byte image, the way the driver hands it to the
 * serial port. The pure functions over `Image` are the specification; the
 * class `IoPacket` updates an image in place.
 */
module Packet {

  datatype Option<T> = None | Some(value: T)

  /** Bytes of the packet header (count/code, crc, page, offset). */
  const PacketHeaderLen: nat := 4
  /** Number of register slots a packet carries. */
  const MaxPacketRegisters: nat := 32
  /** Size of the whole frame in bytes. */
  const PacketMaxLen: nat := PacketHeaderLen + MaxPacketRegisters * 2

  /** Extracts the operation code from the count/code byte. */
  const PacketCodeMask: bv8 := 0xC0
  /** Extracts the register count from the count/code byte. */
  const PacketRegCountMask: bv8 := 0x3F

  /**
   * The fixed CRC8 lookup table of the coprocessor firmware: entry `i` sits in
   * row `i >> 4`, column `i & 0xF`.
   */
  function Crc8Table(i: bv8): bv8 {
    var hi, lo := i >> 4, i & 0xF;
    if hi == 0x0 then (if lo == 0 then 0x00 else if lo == 1 then 0x07 else if lo == 2 then 0x0E else if lo == 3 then 0x09 else if lo == 4 then 0x1C else if lo == 5 then 0x1B else if lo == 6 then 0x12 else if lo == 7 then 0x15 else if lo == 8 then 0x38 else if lo == 9 then 0x3F else if lo == 10 then 0x36 else if lo == 11 then 0x31 else if lo == 12 then 0x24 else if lo == 13 then 0x23 else if lo == 14 then 0x2A else 0x2D)
    else if hi == 0x1 then (if lo == 0 then 0x70 else if lo == 1 then 0x77 else if lo == 2 then 0x7E else if lo == 3 then 0x79 else if lo == 4 then 0x6C else if lo == 5 then 0x6B else if lo == 6 then 0x62 else if lo == 7 then 0x65 else if lo == 8 then 0x48 else if lo == 9 then 0x4F else if lo == 10 then 0x46 else if lo == 11 then 0x41 else if lo == 12 then 0x54 else if lo == 13 then 0x53 else if lo == 14 then 0x5A else 0x5D)
    else if hi == 0x2 then (if lo == 0 then 0xE0 else if lo == 1 then 0xE7 else if lo == 2 then 0xEE else if lo == 3 then 0xE9 else if lo == 4 then 0xFC else if lo == 5 then 0xFB else if lo == 6 then 0xF2 else if lo == 7 then 0xF5 else if lo == 8 then 0xD8 else if lo == 9 then 0xDF else if lo == 10 then 0xD6 else if lo == 11 then 0xD1 else if lo == 12 then 0xC4 else if lo == 13 then 0xC3 else if lo == 14 then 0xCA else 0xCD)
    else if hi == 0x3 then (if lo == 0 then 0x90 else if lo == 1 then 0x97 else if lo == 2 then 0x9E else if lo == 3 then 0x99 else if lo == 4 then 0x8C else if lo == 5 then 0x8B else if lo == 6 then 0x82 else if lo == 7 then 0x85 else if lo == 8 then 0xA8 else if lo == 9 then 0xAF else if lo == 10 then 0xA6 else if lo == 11 then 0xA1 else if lo == 12 then 0xB4 else if lo == 13 then 0xB3 else if lo == 14 then 0xBA else 0xBD)
    else if hi == 0x4 then (if lo == 0 then 0xC7 else if lo == 1 then 0xC0 else if lo == 2 then 0xC9 else if lo == 3 then 0xCE else if lo == 4 then 0xDB else if lo == 5 then 0xDC else if lo == 6 then 0xD5 else if lo == 7 then 0xD2 else if lo == 8 then 0xFF else if lo == 9 then 0xF8 else if lo == 10 then 0xF1 else if lo == 11 then 0xF6 else if lo == 12 then 0xE3 else if lo == 13 then 0xE4 else if lo == 14 then 0xED else 0xEA)
    else if hi == 0x5 then (if lo == 0 then 0xB7 else if lo == 1 then 0xB0 else if lo == 2 then 0xB9 else if lo == 3 then 0xBE else if lo == 4 then 0xAB else if lo == 5 then 0xAC else if lo == 6 then 0xA5 else if lo == 7 then 0xA2 else if lo == 8 then 0x8F else if lo == 9 then 0x88 else if lo == 10 then 0x81 else if lo == 11 then 0x86 else if lo == 12 then 0x93 else if lo == 13 then 0x94 else if lo == 14 then 0x9D else 0x9A)
    else if hi == 0x6 then (if lo == 0 then 0x27 else if lo == 1 then 0x20 else if lo == 2 then 0x29 else if lo == 3 then 0x2E else if lo == 4 then 0x3B else if lo == 5 then 0x3C else if lo == 6 then 0x35 else if lo == 7 then 0x32 else if lo == 8 then 0x1F else if lo == 9 then 0x18 else if lo == 10 then 0x11 else if lo == 11 then 0x16 else if lo == 12 then 0x03 else if lo == 13 then 0x04 else if lo == 14 then 0x0D else 0x0A)
    else if hi == 0x7 then (if lo == 0 then 0x57 else if lo == 1 then 0x50 else if lo == 2 then 0x59 else if lo == 3 then 0x5E else if lo == 4 then 0x4B else if lo == 5 then 0x4C else if lo == 6 then 0x45 else if lo == 7 then 0x42 else if lo == 8 then 0x6F else if lo == 9 then 0x68 else if lo == 10 then 0x61 else if lo == 11 then 0x66 else if lo == 12 then 0x73 else if lo == 13 then 0x74 else if lo == 14 then 0x7D else 0x7A)
    else if hi == 0x8 then (if lo == 0 then 0x89 else if lo == 1 then 0x8E else if lo == 2 then 0x87 else if lo == 3 then 0x80 else if lo == 4 then 0x95 else if lo == 5 then 0x92 else if lo == 6 then 0x9B else if lo == 7 then 0x9C else if lo == 8 then 0xB1 else if lo == 9 then 0xB6 else if lo == 10 then 0xBF else if lo == 11 then 0xB8 else if lo == 12 then 0xAD else if lo == 13 then 0xAA else if lo == 14 then 0xA3 else 0xA4)
    else if hi == 0x9 then (if lo == 0 then 0xF9 else if lo == 1 then 0xFE else if lo == 2 then 0xF7 else if lo == 3 then 0xF0 else if lo == 4 then 0xE5 else if lo == 5 then 0xE2 else if lo == 6 then 0xEB else if lo == 7 then 0xEC else if lo == 8 then 0xC1 else if lo == 9 then 0xC6 else if lo == 10 then 0xCF else if lo == 11 then 0xC8 else if lo == 12 then 0xDD else if lo == 13 then 0xDA else if lo == 14 then 0xD3 else 0xD4)
    else if hi == 0xA then (if lo == 0 then 0x69 else if lo == 1 then 0x6E else if lo == 2 then 0x67 else if lo == 3 then 0x60 else if lo == 4 then 0x75 else if lo == 5 then 0x72 else if lo == 6 then 0x7B else if lo == 7 then 0x7C else if lo == 8 then 0x51 else if lo == 9 then 0x56 else if lo == 10 then 0x5F else if lo == 11 then 0x58 else if lo == 12 then 0x4D else if lo == 13 then 0x4A else if lo == 14 then 0x43 else 0x44)
    else if hi == 0xB then (if lo == 0 then 0x19 else if lo == 1 then 0x1E else if lo == 2 then 0x17 else if lo == 3 then 0x10 else if lo == 4 then 0x05 else if lo == 5 then 0x02 else if lo == 6 then 0x0B else if lo == 7 then 0x0C else if lo == 8 then 0x21 else if lo == 9 then 0x26 else if lo == 10 then 0x2F else if lo == 11 then 0x28 else if lo == 12 then 0x3D else if lo == 13 then 0x3A else if lo == 14 then 0x33 else 0x34)
    else if hi == 0xC then (if lo == 0 then 0x4E else if lo == 1 then 0x49 else if lo == 2 then 0x40 else if lo == 3 then 0x47 else if lo == 4 then 0x52 else if lo == 5 then 0x55 else if lo == 6 then 0x5C else if lo == 7 then 0x5B else if lo == 8 then 0x76 else if lo == 9 then 0x71 else if lo == 10 then 0x78 else if lo == 11 then 0x7F else if lo == 12 then 0x6A else if lo == 13 then 0x6D else if lo == 14 then 0x64 else 0x63)
    else if hi == 0xD then (if lo == 0 then 0x3E else if lo == 1 then 0x39 else if lo == 2 then 0x30 else if lo == 3 then 0x37 else if lo == 4 then 0x22 else if lo == 5 then 0x25 else if lo == 6 then 0x2C else if lo == 7 then 0x2B else if lo == 8 then 0x06 else if lo == 9 then 0x01 else if lo == 10 then 0x08 else if lo == 11 then 0x0F else if lo == 12 then 0x1A else if lo == 13 then 0x1D else if lo == 14 then 0x14 else 0x13)
    else if hi == 0xE then (if lo == 0 then 0xAE else if lo == 1 then 0xA9 else if lo == 2 then 0xA0 else if lo == 3 then 0xA7 else if lo == 4 then 0xB2 else if lo == 5 then 0xB5 else if lo == 6 then 0xBC else if lo == 7 then 0xBB else if lo == 8 then 0x96 else if lo == 9 then 0x91 else if lo == 10 then 0x98 else if lo == 11 then 0x9F else if lo == 12 then 0x8A else if lo == 13 then 0x8D else if lo == 14 then 0x84 else 0x83)
    else (if lo == 0 then 0xDE else if lo == 1 then 0xD9 else if lo == 2 then 0xD0 else if lo == 3 then 0xD7 else if lo == 4 then 0xC2 else if lo == 5 then 0xC5 else if lo == 6 then 0xCC else if lo == 7 then 0xCB else if lo == 8 then 0xE6 else if lo == 9 then 0xE1 else if lo == 10 then 0xE8 else if lo == 11 then 0xEF else if lo == 12 then 0xFA else if lo == 13 then 0xFD else if lo == 14 then 0xF4 else 0xF3)
  }

  /**
   * The CRC-8 of the single byte `i` under the polynomial x^8 + x^2 + x + 1
   * (0x07), written as the XOR of the images of its set bits: the register
   * is linear over GF(2), so bit k of `i` contributes the entry for 1 << k.
   */
  function Crc8Poly07(i: bv8): bv8 {
    ((0 - (i & 1)) & 0x07)
    ^ ((0 - ((i >> 1) & 1)) & 0x0E)
    ^ ((0 - ((i >> 2) & 1)) & 0x1C)
    ^ ((0 - ((i >> 3) & 1)) & 0x38)
    ^ ((0 - ((i >> 4) & 1)) & 0x70)
    ^ ((0 - ((i >> 5) & 1)) & 0xE0)
    ^ ((0 - ((i >> 6) & 1)) & 0xC7)
    ^ ((0 - ((i >> 7) & 1)) & 0x89)
  }

  /** Every entry of the lookup table is the CRC-8 of its index under polynomial 0x07. */
  lemma Crc8TableIsPoly07(i: bv8)
    ensures Crc8Table(i) == Crc8Poly07(i)
  {
    var hi, lo := i >> 4, i & 0xF;
    assert i == (hi << 4) | lo;
    if hi == 0x0 { Crc8TableRow0(lo); }
    else if hi == 0x1 { Crc8TableRow1(lo); }
    else if hi == 0x2 { Crc8TableRow2(lo); }
    else if hi == 0x3 { Crc8TableRow3(lo); }
    else if hi == 0x4 { Crc8TableRow4(lo); }
    else if hi == 0x5 { Crc8TableRow5(lo); }
    else if hi == 0x6 { Crc8TableRow6(lo); }
    else if hi == 0x7 { Crc8TableRow7(lo); }
    else if hi == 0x8 { Crc8TableRow8(lo); }
    else if hi == 0x9 { Crc8TableRow9(lo); }
    else if hi == 0xA { Crc8TableRowA(lo); }
    else if hi == 0xB { Crc8TableRowB(lo); }
    else if hi == 0xC { Crc8TableRowC(lo); }
    else if hi == 0xD { Crc8TableRowD(lo); }
    else if hi == 0xE { Crc8TableRowE(lo); }
    else { Crc8TableRowF(lo); }
  }

  lemma Crc8TableRow0(lo: bv8)
    requires lo < 16
    ensures Crc8Table(0x00 | lo) == Crc8Poly07(0x00 | lo)
  {
  }

  lemma Crc8TableRow1(lo: bv8)
    requires lo < 16
    ensures Crc8Table(0x10 | lo) == Crc8Poly07(0x10 | lo)
  {
  }

  lemma Crc8TableRow2(lo: bv8)
    requires lo < 16
    ensures Crc8Table(0x20 | lo) == Crc8Poly07(0x20 | lo)
  {
  }

  lemma Crc8TableRow3(lo: bv8)
    requires lo < 16
    ensures Crc8Table(0x30 | lo) == Crc8Poly07(0x30 | lo)
  {
  }

  lemma Crc8TableRow4(lo: bv8)
    requires lo < 16
    ensures Crc8Table(0x40 | lo) == Crc8Poly07(0x40 | lo)
  {
  }

  lemma Crc8TableRow5(lo: bv8)
    requires lo < 16
    ensures Crc8Table(0x50 | lo) == Crc8Poly07(0x50 | lo)
  {
  }

  lemma Crc8TableRow6(lo: bv8)
    requires lo < 16
    ensures Crc8Table(0x60 | lo) == Crc8Poly07(0x60 | lo)
  {
  }

  lemma Crc8TableRow7(lo: bv8)
    requires lo < 16
    ensures Crc8Table(0x70 | lo) == Crc8Poly07(0x70 | lo)
  {
  }

  lemma Crc8TableRow8(lo: bv8)
    requires lo < 16
    ensures Crc8Table(0x80 | lo) == Crc8Poly07(0x80 | lo)
  {
  }

  lemma Crc8TableRow9(lo: bv8)
    requires lo < 16
    ensures Crc8Table(0x90 | lo) == Crc8Poly07(0x90 | lo)
  {
  }

  lemma Crc8TableRowA(lo: bv8)
    requires lo < 16
    ensures Crc8Table(0xA0 | lo) == Crc8Poly07(0xA0 | lo)
  {
  }

  lemma Crc8TableRowB(lo: bv8)
    requires lo < 16
    ensures Crc8Table(0xB0 | lo) == Crc8Poly07(0xB0 | lo)
  {
  }

  lemma Crc8TableRowC(lo: bv8)
    requires lo < 16
    ensures Crc8Table(0xC0 | lo) == Crc8Poly07(0xC0 | lo)
  {
  }

  lemma Crc8TableRowD(lo: bv8)
    requires lo < 16
    ensures Crc8Table(0xD0 | lo) == Crc8Poly07(0xD0 | lo)
  {
  }

  lemma Crc8TableRowE(lo: bv8)
    requires lo < 16
    ensures Crc8Table(0xE0 | lo) == Crc8Poly07(0xE0 | lo)
  {
  }

  lemma Crc8TableRowF(lo: bv8)
    requires lo < 16
    ensures Crc8Table(0xF0 | lo) == Crc8Poly07(0xF0 | lo)
  {
  }

  /** The byte image of one packet. */
  type Image = s: seq<bv8> | |s| == PacketMaxLen witness seq(PacketMaxLen, _ => 0)

  // ---------------------------------------------------------------------------
  // Header fields

  function CountCode(img: Image): bv8 { img[0] }

  /** Number of register values the packet declares valid: the low 6 bits. */
  function ValidRegisterCount(img: Image): (n: bv8)
    ensures n <= 63
    ensures n == CountCode(img) & PacketRegCountMask
  {
    img[0] & PacketRegCountMask
  }

  /** The operation code: the high 2 bits. */
  function PacketCode(img: Image): (c: bv8)
    ensures c == 0x00 || c == 0x40 || c == 0x80 || c == 0xC0
    ensures c | ValidRegisterCount(img) == CountCode(img)
  {
    img[0] & PacketCodeMask
  }

  // ---------------------------------------------------------------------------
  // Register slots (little-endian)

  function Lo(v: bv16): bv8 { (v & 0xFF) as bv8 }
  function Hi(v: bv16): bv8 { (v >> 8) as bv8 }

  /** The register value stored little-endian in the bytes `lo`, `hi`. */
  function Join(lo: bv8, hi: bv8): (v: bv16)
    ensures Lo(v) == lo && Hi(v) == hi
  {
    (lo as bv16) | ((hi as bv16) << 8)
  }

  lemma JoinSplit(v: bv16)
    ensures Join(Lo(v), Hi(v)) == v
  {
  }

  function RegisterAt(img: Image, i: nat): bv16
    requires i < MaxPacketRegisters
  {
    Join(img[PacketHeaderLen + 2 * i], img[PacketHeaderLen + 2 * i + 1])
  }

  /** The 32 register slots of the image. */
  function Registers(img: Image): (regs: seq<bv16>)
    ensures |regs| == MaxPacketRegisters
  {
    seq(MaxPacketRegisters, i requires 0 <= i < MaxPacketRegisters => RegisterAt(img, i))
  }

  // ---------------------------------------------------------------------------
  // CRC8

  /** One table step of the CRC. */
  function Crc8Step(crc: bv8, b: bv8): bv8 {
    Crc8Poly07(crc ^ b)
  }

  /** The plain table-driven CRC8 of `bytes`, continuing from `crc`. */
  function Crc8Fold(crc: bv8, bytes: seq<bv8>): bv8
    decreases |bytes|
  {
    if bytes == [] then crc
    else Crc8Step(Crc8Fold(crc, bytes[..|bytes| - 1]), bytes[|bytes| - 1])
  }

  /** Folding one more byte is one more table step. */
  lemma Crc8FoldSnoc(crc: bv8, bytes: seq<bv8>, b: bv8)
    ensures Crc8Fold(crc, bytes + [b]) == Crc8Step(Crc8Fold(crc, bytes), b)
  {
    assert (bytes + [b])[..|bytes|] == bytes;
  }

  /** Number of bytes `crc8_anon` walks when given `regValsLen`: the value is doubled. */
  function Crc8Span(regValsLen: nat): nat {
    PacketHeaderLen + regValsLen * 2
  }

  /** The byte `crc8_anon` feeds at position `k`: the CRC slot, position 1, reads as zero. */
  function CrcByte(buf: seq<bv8>, k: nat): bv8
    requires k < |buf|
  {
    if k == 1 then 0 else buf[k]
  }

  /** The running CRC after the first `i` positions of `buf`, the CRC slot read as zero. */
  function Crc8At(buf: seq<bv8>, i: nat): bv8
    requires i <= |buf|
  {
    if i == 0 then 0 else Crc8Step(Crc8At(buf, i - 1), CrcByte(buf, i - 1))
  }

  /** The first two steps: the table entry of byte 0, then one step on a zero byte. */
  lemma Crc8AtSeed(buf: seq<bv8>)
    requires 2 <= |buf|
    ensures Crc8At(buf, 2) == Crc8Poly07(Crc8Poly07(buf[0]))
  {
    assert Crc8At(buf, 1) == Crc8Poly07(0 ^ buf[0]);
    assert 0 ^ buf[0] == buf[0];
  }

  /** Past the CRC slot, one step folds the next byte as it stands. */
  lemma Crc8AtNext(buf: seq<bv8>, i: nat)
    requires 2 <= i < |buf|
    ensures Crc8At(buf, i + 1) == Crc8Poly07(Crc8At(buf, i) ^ buf[i])
  {
  }

  /**
   * The CRC that `crc8_anon` computes, or None where it would index past the
   * end of `buf` (the source then panics).
   */
  function Crc8(buf: seq<bv8>, regValsLen: nat): (r: Option<bv8>)
    ensures r.Some? <==> Crc8Span(regValsLen) <= |buf|
  {
    if Crc8Span(regValsLen) <= |buf| then Some(Crc8At(buf, Crc8Span(regValsLen))) else None
  }

  /** The first `i` bytes of `buf` with the CRC slot replaced by zero. */
  function CrcSlotZeroed(buf: seq<bv8>, i: nat): (s: seq<bv8>)
    requires i <= |buf|
    ensures |s| == i
  {
    seq(i, k requires 0 <= k < i => CrcByte(buf, k))
  }

  /** The running CRC is the plain CRC of the prefix with the CRC slot zeroed. */
  lemma {:induction false} Crc8AtIsFold(buf: seq<bv8>, i: nat)
    requires i <= |buf|
    ensures Crc8At(buf, i) == Crc8Fold(0, CrcSlotZeroed(buf, i))
  {
    if i > 0 {
      Crc8AtIsFold(buf, i - 1);
      assert CrcSlotZeroed(buf, i) == CrcSlotZeroed(buf, i - 1) + [CrcByte(buf, i - 1)];
      Crc8FoldSnoc(0, CrcSlotZeroed(buf, i - 1), CrcByte(buf, i - 1));
    }
  }

  /**
   * `crc8_anon` is the plain table-driven CRC, started at 0, of the bytes it
   * walks with the CRC slot replaced by zero.
   */
  lemma Crc8IsPlainFold(buf: seq<bv8>, regValsLen: nat)
    requires Crc8Span(regValsLen) <= |buf|
    ensures Crc8(buf, regValsLen) == Some(Crc8Fold(0, buf[..Crc8Span(regValsLen)][1 := 0]))
  {
    var n := Crc8Span(regValsLen);
    Crc8AtIsFold(buf, n);
    assert CrcSlotZeroed(buf, n) == buf[..n][1 := 0];
  }

  /** The running CRC depends only on the bytes it has walked, not on the CRC slot. */
  lemma {:induction false} Crc8AtReads(buf: seq<bv8>, buf': seq<bv8>, i: nat)
    requires i <= |buf| && i <= |buf'|
    requires forall k :: 0 <= k < i && k != 1 ==> buf[k] == buf'[k]
    ensures Crc8At(buf, i) == Crc8At(buf', i)
  {
    if i > 0 {
      Crc8AtReads(buf, buf', i - 1);
    }
  }

  /** The running CRC over bytes that are all zero (the CRC slot aside) stays zero: the table maps 0 to 0. */
  lemma {:induction false} Crc8AtOfZeros(buf: seq<bv8>, i: nat)
    requires i <= |buf|
    requires forall k :: 0 <= k < i && k != 1 ==> buf[k] == 0
    ensures Crc8At(buf, i) == 0
  {
    if i > 0 {
      Crc8AtOfZeros(buf, i - 1);
    }
  }

  /** `calc_crc`: the CRC over the packet's own declared count, passed as 2 * count. */
  function PacketCrc(img: Image): Option<bv8> {
    Crc8(img, 2 * ValidRegisterCount(img) as nat)
  }

  /** `is_crc_valid`: None where the CRC computation would panic. */
  function CrcValid(img: Image): Option<bool> {
    match PacketCrc(img)
    case None => None
    case Some(c) => Some(c == img[1])
  }

  // ---------------------------------------------------------------------------
  // Whole-packet images

  /**
   * The explicit serialisation of a packet: the four header bytes, then the 32
   * register slots, each little-endian.
   */
  function Serialize(countCode: bv8, crc: bv8, page: bv8, offset: bv8, regs: seq<bv16>): (img: Image)
    requires |regs| == MaxPacketRegisters
    ensures img[0] == countCode && img[1] == crc && img[2] == page && img[3] == offset
  {
    [countCode, crc, page, offset]
      + seq(2 * MaxPacketRegisters, j requires 0 <= j < 2 * MaxPacketRegisters =>
              if j % 2 == 0 then Lo(regs[j / 2]) else Hi(regs[j / 2]))
  }

  /** Reading the register slots back from a serialised packet gives the registers it was built from. */
  lemma RegistersOfSerialize(countCode: bv8, crc: bv8, page: bv8, offset: bv8, regs: seq<bv16>)
    requires |regs| == MaxPacketRegisters
    ensures Registers(Serialize(countCode, crc, page, offset, regs)) == regs
  {
    var img := Serialize(countCode, crc, page, offset, regs);
    forall i | 0 <= i < MaxPacketRegisters
      ensures Registers(img)[i] == regs[i]
    {
      assert img[PacketHeaderLen + 2 * i] == Lo(regs[i]);
      assert img[PacketHeaderLen + 2 * i + 1] == Hi(regs[i]);
      JoinSplit(regs[i]);
    }
  }

  /** Register slot `i` of a serialised packet sits in bytes 4 + 2i (low) and 4 + 2i + 1 (high). */
  lemma SerializeAt(countCode: bv8, crc: bv8, page: bv8, offset: bv8, regs: seq<bv16>, i: nat)
    requires |regs| == MaxPacketRegisters && i < MaxPacketRegisters
    ensures Serialize(countCode, crc, page, offset, regs)[PacketHeaderLen + 2 * i] == Lo(regs[i])
    ensures Serialize(countCode, crc, page, offset, regs)[PacketHeaderLen + 2 * i + 1] == Hi(regs[i])
  {
    assert (2 * i) % 2 == 0 && (2 * i) / 2 == i;
    assert (2 * i + 1) % 2 == 1 && (2 * i + 1) / 2 == i;
  }

  /** Every image is the serialisation of its own header bytes and register slots. */
  lemma SerializeOfRegisters(img: Image)
    ensures Serialize(img[0], img[1], img[2], img[3], Registers(img)) == img
  {
    var regs := Registers(img);
    var img' := Serialize(img[0], img[1], img[2], img[3], regs);
    forall j | PacketHeaderLen <= j < PacketMaxLen
      ensures img'[j] == img[j]
    {
      var i := (j - PacketHeaderLen) / 2;
      var lo, hi := PacketHeaderLen + 2 * i, PacketHeaderLen + 2 * i + 1;
      SerializeAt(img[0], img[1], img[2], img[3], regs, i);
      assert regs[i] == Join(img[lo], img[hi]);
      if j == lo {
        assert img'[lo] == img[lo];
      } else {
        assert j == hi;
        assert img'[hi] == img[hi];
      }
    }
  }

  /** Overwriting the four header bytes of a serialised packet is serialising with the new header. */
  lemma SerializeSetHeader(img: Image, countCode: bv8, crc: bv8, page: bv8, offset: bv8)
    ensures img[0 := countCode][1 := crc][2 := page][3 := offset]
         == Serialize(countCode, crc, page, offset, Registers(img))
  {
    SerializeOfRegisters(img);
  }

  /** Overwriting register slot `i` of a serialised packet is serialising with that register replaced. */
  lemma SerializeStore(countCode: bv8, crc: bv8, page: bv8, offset: bv8, regs: seq<bv16>, i: nat, v: bv16)
    requires |regs| == MaxPacketRegisters && i < MaxPacketRegisters
    ensures Serialize(countCode, crc, page, offset, regs)[PacketHeaderLen + 2 * i := Lo(v)][PacketHeaderLen + 2 * i + 1 := Hi(v)]
         == Serialize(countCode, crc, page, offset, regs[i := v])
  {
  }

  /** The frame `set_values` has written once the first `i` values are in place, CRC still zero. */
  function PartialFrame(img: Image, countCode: bv8, page: bv8, offset: bv8, values: seq<bv16>, i: nat): Image
    requires i <= |values| <= MaxPacketRegisters
  {
    Serialize(countCode, 0, page, offset, values[..i] + Registers(img)[i..])
  }

  /** Before any value is stored, the frame is the old image under the new header. */
  lemma FrameStart(img: Image, countCode: bv8, page: bv8, offset: bv8, values: seq<bv16>)
    requires |values| <= MaxPacketRegisters
    ensures img[0 := countCode][1 := 0][2 := page][3 := offset] == PartialFrame(img, countCode, page, offset, values, 0)
  {
    SerializeSetHeader(img, countCode, 0, page, offset);
    assert values[..0] + Registers(img)[0..] == Registers(img);
  }

  /** Storing value `i` into a frame that holds the first `i` values gives the frame that holds `i + 1`. */
  lemma FrameStep(img: Image, countCode: bv8, page: bv8, offset: bv8, values: seq<bv16>, i: nat)
    requires i < |values| <= MaxPacketRegisters
    ensures PartialFrame(img, countCode, page, offset, values, i)
              [PacketHeaderLen + 2 * i := Lo(values[i])][PacketHeaderLen + 2 * i + 1 := Hi(values[i])]
         == PartialFrame(img, countCode, page, offset, values, i + 1)
  {
    var regs := values[..i] + Registers(img)[i..];
    SerializeStore(countCode, 0, page, offset, regs, i, values[i]);
    assert values[..i + 1] + Registers(img)[i + 1..] == regs[i := values[i]];
  }

  /** Once every value is stored, the frame carries the register slots `set_values` leaves. */
  lemma FrameEnd(img: Image, countCode: bv8, page: bv8, offset: bv8, values: seq<bv16>)
    requires |values| <= MaxPacketRegisters
    ensures PartialFrame(img, countCode, page, offset, values, |values|)
         == Serialize(countCode, 0, page, offset, SetValuesRegs(img, values))
  {
    assert values[..|values|] == values;
  }

  /** Storing a CRC into a serialised packet is serialising with that CRC. */
  lemma SerializeWithCrc(countCode: bv8, crc: bv8, crc': bv8, page: bv8, offset: bv8, regs: seq<bv16>)
    requires |regs| == MaxPacketRegisters
    ensures Serialize(countCode, crc, page, offset, regs)[1 := crc']
         == Serialize(countCode, crc', page, offset, regs)
  {
  }

  /** `IoPacket::default()`: every byte zero. */
  function DefaultImage(): Image { Serialize(0, 0, 0, 0, seq(MaxPacketRegisters, _ => 0)) }

  /** The image `clear()` leaves: header zero, every register 0x55aa. */
  function ClearedImage(): Image { Serialize(0, 0, 0, 0, seq(MaxPacketRegisters, _ => 0x55AA)) }

  /** The register slots after `set_values`: the values first, then the slots that were there. */
  function SetValuesRegs(img: Image, values: seq<bv16>): (regs: seq<bv16>)
    requires |values| <= MaxPacketRegisters
    ensures |regs| == MaxPacketRegisters
  {
    values + Registers(img)[|values|..]
  }

  /** The image `set_values(mode, page, offset, values)` leaves: the CRC is taken with a zero CRC slot. */
  function SetValuesImage(img: Image, mode: bv8, page: bv8, offset: bv8, values: seq<bv16>): Image
    requires |values| <= 16 && mode & PacketRegCountMask == 0
  {
    var countCode := (|values| as bv8) | mode;
    var regs := SetValuesRegs(img, values);
    var crc := Crc8(Serialize(countCode, 0, page, offset, regs), 2 * |values|).value;
    Serialize(countCode, crc, page, offset, regs)
  }

  /**
   * The frame `set_values` writes before its CRC declares `|values|`
   * registers, so its CRC is defined, and storing that CRC gives the
   * finished packet.
   */
  lemma SetValuesWithCrc(img: Image, mode: bv8, page: bv8, offset: bv8, values: seq<bv16>)
    requires |values| <= 16 && mode & PacketRegCountMask == 0
    ensures var body := Serialize((|values| as bv8) | mode, 0, page, offset, SetValuesRegs(img, values));
      PacketCrc(body).Some? && body[1 := PacketCrc(body).value] == SetValuesImage(img, mode, page, offset, values)
  {
    var countCode := (|values| as bv8) | mode;
    var regs := SetValuesRegs(img, values);
    var body := Serialize(countCode, 0, page, offset, regs);
    CountByteLemma(|values|, mode);
    assert ValidRegisterCount(body) as nat == |values|;
    SerializeWithCrc(countCode, 0, PacketCrc(body).value, page, offset, regs);
  }

  /** With at most 16 values and an opcode that leaves the count bits clear, the count/code byte splits back into both. */
  lemma CountByteLemma(n: nat, mode: bv8)
    requires n <= 16 && mode & PacketRegCountMask == 0
    ensures ((n as bv8) | mode) & PacketRegCountMask == n as bv8
    ensures ((n as bv8) | mode) & PacketCodeMask == mode
    ensures (((n as bv8) | mode) & PacketRegCountMask) as nat == n
  {
  }

  // ---------------------------------------------------------------------------
  // Properties of the CRC

  /** The CRC never depends on the byte in the CRC slot. */
  lemma Crc8IgnoresCrcSlot(buf: seq<bv8>, regValsLen: nat, x: bv8)
    requires 2 <= |buf|
    ensures Crc8(buf[1 := x], regValsLen) == Crc8(buf, regValsLen)
  {
    if Crc8Span(regValsLen) <= |buf| {
      Crc8AtReads(buf[1 := x], buf, Crc8Span(regValsLen));
    }
  }

  /** The CRC reads byte 0 and bytes 2 up to `4 + 2 * regValsLen` and nothing else. */
  lemma Crc8ReadsOnlySpan(buf: seq<bv8>, buf': seq<bv8>, regValsLen: nat)
    requires Crc8Span(regValsLen) <= |buf| && Crc8Span(regValsLen) <= |buf'|
    requires buf[0] == buf'[0]
    requires buf[2 .. Crc8Span(regValsLen)] == buf'[2 .. Crc8Span(regValsLen)]
    ensures Crc8(buf, regValsLen) == Crc8(buf', regValsLen)
  {
    var n := Crc8Span(regValsLen);
    forall k | 2 <= k < n
      ensures buf[k] == buf'[k]
    {
      assert buf[k] == buf[2 .. n][k - 2];
    }
    Crc8AtReads(buf, buf', n);
  }

  /**
   * `calc_crc` passes twice the count and `crc8_anon` doubles it again, so a
   * packet's CRC covers 4 + 4 * count bytes; it fits the 68-byte image only
   * for count <= 16, and for a larger declared count the check panics.
   */
  lemma PacketCrcSpan(img: Image)
    ensures Crc8Span(2 * ValidRegisterCount(img) as nat) == PacketHeaderLen + 4 * ValidRegisterCount(img) as nat
    ensures PacketCrc(img).Some? <==> ValidRegisterCount(img) <= 16
    ensures CrcValid(img).None? <==> ValidRegisterCount(img) > 16
    ensures PacketCrc(img).Some? ==>
      PacketCrc(img).value == Crc8Fold(0, img[..PacketHeaderLen + 4 * ValidRegisterCount(img) as nat][1 := 0])
  {
    if ValidRegisterCount(img) <= 16 {
      Crc8IsPlainFold(img, 2 * ValidRegisterCount(img) as nat);
    }
  }

  /**
   * Distinct bytes have distinct table entries. The table step is linear over
   * GF(2) and only 0 maps to 0, so no difference in the running CRC is ever
   * cancelled.
   */
  lemma Crc8Poly07Injective(a: bv8, b: bv8)
    requires Crc8Poly07(a) == Crc8Poly07(b)
    ensures a == b
  {
  }

  /** One table step keeps two different inputs apart. */
  lemma StepKeepsApart(c: bv8, b: bv8, c': bv8, b': bv8)
    requires c ^ b != c' ^ b'
    ensures Crc8Step(c, b) != Crc8Step(c', b')
  {
    if Crc8Step(c, b) == Crc8Step(c', b') {
      Crc8Poly07Injective(c ^ b, c' ^ b');
    }
  }

  /**
   * Two buffers that differ in exactly one byte `k` past the CRC slot have
   * different running CRCs at every later position: the difference is never
   * cancelled.
   */
  lemma {:induction false} Crc8AtDetects(buf: seq<bv8>, buf': seq<bv8>, k: nat, i: nat)
    requires 2 <= k < i <= |buf| && i <= |buf'|
    requires forall j :: 0 <= j < i && j != k ==> buf[j] == buf'[j]
    requires buf[k] != buf'[k]
    ensures Crc8At(buf, i) != Crc8At(buf', i)
    decreases i
  {
    var c, c' := Crc8At(buf, i - 1), Crc8At(buf', i - 1);
    if i == k + 1 {
      Crc8AtReads(buf, buf', k);
      assert c == c';
    } else {
      Crc8AtDetects(buf, buf', k, i - 1);
      assert buf[i - 1] == buf'[i - 1];
    }
    StepKeepsApart(c, buf[i - 1], c', buf'[i - 1]);
    assert Crc8At(buf, i) == Crc8Step(c, buf[i - 1]);
    assert Crc8At(buf', i) == Crc8Step(c', buf'[i - 1]);
  }

  /**
   * A packet that passes the CRC check fails it once any one covered byte
   * other than the count/code byte and the CRC slot is changed: every byte
   * from 2 up to 4 + 4 * count is protected.
   */
  lemma TamperDetected(img: Image, k: nat, x: bv8)
    requires CrcValid(img) == Some(true)
    requires 2 <= k < PacketMaxLen && k < PacketHeaderLen + 4 * ValidRegisterCount(img) as nat
    requires x != img[k]
    ensures CrcValid(img[k := x]) == Some(false)
  {
    var img': Image := img[k := x];
    var span := PacketHeaderLen + 4 * ValidRegisterCount(img) as nat;
    assert ValidRegisterCount(img') == ValidRegisterCount(img);
    PacketCrcSpan(img);
    PacketCrcSpan(img');
    Crc8AtDetects(img, img', k, span);
  }

  /**
   * Two buffers that differ only in byte 0 have different running CRCs at
   * every position past it: the seed already differs and no later step
   * brings the two back together.
   */
  lemma {:induction false} SeedDetects(buf: seq<bv8>, buf': seq<bv8>, i: nat)
    requires 1 <= i <= |buf| && i <= |buf'|
    requires buf[0] != buf'[0]
    requires forall j :: 1 <= j < i ==> buf[j] == buf'[j]
    ensures Crc8At(buf, i) != Crc8At(buf', i)
    decreases i
  {
    var c, c' := Crc8At(buf, i - 1), Crc8At(buf', i - 1);
    if i == 1 {
      assert c == 0 && c' == 0;
    } else {
      SeedDetects(buf, buf', i - 1);
      assert CrcByte(buf, i - 1) == CrcByte(buf', i - 1);
    }
    StepKeepsApart(c, CrcByte(buf, i - 1), c', CrcByte(buf', i - 1));
    assert Crc8At(buf, i) == Crc8Step(c, CrcByte(buf, i - 1));
    assert Crc8At(buf', i) == Crc8Step(c', CrcByte(buf', i - 1));
  }

  /**
   * A packet that passes the CRC check fails it once its count/code byte is
   * changed in the opcode bits alone: a reply flipped from error (0x80) to
   * success (0x00) is caught.
   */
  lemma OpcodeTamperDetected(img: Image, x: bv8)
    requires CrcValid(img) == Some(true)
    requires x != img[0] && x & PacketRegCountMask == img[0] & PacketRegCountMask
    ensures CrcValid(img[0 := x]) == Some(false)
  {
    var img': Image := img[0 := x];
    assert ValidRegisterCount(img') == ValidRegisterCount(img);
    PacketCrcSpan(img);
    PacketCrcSpan(img');
    SeedDetects(img', img, PacketHeaderLen + 4 * ValidRegisterCount(img) as nat);
  }

  /**
   * `set_values` with 17 to 32 values declares a count whose CRC span,
   * 4 + 4 * count bytes, runs past the 68-byte packet: computing the CRC
   * of the frame panics.
   */
  lemma SetValuesOverflowPanics(img: Image, mode: bv8, page: bv8, offset: bv8, values: seq<bv16>)
    requires 16 < |values| <= MaxPacketRegisters && mode & PacketRegCountMask == 0
    ensures PacketCrc(Serialize((|values| as bv8) | mode, 0, page, offset, SetValuesRegs(img, values))).None?
  {
    var body := Serialize((|values| as bv8) | mode, 0, page, offset, SetValuesRegs(img, values));
    assert ValidRegisterCount(body) as nat == |values|;
    PacketCrcSpan(body);
  }

  /** A packet that passes the CRC check fails it once its CRC slot holds anything else. */
  lemma CrcSlotTamperDetected(img: Image, x: bv8)
    requires CrcValid(img) == Some(true)
    requires x != img[1]
    ensures CrcValid(img[1 := x]) == Some(false)
  {
    Crc8IgnoresCrcSlot(img, 2 * ValidRegisterCount(img) as nat, x);
  }

  /** A byte past the 4 + 4 * count bytes the CRC covers can change without the check noticing. */
  lemma UncoveredByteIgnored(img: Image, k: nat, x: bv8)
    requires PacketHeaderLen + 4 * ValidRegisterCount(img) as nat <= k < PacketMaxLen
    ensures CrcValid(img[k := x]) == CrcValid(img)
  {
    var img': Image := img[k := x];
    var n := 2 * ValidRegisterCount(img) as nat;
    assert ValidRegisterCount(img') == ValidRegisterCount(img);
    assert img[2 .. Crc8Span(n)] == img'[2 .. Crc8Span(n)];
    Crc8ReadsOnlySpan(img, img', n);
  }

  // ---------------------------------------------------------------------------
  // Properties of the packet images

  /** A packet with a zero header (count, CRC, page and offset) passes the CRC check, whatever its registers. */
  lemma ZeroHeaderIsCrcValid(img: Image)
    requires img[0] == 0 && img[1] == 0 && img[2] == 0 && img[3] == 0
    ensures CrcValid(img) == Some(true)
    ensures PacketCode(img) == 0 && ValidRegisterCount(img) == 0
  {
    Crc8AtOfZeros(img, 4);
  }

  /** A default packet passes the CRC check: the table maps 0 to 0. */
  lemma DefaultIsCrcValid()
    ensures CrcValid(DefaultImage()) == Some(true)
    ensures PacketCode(DefaultImage()) == 0 && ValidRegisterCount(DefaultImage()) == 0
    ensures Registers(DefaultImage()) == seq(MaxPacketRegisters, _ => 0)
  {
    ZeroHeaderIsCrcValid(DefaultImage());
    RegistersOfSerialize(0, 0, 0, 0, seq(MaxPacketRegisters, _ => 0));
  }

  /** A cleared packet passes the CRC check too, with opcode 0 and every register 0x55aa. */
  lemma ClearedIsCrcValid()
    ensures CrcValid(ClearedImage()) == Some(true)
    ensures PacketCode(ClearedImage()) == 0 && ValidRegisterCount(ClearedImage()) == 0
    ensures Registers(ClearedImage()) == seq(MaxPacketRegisters, _ => 0x55AA)
  {
    Crc8AtOfZeros(ClearedImage(), 4);
  }

  /** The header `set_values` writes: a CRC that checks, the count, the opcode, page and offset. */
  lemma SetValuesHeader(img: Image, mode: bv8, page: bv8, offset: bv8, values: seq<bv16>)
    requires |values| <= 16 && mode & PacketRegCountMask == 0
    ensures var p := SetValuesImage(img, mode, page, offset, values);
      && CrcValid(p) == Some(true)
      && ValidRegisterCount(p) as nat == |values|
      && PacketCode(p) == mode
      && p[2] == page && p[3] == offset
  {
    var countCode := (|values| as bv8) | mode;
    var regs := SetValuesRegs(img, values);
    CountByteLemma(|values|, mode);
    var body := Serialize(countCode, 0, page, offset, regs);
    var crc := PacketCrc(body).value;
    var p := Serialize(countCode, crc, page, offset, regs);
    assert p == body[1 := crc];
    Crc8IgnoresCrcSlot(body, 2 * ValidRegisterCount(body) as nat, crc);
  }

  /**
   * What `set_values` establishes: the packet checks, declares |values|
   * registers and opcode `mode`, stores page and offset, carries the values
   * in its first slots and leaves the other slots as they were.
   */
  lemma SetValuesSpec(img: Image, mode: bv8, page: bv8, offset: bv8, values: seq<bv16>)
    requires |values| <= 16 && mode & PacketRegCountMask == 0
    ensures var p := SetValuesImage(img, mode, page, offset, values);
      && CrcValid(p) == Some(true)
      && ValidRegisterCount(p) as nat == |values|
      && PacketCode(p) == mode
      && p[2] == page && p[3] == offset
      && Registers(p)[..|values|] == values
      && Registers(p)[|values|..] == Registers(img)[|values|..]
  {
    SetValuesHeader(img, mode, page, offset, values);
    CountByteLemma(|values|, mode);
    var regs := SetValuesRegs(img, values);
    var p := SetValuesImage(img, mode, page, offset, values);
    RegistersOfSerialize(p[0], p[1], page, offset, regs);
  }

  // ---------------------------------------------------------------------------
  // The packet object, updated in place

  class IoPacket {
    /** The packet's 68 bytes, in wire order. */
    const image: array<bv8>

    predicate Valid() {
      image.Length == PacketMaxLen
    }

    /** `IoPacket::default()`. */
    constructor Default()
      ensures Valid() && fresh(image)
      ensures image[..] == DefaultImage()
    {
      image := new bv8[PacketMaxLen](_ => 0);
    }

    /** `CRC8_TABLE[i]`: a lookup in the literal table, which is the CRC-8 of `i`. */
    static method TableLookup(i: bv8) returns (r: bv8)
      ensures r == Crc8Poly07(i)
    {
      r := Crc8Table(i);
      Crc8TableIsPoly07(i);
    }

    /** One table step of the fold past the CRC slot. */
    static method FoldStep(ghost s: seq<bv8>, i: nat, crc: bv8, b: bv8) returns (r: bv8)
      requires 2 <= i < |s| && crc == Crc8At(s, i) && b == s[i]
      ensures r == Crc8At(s, i + 1)
    {
      var x := crc ^ b;
      assert x == Crc8At(s, i) ^ s[i];
      r := TableLookup(x);
      Crc8AtNext(s, i);
    }

    /**
     * `crc8_anon`: seeds with the table entry of byte 0, takes one more table
     * step for the skipped CRC slot, then folds bytes 2 up to 4 + 2 * regValsLen.
     * That is the plain CRC of the covered bytes with the CRC slot read as zero.
     */
    static method Crc8Anon(buf: array<bv8>, regValsLen: nat) returns (r: Option<bv8>)
      ensures r == Crc8(buf[..], regValsLen)
    {
      var totalLen := PacketHeaderLen + regValsLen * 2;
      if buf.Length < totalLen {
        // the source indexes past the end of the slice here and panics
        return None;
      }
      ghost var s := buf[..];
      var crc := TableLookup(buf[0]);
      // buf[1] is the CRC slot itself: one table step on the running CRC instead
      crc := TableLookup(crc);
      Crc8AtSeed(s);
      var i := 2;
      while i < totalLen
        invariant 2 <= i <= totalLen
        invariant crc == Crc8At(s, i)
      {
        crc := FoldStep(s, i, crc, buf[i]);
        i := i + 1;
      }
      return Some(crc);
    }

    /** `calc_crc`. */
    method CalcCrc() returns (r: Option<bv8>)
      requires Valid()
      ensures r == PacketCrc(image[..])
    {
      var count := image[0] & PacketRegCountMask;
      r := Crc8Anon(image, 2 * count as nat);
    }

    /** `is_crc_valid`: None where computing the CRC panics. */
    method IsCrcValid() returns (r: Option<bool>)
      requires Valid()
      ensures r == CrcValid(image[..])
    {
      var computed := CalcCrc();
      r := if computed.Some? then Some(computed.value == image[1]) else None;
    }

    /** `clear`: header bytes to zero, every register slot to 0x55aa. */
    method Clear()
      requires Valid()
      modifies image
      ensures image[..] == ClearedImage()
    {
      image[0], image[1], image[2], image[3] := 0, 0, 0, 0;
      var i := 0;
      while i < MaxPacketRegisters
        invariant 0 <= i <= MaxPacketRegisters
        invariant forall j :: 0 <= j < PacketHeaderLen + 2 * i ==> image[j] == ClearedImage()[j]
      {
        image[PacketHeaderLen + 2 * i] := Lo(0x55AA);
        image[PacketHeaderLen + 2 * i + 1] := Hi(0x55AA);
        i := i + 1;
      }
    }

    /** Stores register slot `i`, little-endian. */
    method StoreRegister(i: nat, v: bv16)
      requires Valid() && i < MaxPacketRegisters
      modifies image
      ensures image[..] == old(image[..])[PacketHeaderLen + 2 * i := Lo(v)][PacketHeaderLen + 2 * i + 1 := Hi(v)]
    {
      image[PacketHeaderLen + 2 * i] := Lo(v);
      image[PacketHeaderLen + 2 * i + 1] := Hi(v);
    }

    /**
     * The first part of `set_values`: count/code, a zero CRC, page and offset,
     * then the values into the first slots.
     */
    method WriteFrame(countCode: bv8, page: bv8, offset: bv8, values: seq<bv16>)
      requires Valid() && |values| <= MaxPacketRegisters
      modifies image
      ensures image[..] == Serialize(countCode, 0, page, offset, SetValuesRegs(old(image[..]), values))
    {
      ghost var was: Image := image[..];
      FrameStart(was, countCode, page, offset, values);
      image[0], image[1], image[2], image[3] := countCode, 0, page, offset;
      var i := 0;
      while i < |values|
        invariant 0 <= i <= |values|
        invariant image[..] == PartialFrame(was, countCode, page, offset, values, i)
      {
        FrameStep(was, countCode, page, offset, values, i);
        StoreRegister(i, values[i]);
        i := i + 1;
      }
      FrameEnd(was, countCode, page, offset, values);
    }

    /**
     * `set_values`: the frame with a zero CRC, then the CRC computed over it
     * stored in the CRC slot.
     */
    method SetValues(mode: bv8, page: bv8, offset: bv8, values: seq<bv16>)
      requires Valid() && |values| <= 16 && mode & PacketRegCountMask == 0
      modifies image
      ensures image[..] == SetValuesImage(old(image[..]), mode, page, offset, values)
    {
      ghost var was: Image := image[..];
      var countCode := (|values| as bv8) | mode;
      WriteFrame(countCode, page, offset, values);
      SetValuesWithCrc(was, mode, page, offset, values);
      var crc := CalcCrc();
      image[1] := crc.value;
    }
  }
}
