/** Operation codes carried in the two high bits of a packet's first byte. */
module Protocol {

  /** Request: read registers. */
  const PacketCodeRead: bv8 := 0x00
  /** Request: write registers. */
  const PacketCodeWrite: bv8 := 0x40
  /** Reply: the coprocessor saw a corrupt request (same bits as a write request). */
  const PacketCodeCorrupt: bv8 := 0x40
  /** Reply: the coprocessor rejected the request. */
  const PacketCodeError: bv8 := 0x80
}
