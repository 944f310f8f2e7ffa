/** What both packet readers see of an IPv4 packet. */
module Packets {
  import opened Bytes

  /** An IPv4 address as its four octets. */
  type Ip = s: seq<byte> | |s| == 4 witness [0, 0, 0, 0]

  const TCP: byte := 6
  const UDP: byte := 17

  /** The header length in bytes, as the low half of the first byte gives it. */
  function HeaderLength(p: seq<byte>): nat
    requires |p| >= 1
  {
    p[0] % 0x10 * 4
  }

  /** A big-endian 16-bit field. */
  function Field16(p: seq<byte>, off: nat): u16
    requires off + 2 <= |p|
  {
    (p[off] as int) * 0x100 + p[off + 1]
  }
}
