/** Flow identities and clock arithmetic shared by the firewall's tables. */
module Flows {
  import opened Bytes

  datatype FlowKey = FlowKey(srcIp: u32, dstIp: u32, srcPort: u16, dstPort: u16, proto: byte)

  datatype Direction = AnyDirection | ZoneToUplink | UplinkToZone | ZoneToZone

  /** Unsigned 32-bit subtraction, as `ts - last_seen_ms` on the firmware's clock. */
  function Sub32(a: u32, b: u32): u32 { (a - b) % U32 }
}
