/** TCP segments (section 3.1 of RFC 793) as the sender, the receiver and the codec share them. */
module Segments {
  import opened Prelude

  datatype TCPHeader = TCPHeader(
    sport: u16, dport: u16, seqno: u32, ackno: u32, doff: byte,
    urg: bool, ack: bool, psh: bool, rst: bool, syn: bool, fin: bool,
    win: u16, cksum: u16, uptr: u16)

  const DEFAULT_HEADER: TCPHeader :=
    TCPHeader(0, 0, 0, 0, 5, false, false, false, false, false, false, 0, 0, 0)

  datatype Segment = Segment(header: TCPHeader, payload: seq<byte>) {
    /** Length in sequence space: SYN and FIN occupy one number each. */
    function Length(): nat {
      |payload| + (if header.syn then 1 else 0) + (if header.fin then 1 else 0)
    }
  }
}
