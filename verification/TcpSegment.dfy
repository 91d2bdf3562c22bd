/** TCP headers and segments (libsponge/tcp_helpers/tcp_header.hh, tcp_segment.cc). */
module TcpSegments {
  import opened Prelude

  /** `doff` counts 32-bit words; a header without options has five. */
  datatype TcpHeader = TcpHeader(sport: U16, dport: U16, seqno: U32, ackno: U32, doff: Byte, urg: bool, ack: bool,
                                 psh: bool, rst: bool, syn: bool, fin: bool, win: U16, cksum: U16, uptr: U16)

  const DEFAULT_HEADER: TcpHeader :=
    TcpHeader(0, 0, 0, 0, 5, false, false, false, false, false, false, 0, 0, 0)

  datatype TcpSegment = TcpSegment(header: TcpHeader, payload: Bytes) {

    /** SYN and FIN each occupy one sequence number. */
    function Length(): nat {
      |payload| + (if header.syn then 1 else 0) + (if header.fin then 1 else 0)
    }
  }
}
