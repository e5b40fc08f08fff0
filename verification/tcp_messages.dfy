/** What a TCP sender and a TCP receiver say to each other. */
module TcpMessages {
  import opened Machine
  import opened WrappingIntegers

  datatype SenderMessage = SenderMessage(seqno: Wrap32, SYN: bool, payload: seq<u8>, FIN: bool, RST: bool) {

    /** How many sequence numbers the segment uses. */
    function SequenceLength(): nat {
      (if SYN then 1 else 0) + |payload| + (if FIN then 1 else 0)
    }
  }

  datatype ReceiverMessage = ReceiverMessage(ackno: Option<Wrap32>, windowSize: u16, RST: bool)
}
