/** The two messages of a connection: util/tcp_sender_message.hh, util/tcp_receiver_message.hh. */
module TcpMessages {
  import opened Common

  datatype SenderMessage = SenderMessage(seqno: U32, syn: bool, payload: seq<Byte>, fin: bool, rst: bool)
  {
    /** How many sequence numbers the segment uses. */
    function Length(): nat { (if syn then 1 else 0) + |payload| + (if fin then 1 else 0) }
  }

  datatype ReceiverMessage = ReceiverMessage(ackno: Option<U32>, windowSize: U16, rst: bool)
}
