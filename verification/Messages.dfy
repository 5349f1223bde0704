/** The message record exchanged by the sender and the receiver, and the rules that
    decide which messages exist and which of them are forwarded over TCP. */
module Messages {

  const TWO_TO_THE_64: nat := 0x1_0000_0000_0000_0000

  type uint8 = n: nat | n < 0x100
  type uint16 = n: nat | n < 0x1_0000
  type uint64 = n: nat | n < TWO_TO_THE_64

  datatype MessageFormat = MessageFormat(messageSize: uint16, messageType: uint8, messageId: uint64, messageData: uint64)

  const TCP_RESEND_ID: uint64 := 10

  /** The message the server builds from its running counter. */
  function MakeMessageDiv20(seed: uint64): MessageFormat {
    MessageFormat(0, 0, seed % 20, seed)
  }

  /** The forwarding rule of the receiver. */
  predicate SendViaTcpRequired(msg: MessageFormat) {
    msg.messageId == TCP_RESEND_ID
  }
}
