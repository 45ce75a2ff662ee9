/** The types of the broadcast API (`esp_now_broadcast.h`) and the ESP-IDF error codes it returns. */
module BroadcastTypes {
  import opened Bytes

  /** `MSG_TYPE_BUTTON_PRESSED`, the only tag the enumeration defines. */
  const MsgTypeButtonPressed: nat := 1

  /** The capacity of the `data` array of a message. */
  const PayloadCapacity: nat := 16

  /** A six-byte Wi-Fi hardware address. */
  type Mac = s: seq<Byte> | |s| == 6 witness [0, 0, 0, 0, 0, 0]

  /** `broadcast_message_t`: a type tag, the sender's id and a fixed-size payload. The tag is an
      unsigned number rather than a closed enumeration, so values the firmware never names are
      representable, as they are in the C field. */
  datatype Message = Message(msgType: nat, deviceId: Byte, data: seq<Byte>)

  /** A message whose payload has exactly the capacity of the C array. */
  predicate WellFormedMessage(m: Message) {
    |m.data| == PayloadCapacity
  }

  /** Whether the tag is one the firmware defines. */
  predicate KnownType(t: nat) {
    t == MsgTypeButtonPressed
  }

  /** Identity of an application callback of type `message_handler_t`, which receives a message
      together with the hardware address of its sender. */
  datatype HandlerRef = HandlerRef(name: string)

  /** `esp_err_t`, a signed 32-bit status code. */
  type EspErr = int

  /** The ESP-IDF codes the module tests or returns by name; the model relies only on their
      being distinct. */
  const EspOk: EspErr := 0
  const EspErrInvalidArg: EspErr := 0x102
  const EspErrEspNowExist: EspErr := 0x306B
}
