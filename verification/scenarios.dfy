/** Concrete frames through the receive and send paths, and the path from a button press on one
    board to the relay of another. */
module Scenarios {
  import opened Wrappers
  import opened Bytes
  import opened BroadcastTypes
  import opened Codec
  import opened Broadcast
  import App

  const Peer: Mac := [0x24, 0x0A, 0xC4, 0x00, 0x00, 0x07]
  const Listener := ModuleState(5, Some(HandlerRef("message_handler")))

  /** A frame from device 7 reaches the handler of device 5 as a button press from device 7. */
  lemma ButtonFrameFromPeerIsDispatched()
    ensures var r := RecvCallback(Listener, ShortEnumLayout, Peer, [1, 7] + Zeros(16));
      && r.Dispatched?
      && r.call.msg.msgType == MsgTypeButtonPressed
      && r.call.msg.deviceId == 7
      && r.call.srcAddr == Peer
  {
  }

  /** A tag the firmware does not define still reaches the handler, which ignores it. */
  lemma UndefinedTagReachesHandler(app: App.AppState, now: App.U32)
    ensures var r := RecvCallback(Listener, ShortEnumLayout, Peer, [2, 7] + Zeros(16));
      && r.Dispatched?
      && r.call.msg.msgType == 2 && !KnownType(r.call.msg.msgType)
      && App.MessageHandler(app, r.call.msg, r.call.srcAddr, now) == App.Step(app, [])
  {
  }

  /** A frame carrying the listener's own id is dropped. */
  lemma OwnIdFrameIsDropped()
    ensures RecvCallback(Listener, ShortEnumLayout, Peer, [1, 5] + Zeros(16)) == FromSelf
  {
  }

  /** A 10-byte frame is too short for any layout and is dropped. */
  lemma TenByteFrameIsDropped(l: Layout, frame: seq<Byte>)
    requires WellFormed(l) && |frame| == 10
    ensures RecvCallback(Listener, l, Peer, frame) == TooShort
  {
  }

  /** With a four-byte tag the struct is 24 bytes, so an 18-byte frame is dropped. */
  lemma EighteenBytesTooShortForIntEnum(frame: seq<Byte>)
    requires |frame| == 18
    ensures RecvCallback(Listener, IntEnumLayout, Peer, frame) == TooShort
  {
  }

  /** A 20-byte payload is refused before anything is handed to the transport. */
  lemma OversizedPayloadRefused(l: Layout, payload: seq<Byte>, stack: seq<Byte>, transportRet: EspErr)
    requires WellFormed(l) && |stack| == l.size && |payload| == 20
    ensures BroadcastMessage(Listener, l, MsgTypeButtonPressed, Some(payload), 20, stack, transportRet)
            == SendOutcome(EspErrInvalidArg, [])
  {
  }

  /** A button press broadcast by device `a` toggles the relay of device `b` once `b`'s handler
      runs, and stamps `b`'s flash flag with the arrival time. */
  lemma RemoteButtonPressTogglesRelay(a: ModuleState, b: ModuleState, l: Layout, stack: seq<Byte>,
                                      transportRet: EspErr, src: Mac, app: App.AppState, now: App.U32)
    requires WellFormed(l) && |stack| == l.size
    requires a.deviceId != b.deviceId && b.handler.Some?
    ensures TagFits(l, MsgTypeButtonPressed)
    ensures var out := BroadcastMessage(a, l, MsgTypeButtonPressed, None, 0, stack, transportRet);
      var calls := Invocations(RecvCallback(b, l, src, out.sent[0].frame));
      && |calls| == 1
      && var step := App.MessageHandler(app, calls[0].msg, calls[0].srcAddr, now);
      && step.state.relayState == !app.relayState
      && step.state.messageReceived && step.state.messageReceivedTime == now
      && step.effects == [App.DriveRelay(!app.relayState)]
  {
    SendReceiveRoundTrip(a, b, l, MsgTypeButtonPressed, None, 0, stack, transportRet, src);
  }
}
