/** The broadcast messaging service (`esp_now_broadcast.c`): module state, initialisation, the
    send path and the receive callback. Calls into the ESP-IDF SDK are not executed: their results
    are parameters, and the calls and handler invocations the firmware makes are returned as logs. */
module Broadcast {
  import opened Wrappers
  import opened Bytes
  import opened BroadcastTypes
  import opened Codec

  /** `BROADCAST_MAC`, the all-ones address every frame is sent to. */
  const BroadcastMac: Mac := [0xFF, 0xFF, 0xFF, 0xFF, 0xFF, 0xFF]

  /** The module globals `device_id` and `message_callback`. */
  datatype ModuleState = ModuleState(deviceId: Byte, handler: Option<HandlerRef>)

  /** The globals before initialisation: id 0 and no handler. */
  const Uninitialized := ModuleState(0, None)

  /** `get_broadcast_address`. */
  function GetBroadcastAddress(): (r: Mac)
    ensures forall i :: 0 <= i < |r| ==> r[i] == 0xFF
  {
    BroadcastMac
  }

  // ---------------------------------------------------------------------------------------------
  // Initialisation

  datatype WifiInterface = Sta

  /** `esp_now_peer_info_t` as the firmware fills it in. */
  datatype PeerInfo = PeerInfo(addr: Mac, channel: nat, ifidx: WifiInterface, encrypt: bool)

  /** The single peer the module registers: the broadcast address on channel 1, unencrypted. */
  const BroadcastPeer := PeerInfo(BroadcastMac, 1, Sta, false)

  /** Each SDK call `esp_now_broadcast_init` makes, in the order it makes them. */
  datatype SdkCall =
    | NetifInit | EventLoopCreateDefault | WifiInit | WifiSetStorage | WifiSetMode
    | WifiSetProtocol | WifiStart | WifiDisconnect
    | EspNowInit
    | RegisterSendCb | RegisterRecvCb
    | AddPeer(peer: PeerInfo)
    | WifiGetMac

  /** Every SDK call of a successful initialisation, in order. */
  const FullInit: seq<SdkCall> :=
    [NetifInit, EventLoopCreateDefault, WifiInit, WifiSetStorage, WifiSetMode, WifiSetProtocol,
     WifiStart, WifiDisconnect, EspNowInit, RegisterSendCb, RegisterRecvCb,
     AddPeer(BroadcastPeer), WifiGetMac]

  /** Wi-Fi bring-up, the first eight calls; each result goes through `ESP_ERROR_CHECK`. */
  const WifiBringUp: seq<SdkCall> := FullInit[..8]

  /** Callback registration, the two calls after `esp_now_init`; each result goes through
      `ESP_ERROR_CHECK`. */
  const CallbackRegistration: seq<SdkCall> := FullInit[9..11]

  /** How initialisation ends: a failed `ESP_ERROR_CHECK` aborts the program; otherwise a code is
      returned. `calls` lists the SDK calls made, in order. */
  datatype InitOutcome =
    | Aborted(state: ModuleState, calls: seq<SdkCall>, failed: SdkCall, code: EspErr)
    | Returned(state: ModuleState, calls: seq<SdkCall>, ret: EspErr)

  predicate AllOk(steps: seq<SdkCall>, sdk: SdkCall -> EspErr) {
    forall i :: 0 <= i < |steps| ==> sdk(steps[i]) == EspOk
  }

  /** Index of the first call of `steps` the SDK fails, or `|steps|` if none fails. */
  function FirstFailure(steps: seq<SdkCall>, sdk: SdkCall -> EspErr): (k: nat)
    ensures k <= |steps|
    ensures forall i :: 0 <= i < k ==> sdk(steps[i]) == EspOk
    ensures k < |steps| ==> sdk(steps[k]) != EspOk
    ensures k == |steps| <==> AllOk(steps, sdk)
  {
    if steps == [] then 0
    else if sdk(steps[0]) != EspOk then 0
    else 1 + FirstFailure(steps[1..], sdk)
  }

  /** `esp_now_broadcast_init(id, handler)` where the SDK answers each call with `sdk`. The id and
      handler are stored before any SDK call, so every outcome carries them. */
  function BroadcastInit(id: Byte, handler: Option<HandlerRef>, sdk: SdkCall -> EspErr): (r: InitOutcome)
    ensures r.state == ModuleState(id, handler)
    ensures r.calls <= FullInit
    ensures r.Aborted? <==>
      !AllOk(WifiBringUp, sdk) || (sdk(EspNowInit) == EspOk && !AllOk(CallbackRegistration, sdk))
    ensures r.Aborted? ==> r.code == sdk(r.failed) != EspOk && |r.calls| > 0 && r.calls[|r.calls| - 1] == r.failed
    ensures r.Aborted? ==> AllOk(r.calls[..|r.calls| - 1], sdk)
    ensures AllOk(WifiBringUp, sdk) && sdk(EspNowInit) != EspOk ==>
      r == Returned(ModuleState(id, handler), FullInit[..9], sdk(EspNowInit))
    ensures && AllOk(WifiBringUp, sdk) && sdk(EspNowInit) == EspOk && AllOk(CallbackRegistration, sdk)
            && sdk(AddPeer(BroadcastPeer)) != EspOk && sdk(AddPeer(BroadcastPeer)) != EspErrEspNowExist ==>
      r == Returned(ModuleState(id, handler), FullInit[..12], sdk(AddPeer(BroadcastPeer)))
    ensures r.Returned? && r.ret == EspOk <==>
      && AllOk(WifiBringUp, sdk) && sdk(EspNowInit) == EspOk && AllOk(CallbackRegistration, sdk)
      && (sdk(AddPeer(BroadcastPeer)) == EspOk || sdk(AddPeer(BroadcastPeer)) == EspErrEspNowExist)
    ensures r.Returned? && r.ret == EspOk ==> r.calls == FullInit
    ensures r.Returned? && r.ret != EspOk ==>
      r.ret == sdk(EspNowInit) || (r.ret == sdk(AddPeer(BroadcastPeer)) && r.ret != EspErrEspNowExist)
  {
    var st := ModuleState(id, handler);
    var k := FirstFailure(WifiBringUp, sdk);
    if k < |WifiBringUp| then
      Aborted(st, FullInit[..k + 1], FullInit[k], sdk(FullInit[k]))
    else if sdk(EspNowInit) != EspOk then
      Returned(st, FullInit[..9], sdk(EspNowInit))
    else
      var j := FirstFailure(CallbackRegistration, sdk);
      if j < |CallbackRegistration| then
        Aborted(st, FullInit[..10 + j], FullInit[9 + j], sdk(FullInit[9 + j]))
      else
        var peerRet := sdk(AddPeer(BroadcastPeer));
        if peerRet != EspOk && peerRet != EspErrEspNowExist then
          Returned(st, FullInit[..12], peerRet)
        else
          Returned(st, FullInit, EspOk)
  }

  /** When add-peer reports the broadcast peer as already present and every other SDK call
      succeeds, initialisation returns `ESP_OK` after making every call. */
  lemma ExistingPeerCountsAsSuccess(id: Byte, handler: Option<HandlerRef>, sdk: SdkCall -> EspErr)
    requires forall c :: c != AddPeer(BroadcastPeer) ==> sdk(c) == EspOk
    requires sdk(AddPeer(BroadcastPeer)) == EspErrEspNowExist
    ensures BroadcastInit(id, handler, sdk) == Returned(ModuleState(id, handler), FullInit, EspOk)
  {
  }

  // ---------------------------------------------------------------------------------------------
  // Sending

  /** The payload of an outgoing message: `data` cleared, then the caller's first `dataLen` bytes
      copied in when the pointer is non-NULL and the length non-zero. */
  function PaddedPayload(data: Option<seq<Byte>>, dataLen: nat): (p: seq<Byte>)
    requires dataLen <= PayloadCapacity
    requires data.Some? ==> dataLen <= |data.value|
    ensures |p| == PayloadCapacity
    ensures forall i :: 0 <= i < PayloadCapacity ==>
      p[i] == (if data.Some? && i < dataLen then data.value[i] else 0)
  {
    if data.Some? && dataLen > 0 then Overlay(Zeros(PayloadCapacity), 0, data.value[..dataLen])
    else Zeros(PayloadCapacity)
  }

  /** One call of `esp_now_send`: destination, frame bytes and the length argument. */
  datatype Transmission = Transmission(dest: Mac, frame: seq<Byte>, len: nat)

  /** What a send returns, and the frames it handed to the transport. */
  datatype SendOutcome = SendOutcome(ret: EspErr, sent: seq<Transmission>)

  /** `esp_now_broadcast_message(msgType, data, dataLen)` on a device whose globals are `st`.
      `stack` is the prior content of the local struct (its padding is never written) and
      `transportRet` is what `esp_now_send` returns. The buffer must hold `dataLen` bytes whenever
      the firmware copies from it. */
  function BroadcastMessage(st: ModuleState, l: Layout, msgType: nat, data: Option<seq<Byte>>,
                            dataLen: nat, stack: seq<Byte>, transportRet: EspErr): (r: SendOutcome)
    requires WellFormed(l) && |stack| == l.size && TagFits(l, msgType)
    requires data.Some? && dataLen <= PayloadCapacity ==> dataLen <= |data.value|
    ensures dataLen > PayloadCapacity ==> r == SendOutcome(EspErrInvalidArg, [])
    ensures dataLen <= PayloadCapacity ==> r.ret == transportRet && |r.sent| == 1
    ensures forall k :: 0 <= k < |r.sent| ==>
      && r.sent[k].dest == BroadcastMac
      && r.sent[k].len == |r.sent[k].frame| == l.size
      && Decode(l, r.sent[k].frame) == Message(msgType, st.deviceId, PaddedPayload(data, dataLen))
  {
    if dataLen > PayloadCapacity then
      SendOutcome(EspErrInvalidArg, [])
    else
      var msg := Message(msgType, st.deviceId, PaddedPayload(data, dataLen));
      var frame := Encode(l, msg, stack);
      DecodeEncode(l, msg, stack);
      SendOutcome(transportRet, [Transmission(BroadcastMac, frame, l.size)])
  }

  // ---------------------------------------------------------------------------------------------
  // Receiving

  /** One call of the registered handler: the decoded message and the sender's address. */
  datatype Invocation = Invocation(handler: HandlerRef, msg: Message, srcAddr: Mac)

  /** How `recv_callback` disposes of a frame. */
  datatype RecvOutcome =
    | TooShort                                   // shorter than the struct: logged, dropped
    | FromSelf                                   // carries the local id: dropped
    | Unhandled(msg: Message, srcAddr: Mac)      // accepted and logged, no handler registered
    | Dispatched(call: Invocation)               // handed to the registered handler

  /** The handler invocations an outcome performs. */
  function Invocations(o: RecvOutcome): (calls: seq<Invocation>)
    ensures |calls| <= 1
    ensures |calls| == 1 <==> o.Dispatched?
  {
    if o.Dispatched? then [o.call] else []
  }

  /** `recv_callback` on a device whose globals are `st`, for `frame` from `srcAddr`. */
  function RecvCallback(st: ModuleState, l: Layout, srcAddr: Mac, frame: seq<Byte>): (r: RecvOutcome)
    requires WellFormed(l)
    ensures r.TooShort? <==> |frame| < l.size
    ensures r.FromSelf? <==> |frame| >= l.size && frame[l.idOffset] == st.deviceId
    ensures r.Dispatched? <==>
      |frame| >= l.size && frame[l.idOffset] != st.deviceId && st.handler.Some?
    ensures r.Dispatched? ==> r.call == Invocation(st.handler.value, Decode(l, frame), srcAddr)
    ensures r.Unhandled? ==> r.msg == Decode(l, frame) && r.srcAddr == srcAddr
  {
    if |frame| < l.size then TooShort
    else
      var msg := Decode(l, frame);
      if msg.deviceId == st.deviceId then FromSelf
      else if st.handler.Some? then Dispatched(Invocation(st.handler.value, msg, srcAddr))
      else Unhandled(msg, srcAddr)
  }

  /** Before initialisation no handler is registered, so no received frame reaches one. */
  lemma NothingDispatchedBeforeInit(l: Layout, srcAddr: Mac, frame: seq<Byte>)
    requires WellFormed(l)
    ensures Invocations(RecvCallback(Uninitialized, l, srcAddr, frame)) == []
  {
  }

  /** A frame from this device itself is never handed to the handler, whatever its tag. */
  lemma SelfMessagesNeverDispatched(st: ModuleState, l: Layout, srcAddr: Mac, frame: seq<Byte>)
    requires WellFormed(l) && |frame| >= l.size
    requires Decode(l, frame).deviceId == st.deviceId
    ensures Invocations(RecvCallback(st, l, srcAddr, frame)) == []
  {
  }

  /** Extra bytes after the struct do not change how a frame is handled. */
  lemma RecvIgnoresTrailing(st: ModuleState, l: Layout, srcAddr: Mac, frame: seq<Byte>, extra: seq<Byte>)
    requires WellFormed(l) && |frame| >= l.size
    ensures RecvCallback(st, l, srcAddr, frame + extra) == RecvCallback(st, l, srcAddr, frame)
  {
    DecodeIgnoresTrailing(l, frame, extra);
  }

  /** Round trip: a message broadcast by device `a` and received by a device `b` with a different
      id reaches `b`'s handler once, with the sent tag, `a`'s id and the zero-padded payload. */
  lemma SendReceiveRoundTrip(a: ModuleState, b: ModuleState, l: Layout, msgType: nat,
                             data: Option<seq<Byte>>, dataLen: nat, stack: seq<Byte>,
                             transportRet: EspErr, srcAddr: Mac)
    requires WellFormed(l) && |stack| == l.size && TagFits(l, msgType)
    requires dataLen <= PayloadCapacity
    requires data.Some? ==> dataLen <= |data.value|
    requires a.deviceId != b.deviceId && b.handler.Some?
    ensures var out := BroadcastMessage(a, l, msgType, data, dataLen, stack, transportRet);
      && |out.sent| == 1
      && Invocations(RecvCallback(b, l, srcAddr, out.sent[0].frame)) ==
         [Invocation(b.handler.value, Message(msgType, a.deviceId, PaddedPayload(data, dataLen)), srcAddr)]
  {
  }

  /** A device that hears its own broadcast (loop-back) drops it. */
  lemma OwnBroadcastDropped(a: ModuleState, l: Layout, msgType: nat, data: Option<seq<Byte>>,
                            dataLen: nat, stack: seq<Byte>, transportRet: EspErr, srcAddr: Mac)
    requires WellFormed(l) && |stack| == l.size && TagFits(l, msgType)
    requires dataLen <= PayloadCapacity
    requires data.Some? ==> dataLen <= |data.value|
    ensures var out := BroadcastMessage(a, l, msgType, data, dataLen, stack, transportRet);
      && |out.sent| == 1
      && RecvCallback(a, l, srcAddr, out.sent[0].frame) == FromSelf
  {
  }
}
