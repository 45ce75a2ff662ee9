/** The in-memory layout of `broadcast_message_t`, which is also its wire format: the firmware
    sends the bytes of the struct and reads received bytes back through a pointer cast.

    The layout is left symbolic because it is fixed by the compiler, not by the source: the tag is a
    C enumeration whose width and the padding that follows it depend on the ABI. A `Layout`
    records the struct size and where each field lives; `WellFormed` demands only that the fields
    fit inside the struct and do not overlap. */
module Codec {
  import opened Bytes
  import opened BroadcastTypes

  datatype Layout = Layout(size: nat, typeOffset: nat, typeWidth: nat, idOffset: nat, dataOffset: nat)

  /** Byte ranges `[a, a + m)` and `[b, b + n)` do not overlap. */
  predicate Disjoint(a: nat, m: nat, b: nat, n: nat) {
    a + m <= b || b + n <= a
  }

  predicate WellFormed(l: Layout) {
    && l.typeWidth >= 1
    && l.typeOffset + l.typeWidth <= l.size
    && l.idOffset + 1 <= l.size
    && l.dataOffset + PayloadCapacity <= l.size
    && Disjoint(l.typeOffset, l.typeWidth, l.idOffset, 1)
    && Disjoint(l.typeOffset, l.typeWidth, l.dataOffset, PayloadCapacity)
    && Disjoint(l.idOffset, 1, l.dataOffset, PayloadCapacity)
  }

  /** Whether index `i` of a frame belongs to one of the three fields (and not to padding). */
  predicate InField(l: Layout, i: int) {
    || l.typeOffset <= i < l.typeOffset + l.typeWidth
    || i == l.idOffset
    || l.dataOffset <= i < l.dataOffset + PayloadCapacity
  }

  /** The tag fits the enumeration's storage (the enum has no negative enumerators, so the
      compiler gives it an unsigned representation). */
  predicate TagFits(l: Layout, t: nat) {
    t < Pow256(l.typeWidth)
  }

  /** Layout with a one-byte enumeration (`-fshort-enums`): tag, id and payload packed in 18 bytes. */
  const ShortEnumLayout := Layout(18, 0, 1, 1, 2)

  /** Layout with a four-byte enumeration: tag at 0, id at 4, payload at 5, padded to 24 bytes for
      the struct's four-byte alignment. */
  const IntEnumLayout := Layout(24, 0, 4, 4, 5)

  /** Whatever the ABI, a frame holds at least the 18 bytes of its three fields. */
  lemma FrameHoldsAllFields(l: Layout)
    requires WellFormed(l)
    ensures l.size >= l.typeWidth + 1 + PayloadCapacity
    ensures l.size >= 1 + 1 + PayloadCapacity
  {
  }

  lemma ExampleLayoutsWellFormed()
    ensures WellFormed(ShortEnumLayout) && ShortEnumLayout.size == 18
    ensures WellFormed(IntEnumLayout) && IntEnumLayout.size == 24
  {
  }

  /** The bytes of `m` as the struct holds them in memory. Padding is never written by the firmware
      (`memset` clears only `data`), so those bytes keep what the stack slot `stack` held before
      (`EncodeKeepsPadding`). */
  function Encode(l: Layout, m: Message, stack: seq<Byte>): (frame: seq<Byte>)
    requires WellFormed(l) && WellFormedMessage(m) && TagFits(l, m.msgType)
    requires |stack| == l.size
    ensures |frame| == l.size
    ensures frame[l.typeOffset..l.typeOffset + l.typeWidth] == LittleEndian(m.msgType, l.typeWidth)
    ensures frame[l.idOffset..l.idOffset + 1] == [m.deviceId]
    ensures frame[l.dataOffset..l.dataOffset + PayloadCapacity] == m.data
  {
    var typeBytes := LittleEndian(m.msgType, l.typeWidth);
    var withType := Overlay(stack, l.typeOffset, typeBytes);
    var withId := Overlay(withType, l.idOffset, [m.deviceId]);
    var frame := Overlay(withId, l.dataOffset, m.data);
    OverlayKeepsRange(withType, l.idOffset, [m.deviceId], l.typeOffset, l.typeOffset + l.typeWidth);
    OverlayKeepsRange(withId, l.dataOffset, m.data, l.typeOffset, l.typeOffset + l.typeWidth);
    OverlayKeepsRange(withId, l.dataOffset, m.data, l.idOffset, l.idOffset + 1);
    frame
  }

  /** Encoding writes only the three fields: every padding byte keeps the prior stack content. */
  lemma EncodeKeepsPadding(l: Layout, m: Message, stack: seq<Byte>, i: nat)
    requires WellFormed(l) && WellFormedMessage(m) && TagFits(l, m.msgType)
    requires |stack| == l.size
    requires i < l.size && !InField(l, i)
    ensures Encode(l, m, stack)[i] == stack[i]
  {
    var typeBytes := LittleEndian(m.msgType, l.typeWidth);
    var withType := Overlay(stack, l.typeOffset, typeBytes);
    var withId := Overlay(withType, l.idOffset, [m.deviceId]);
    OverlayKeepsIndex(stack, l.typeOffset, typeBytes, i);
    OverlayKeepsIndex(withType, l.idOffset, [m.deviceId], i);
    OverlayKeepsIndex(withId, l.dataOffset, m.data, i);
  }

  /** The message a receiver sees when it casts the first `size` bytes of `frame` to the struct.
      Every tag value is passed through; nothing but the length is checked. */
  function Decode(l: Layout, frame: seq<Byte>): (m: Message)
    requires WellFormed(l) && |frame| >= l.size
    ensures WellFormedMessage(m) && TagFits(l, m.msgType)
    ensures [m.deviceId] == frame[l.idOffset..l.idOffset + 1]
  {
    Message(
      LittleEndianValue(frame[l.typeOffset..l.typeOffset + l.typeWidth]),
      frame[l.idOffset],
      frame[l.dataOffset..l.dataOffset + PayloadCapacity])
  }

  /** Round trip: the receiver reads back exactly the message the sender wrote, whatever the padding. */
  lemma DecodeEncode(l: Layout, m: Message, stack: seq<Byte>)
    requires WellFormed(l) && WellFormedMessage(m) && TagFits(l, m.msgType)
    requires |stack| == l.size
    ensures Decode(l, Encode(l, m, stack)) == m
  {
    ValueOfLittleEndian(m.msgType, l.typeWidth);
  }

  /** The converse: re-encoding a decoded frame over its own bytes reproduces the frame, so
      decoding loses nothing but the padding, which the stack argument carries. */
  lemma EncodeDecode(l: Layout, frame: seq<Byte>)
    requires WellFormed(l) && |frame| == l.size
    ensures Encode(l, Decode(l, frame), frame) == frame
  {
    LittleEndianOfValue(frame[l.typeOffset..l.typeOffset + l.typeWidth]);
    OverlaySelf(frame, l.typeOffset, l.typeWidth);
    OverlaySelf(frame, l.idOffset, 1);
    OverlaySelf(frame, l.dataOffset, PayloadCapacity);
  }

  /** Bytes after the first `size` do not influence what the receiver sees. */
  lemma DecodeIgnoresTrailing(l: Layout, frame: seq<Byte>, extra: seq<Byte>)
    requires WellFormed(l) && |frame| >= l.size
    ensures Decode(l, frame + extra) == Decode(l, frame)
  {
    assert (frame + extra)[l.typeOffset..l.typeOffset + l.typeWidth] == frame[l.typeOffset..l.typeOffset + l.typeWidth];
    assert (frame + extra)[l.dataOffset..l.dataOffset + PayloadCapacity] == frame[l.dataOffset..l.dataOffset + PayloadCapacity];
  }
}
