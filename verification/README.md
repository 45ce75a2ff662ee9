# ESP-NOW broadcast messaging for the ESP32-EVB, modelled in Dafny

This project models the ESP-NOW broadcast layer of the ESP32-EVB example firmware
(`src/esp_now_broadcast.c` and `src/esp_now_broadcast.h`) and the application code in
`src/main.cpp` that reacts to received messages and serves the serial-console menu.

- `Bytes` (`bytes.dfy`): bytes, little-endian integers, `memset`/`memcpy` onto a buffer.
- `BroadcastTypes` (`broadcast_types.dfy`): `message_type_t`, `broadcast_message_t`, the
  handler identity and the ESP-IDF error codes the module uses.
- `Codec` (`codec.dfy`): the memory layout of `broadcast_message_t`. The firmware sends the raw
  bytes of the struct and casts received bytes back to it. That layout belongs to the compiler,
  not the source, so it is kept symbolic. A `Layout` records the struct size (`sizeof`) and the
  offset of each field, and the width of the enum tag. The only assumption is that the fields fit
  and do not overlap, which already gives a size of at least 18 bytes. `Encode` writes a message
  over the previous stack contents, because the firmware never writes the padding bytes.
  `Decode` is the pointer cast.
- `Broadcast` (`broadcast.dfy`): the module globals, `esp_now_broadcast_init`,
  `esp_now_broadcast_message`, `recv_callback` and `get_broadcast_address`. SDK calls are not
  made. Their results are parameters: a total function `sdk` answers each initialisation call, and
  `transportRet` is what `esp_now_send` returns. The frames handed to `esp_now_send`, the SDK calls
  made and the handler invocations are returned as logs.
- `App` (`app.dfy`): `message_handler`, `showColor`, one step of `hueControlTask`,
  `process_command` and one round of the console loop. These are transitions on a record of the
  application globals. `millis()` is a parameter. Relay writes, LED refreshes and console output
  are returned as effects.
- `Scenarios` (`scenarios.dfy`): concrete frames through the paths, and a button press on one
  board toggling the relay of another.

Facts about the code that the model keeps:
- Frames are `sizeof(broadcast_message_t)` bytes. The struct is not packed and its tag is a C
  enum, so the size depends on the compiler: 18 bytes with a one-byte enum, 24 with the usual
  four-byte enum. `Codec.ShortEnumLayout` and `Codec.IntEnumLayout` are both instances of the
  general model.
- Only the `ESP_ERROR_CHECK` calls abort. The error codes of `esp_now_init` and of a failed peer
  registration are returned to the caller.
- Frames longer than the struct are accepted and the extra bytes ignored.
- The payload array is zero-filled, but any struct padding is never written and keeps whatever
  bytes were on the stack.

## Model

| member | source | states |
|---|---|---|
| Codec.FrameHoldsAllFields | src/esp_now_broadcast.h:20-24 | for any layout whose fields fit without overlapping, the struct holds at least the tag width, one id byte and the 16 payload bytes, and so at least 18 bytes |
| Codec.Encode | src/esp_now_broadcast.c:114-125 | the sent bytes are `sizeof` long and hold the little-endian tag, the id and the payload at their offsets |
| Codec.EncodeKeepsPadding | src/esp_now_broadcast.c:114-117 | a byte outside the three fields keeps whatever the stack slot held, because only the fields are written |
| Codec.Decode | src/esp_now_broadcast.c:33 | the cast reads a message with a 16-byte payload, a tag that fits its width and the id byte of the frame; no tag value is rejected |
| Codec.DecodeEncode | src/esp_now_broadcast.c:33 | decoding an encoded message returns that message, whatever the padding bytes were |
| Codec.EncodeDecode | src/esp_now_broadcast.h:20-24 | encoding a decoded frame over its own bytes returns the frame, so decoding loses only the padding |
| Codec.DecodeIgnoresTrailing | src/esp_now_broadcast.c:27-33 | bytes after the first `sizeof` bytes do not affect the decoded message |
| Broadcast.GetBroadcastAddress | src/esp_now_broadcast.c:133-135 | the returned address is six 0xFF bytes |
| Broadcast.FirstFailure | src/esp_now_broadcast.c:59-71 | finds the first `ESP_ERROR_CHECK`ed call that fails: every earlier call succeeded, and the call at the index did not |
| Broadcast.BroadcastInit | src/esp_now_broadcast.c:54-106 | id and handler are stored in every outcome; a failed checked call aborts, at the first failing call, every call before it having succeeded; an `esp_now_init` error is returned as-is; init returns `ESP_OK` exactly when every step succeeds and add-peer gives `ESP_OK` or `ESP_ERR_ESPNOW_EXIST`; any other add-peer error is returned after exactly the first 12 calls, before `esp_wifi_get_mac`; the calls made are a prefix of the full sequence, which is made in full on success |
| Broadcast.ExistingPeerCountsAsSuccess | src/esp_now_broadcast.c:91-96 | when add-peer reports the broadcast peer as already present and every other call succeeds, initialisation returns `ESP_OK` after the full call sequence |
| Broadcast.PaddedPayload | src/esp_now_broadcast.c:117-121 | the payload has 16 bytes: the caller's first `data_len` bytes, then zeros; a NULL pointer or zero length gives all zeros |
| Broadcast.BroadcastMessage | src/esp_now_broadcast.c:108-131 | more than 16 bytes returns `ESP_ERR_INVALID_ARG` with nothing sent; otherwise exactly one frame of `sizeof` bytes goes to the broadcast address, it decodes to the argument's tag, the stored device id and the padded payload, and `esp_now_send`'s result is returned |
| Broadcast.RecvCallback | src/esp_now_broadcast.c:26-52 | a frame shorter than the struct is dropped (and only then); a frame with the local id is dropped; otherwise the decoded message and the sender's address go to the registered handler, and only when a handler is registered |
| Broadcast.Invocations | src/esp_now_broadcast.c:49-51 | a received frame invokes the handler at most once, and exactly once when it is dispatched |
| Broadcast.NothingDispatchedBeforeInit | src/esp_now_broadcast.c:12-13 | with the globals as they are before initialisation (no handler), no received frame invokes a handler |
| Broadcast.SelfMessagesNeverDispatched | src/esp_now_broadcast.c:35-38 | a frame carrying the local id invokes no handler, whatever its tag |
| Broadcast.RecvIgnoresTrailing | src/esp_now_broadcast.c:27-31 | a frame longer than the struct is handled like its first `sizeof` bytes |
| Broadcast.SendReceiveRoundTrip | src/esp_now_broadcast.c:114-125 | a message sent by device A and received by device B with another id invokes B's handler once, with A's tag, A's id and the zero-padded payload |
| Broadcast.OwnBroadcastDropped | src/esp_now_broadcast.c:35-38 | a device drops its own broadcast when it hears it back |
| App.MessageHandler | src/main.cpp:91-115 | a button-pressed message toggles the relay state, drives the relay to the new value and sets the flash flag with the given time; any other tag changes nothing and drives nothing |
| App.ToggleTwiceRestores | src/main.cpp:105-106 | two button-pressed messages in a row restore the relay state |
| App.RelayParity | src/main.cpp:98-114 | after any run of messages the relay state has flipped exactly when an odd number of them were button presses |
| App.RelayOnAfterOddPresses | src/main.cpp:105-107 | from boot, the relay is on exactly when an odd number of button presses have been handled |
| App.HandlingKeepsLedSettings | src/main.cpp:91-115 | handling messages never changes hue or brightness |
| App.ShowColor | src/main.cpp:118-127 | the flash flag is cleared, nothing else in the state changes, and all 64 LEDs are shown in the current hue at saturation 255 and the current brightness |
| App.HueStep | src/main.cpp:141 | the hue advances by one and wraps from 255 to 0 |
| App.HueAfterSteps | src/main.cpp:138-144 | after n steps the hue is the start plus n, modulo 256 |
| App.HueCycle | src/main.cpp:138-144 | 256 steps bring the hue back to its start |
| App.CString | src/main.cpp:187 | the C string in a buffer is the prefix before the first NUL, which is what `strcmp` compares |
| App.ProcessCommand | src/main.cpp:185-217 | "1" logs the option, drives the relay on, shows all 64 LEDs at brightness 100, drives the relay off and shows all 64 at brightness 1, ending with brightness 1 and the flag cleared; "2" and "3" only log; everything else prints the menu; only "1" changes state |
| App.RunsOptionOne | src/main.cpp:187-191 | a command runs option 1 exactly when its C string is `"1"` |
| App.UnknownCommandIsHelp | src/main.cpp:211-216 | every command other than "1", "2", "3" and "h" behaves exactly like "h" |
| App.TakeLine | src/main.cpp:266-270 | `fgets` reads a prefix of the pending input of at most 255 characters, stopping right after the first newline: it holds no newline except possibly its last character, and it ends at a newline, at the limit or at the end of the pending input |
| App.ConsoleRound | src/main.cpp:268-273 | with no pending input, nothing happens |
| App.BufferedLineOnlyShowsMenu | src/main.cpp:270-271 | as written, when a command's whole line, newline included, is pending at the `fgets` call, it reaches `process_command` with its newline and only prints the menu |
| App.PartialLineIsDispatched | src/main.cpp:270-271 | as written, when only part of a line is pending and no newline yet, that part is dispatched as a command |
| App.ConsoleRoundRunsOptionOne | src/main.cpp:266-271 | as written, a round runs option 1 exactly when the pending input is `"1"` alone or `'1'` followed by a NUL; pending `"1\n"` never does |
| App.ConsoleRoundTrimmed | src/main.cpp:268-273 | the corrected loop does nothing without pending input |
| App.TrimmedRoundRunsOptionOne | src/main.cpp:266-271 | with the newline removed, a round runs option 1 exactly when the pending input starts with `'1'` followed by nothing, a newline or a NUL |
| App.TypedCommandIsDispatched | src/main.cpp:270-271 | with the newline removed, a command whose whole line is pending at the `fgets` call behaves as that command |
| Scenarios.ButtonFrameFromPeerIsDispatched | src/esp_now_broadcast.c:33-51 | with local id 5 and the 18-byte layout, frame `[1, 7, 0 x16]` reaches the handler as a button press from device 7 |
| Scenarios.UndefinedTagReachesHandler | src/main.cpp:98-114 | a frame with tag 2, which the firmware does not define, is still handed to the handler, and the handler changes nothing |
| Scenarios.OwnIdFrameIsDropped | src/esp_now_broadcast.c:35-38 | with local id 5, frame `[1, 5, 0 x16]` is dropped |
| Scenarios.TenByteFrameIsDropped | src/esp_now_broadcast.c:27-31 | a 10-byte frame is dropped under every layout |
| Scenarios.EighteenBytesTooShortForIntEnum | src/esp_now_broadcast.c:27-31 | with a four-byte tag, an 18-byte frame is dropped |
| Scenarios.OversizedPayloadRefused | src/esp_now_broadcast.c:109-112 | a 20-byte payload returns `ESP_ERR_INVALID_ARG` and sends nothing |
| Scenarios.RemoteButtonPressTogglesRelay | src/main.cpp:98-107 | a button press broadcast by one board toggles the relay of another board and stamps its flash flag |

## Left out

- Wi-Fi and ESP-NOW bring-up (`esp_netif_init`, `esp_wifi_*`, callback registration, `esp_wifi_get_mac`): foreign SDK calls. Only their result codes are modelled, through the `sdk` parameter.
- `ESP_ERROR_CHECK` aborts: modelled as the `Aborted` outcome. The reset that follows is not modelled.
- The concrete values of `ESP_OK`, `ESP_ERR_INVALID_ARG` and `ESP_ERR_ESPNOW_EXIST` come from the ESP-IDF headers, which are not part of this model. The model relies only on their being distinct.
- `send_callback` and all `printf`/`sprintf` logging, including MAC formatting and the log lines of `recv_callback` and `message_handler`: output only.
- The byte order is fixed to little-endian (the ESP32 cores). The tag is unsigned, as the compiler represents an enumeration with no negative enumerators.
- Broadcast.RecvCallback: the frame length is the length of the byte sequence, a `nat`. The C compares the signed `int len` with the unsigned `sizeof`, so a negative length would not be caught; the transport never reports one.
- Broadcast.BroadcastMessage: requires a non-NULL buffer to hold `data_len` bytes whenever they are copied. Reading past the buffer is undefined behaviour in C.
- The handler gets a pointer into the received buffer. The model passes the decoded message instead.
- App.ConsoleRound: its own contract covers only the idle round. Which pending inputs run option 1 is stated for every input by `App.ConsoleRoundRunsOptionOne`, and the whole-line case by `App.BufferedLineOnlyShowsMenu`.
- App.ConsoleRoundTrimmed: its own contract covers only the idle round. Which pending inputs run option 1 is stated for every input by `App.TrimmedRoundRunsOptionOne`, and the whole-line case by `App.TypedCommandIsDispatched`.
- Console input timing: no UART driver is installed, so `fgets` on `stdin` returns whatever has arrived. The model takes the input pending at the `fgets` call as a parameter, so both a whole line and part of one are covered.
- `millis()` and its 32-bit tick arithmetic: the time is a `uint32_t` parameter.
- FreeRTOS tasks, delays, GPIO setup, `button_task` with its debounce, the `colorTask` loop, and the `volatile` sharing between tasks: scheduling, I/O and concurrency. `showColor` and one step of `hueControlTask` are modelled. `hue` is read as constant during a command.
- App.ProcessCommand: the `Rgb { 100, 255, 100 }` fill of option 1 (`src/main.cpp:193-196`) is not an effect. `showColor` overwrites every LED before the strip is shown, so the fill is never visible.
- `setup`, NVS initialisation and the compile-time device id from `__COUNTER__`. `setup` never calls `esp_now_broadcast_init`, so the module and the handler are modelled separately, and `Scenarios` composes them.
- `src/led_controller.cpp` and `src/led_controller.h`: a wrapper over the SmartLeds library, which is not part of this model. `main.cpp` never uses it. Showing the LED buffer is the `Show` effect.
- `src/shared.cpp`, `include/shared.h`, `src/common.h`: leftover globals and constants. Only `LED_COUNT` (`src/common.h:8`) is used.

## Findings

| source | as written | input that shows it | evidently intended | confidence | as-written member | corrected member |
|---|---|---|---|---|---|---|
| src/main.cpp:270-271 | `fgets` keeps the line's newline, and the line goes to `process_command` unchanged, so when a command's whole line, newline included, is pending when `fgets` is called, `strcmp(cmd, "1")` does not match it | `1` then Enter, both pending at the `fgets` call, gives the line `"1\n"`, which prints the menu instead of running option 1 | strip the newline so a typed command selects its option | medium (not executed; assumes the console delivers Enter as a newline, the ESP-IDF default) | App.ConsoleRound, App.BufferedLineOnlyShowsMenu, App.ConsoleRoundRunsOptionOne | App.ConsoleRoundTrimmed, App.TypedCommandIsDispatched, App.TrimmedRoundRunsOptionOne |
