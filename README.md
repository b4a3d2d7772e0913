# Modbus RTU core of the ESP32 MQTT–Modbus gateway

The gateway firmware receives commands over MQTT and relays them to a Modbus RTU
slave on a half-duplex RS-485 line. It then publishes the slave's reply back to
the topic the command came on. This project models the part with protocol
meaning, in two Dafny modules.

- `ModbusSerial` (`modbusserial.dfy`) models `gateway-esp32-firmware/src/modbusserial.c`:
  - **CRC-16.** `modbus_evaluateCRC` uses polynomial 0xA001, reflected, starting
    at 0xFFFF. It is specified by the left fold `Crc16`. The method over an
    array is proved to compute it.
  - **Byte splitters.** `lowByte` and `highByte`.
  - **Inter-symbol timeout.** `modbus_calculateIntersymbolTimeout` gives 1.5
    times the bits per character it counts, in milliseconds, truncated, and at
    least 1.
  - **Request sender.** `modbus_sendRequestPacket`.
  - **Response framer.** `modbus_readResponsePacket`.
- The UART driver is the class `SerialLink`:
  - `events` is the log of what has been done on the line (flush, write, delay,
    flush input, and one-byte reads with their timeouts).
  - `pending` is the script of what the coming one-byte reads return: a byte,
    or a timeout.
  - `interSymbolTimeoutMs` is the global `interSymbolTimeout_ms`, set from the
    UART configuration.
- The framer is specified by `Framed`. Its result is the bytes received in
  order, up to the first timeout or until the buffer is full.
- `Bridge` (`bridge.dfy`) models `mqtt_dataEventHandler` and `gatewayHandler` of
  `gateway-esp32-firmware/main/main.c`:
  - `HandleEvent` and `HandleMessage` say, as functions of the MQTT event and
    the script of the line, what one event leads to: the traffic on the line,
    the number of reads consumed, and the outcome. The outcome is one of:
    - ignored;
    - one publish, to the event's topic;
    - a defect.
  - The class `Gateway` holds the handlers as the firmware writes them, over
    arrays, and proves that they do what these functions say.
- Where the C code would never return, or has undefined behaviour, the model
  does not go on; it returns a `Defect` instead. There are five such cases:
  - `TagReadPastEnd`: `data[0]` is read on an empty message.
  - `RequestCrcNeverEnds`: a request CRC length above 255 against the
    `uint8_t` loop counter in `modbus_evaluateCRC`.
  - `RequestDumpNeverEnds`: a request above 255 bytes against the
    `unsigned char` debug loop.
  - `ReplyCrcNeverEnds`: a reply of 256 to 265 bytes.
  - `ReplyCopyWraps`: a one-byte reply, whose copy length `responseLen - 2`
    wraps around.

  `EightBitLoopNeverEnds` proves that such an 8-bit loop never ends.

The model follows the code as written in the following places. There, the code
does not do what its own comments or the Modbus timing rule suggest.

- The timeout truncates rather than rounds up (`TimeoutTruncates`). The t1.5
  inter-character time of the MODBUS over Serial Line Specification
  (section 2.5.1.1) is 1.5 character times.
- The character width counts 8 data bits, the parity bit and 1 stop bit, but no
  start bit (`CharacterBits`). An 8N1 character is 10 bits on the line and is
  counted as 9. So the timeout is about 1.35 real character times, not 1.5.
- The reply's CRC is computed, as the comment "Check for valid response and CRC
  verification" at main.c:99 announces. But it only decides whether to leave a
  loop that runs once anyway. So a reply with a bad CRC is published like a
  good one, stripped and tagged; it is not replaced by the "Null" marker
  (`CorruptReplyPublished`). Only a silent slave gets "Null" (`SilentSlave`).
- A message that is only a tag byte is not dropped. The CRC of nothing is
  0xFFFF, so the frame FF FF is written to the line (`TagOnlyMessage`).

## Model

| member | source | states |
|---|---|---|
| ModbusSerial.EvaluateCrc | gateway-esp32-firmware/src/modbusserial.c:55-72 | For lengths up to 255, the result is the CRC-16 (0xFFFF start, reflected polynomial 0xA001, eight shifts per byte) of the first `length` bytes of the buffer. |
| ModbusSerial.CrcOfEmpty | gateway-esp32-firmware/src/modbusserial.c:57-71 | The CRC of an empty buffer is the initial value 0xFFFF. |
| ModbusSerial.CrcFromAppend | gateway-esp32-firmware/src/modbusserial.c:59-69 | The CRC of a concatenation is the CRC of the second part, started from the register left by the first. |
| ModbusSerial.CrcSnoc | gateway-esp32-firmware/src/modbusserial.c:59-69 | One more byte is one more pass of the outer loop. |
| ModbusSerial.EightRounds | gateway-esp32-firmware/src/modbusserial.c:62-68 | The inner loop is eight shift rounds. |
| ModbusSerial.ShiftInjective | gateway-esp32-firmware/src/modbusserial.c:64-67 | One shift round maps different registers to different registers. |
| ModbusSerial.RoundsInjective | gateway-esp32-firmware/src/modbusserial.c:62-68 | Any number of shift rounds maps different registers to different registers. |
| ModbusSerial.LowByte | gateway-esp32-firmware/src/modbusserial.c:79-81 | The low byte is the word modulo 256 (unsigned 16-bit arithmetic). |
| ModbusSerial.HighByte | gateway-esp32-firmware/src/modbusserial.c:88-90 | The high byte is the word divided by 256 (unsigned 16-bit arithmetic). |
| ModbusSerial.SplitJoin | gateway-esp32-firmware/src/modbusserial.c:79-90 | The low and high bytes of a word put back together give the word, both as bits and as high * 256 + low, each half below 256. |
| ModbusSerial.JoinSplit | gateway-esp32-firmware/src/modbusserial.c:79-90 | The splitters recover the two bytes a word was built from. |
| ModbusSerial.UpdateWithOwnLowByte | gateway-esp32-firmware/src/modbusserial.c:61-68 | Feeding the register its own low byte leaves exactly its high byte. |
| ModbusSerial.CrcResidue | gateway-esp32-firmware/main/main.c:76-78 | A buffer followed by its CRC, low byte first, has CRC zero, which is the receiver's check. |
| ModbusSerial.ReadHoldingRegisterExample | gateway-esp32-firmware/src/modbusserial.c:55-72 | The request 01 03 00 00 00 01 has CRC 0x0A84, and the frame ending 84 0A has CRC zero. |
| ModbusSerial.CrcFromSeparates | gateway-esp32-firmware/src/modbusserial.c:59-69 | Two different registers stay different whatever bytes follow. |
| ModbusSerial.UpdateInjective | gateway-esp32-firmware/src/modbusserial.c:60-69 | From the same register, two different bytes give two different registers. |
| ModbusSerial.CrcAround | gateway-esp32-firmware/src/modbusserial.c:59-69 | The CRC of a buffer split around one byte is the fold of the tail from the register after that byte. |
| ModbusSerial.ChangedByteChangesCrc | gateway-esp32-firmware/src/modbusserial.c:59-69 | Two buffers that differ in exactly one byte have different CRCs. |
| ModbusSerial.CorruptedByteDetected | gateway-esp32-firmware/main/main.c:100 | A frame whose CRC is zero gets a non-zero CRC once any error pattern hits any one of its bytes. |
| ModbusSerial.CounterWraps | gateway-esp32-firmware/src/modbusserial.c:60 | The `uint8_t` loop counter holds k mod 256 after k increments. |
| ModbusSerial.IncrementWraps | gateway-esp32-firmware/src/modbusserial.c:60 | One increment of an 8-bit counter is +1 mod 256 in integers. |
| ModbusSerial.EightBitLoopNeverEnds | gateway-esp32-firmware/src/modbusserial.c:60 | Against a bound above 255, the `uint8_t` counter is below the bound after every number of increments, so the loop never ends. Every 256 increments the counter returns to the same value, so the same first 256 bytes are walked over again. |
| ModbusSerial.IntersymbolTimeout | gateway-esp32-firmware/src/modbusserial.c:97-107 | The timeout is at least 1 ms. It is 1 when 1.5 times the counted bits per character take under a millisecond. Otherwise it is the largest ms with ms * baud <= 1500 * counted bits per character (8 data bits, parity bit, 1 stop bit). |
| ModbusSerial.TimeoutNonIncreasing | gateway-esp32-firmware/src/modbusserial.c:97-107 | A faster baud rate never gives a longer timeout. |
| ModbusSerial.TimeoutGrowsWithParity | gateway-esp32-firmware/src/modbusserial.c:101-105 | Enabling parity never gives a shorter timeout. |
| ModbusSerial.TimeoutIgnoresDataAndStopBits | gateway-esp32-firmware/src/modbusserial.c:98-105 | The configuration's data-bit and stop-bit settings do not affect the timeout; 8 and 1 are always used. |
| ModbusSerial.DefaultLineTimeout | gateway-esp32-firmware/src/uartmanager.c:12-21 | The firmware's own line (115200 baud, 8N1) gets a 1 ms timeout. |
| ModbusSerial.TimeoutTruncates | gateway-esp32-firmware/src/modbusserial.c:105-106 | At 9600 baud 8N1 the timeout is 1 ms, below the 13500/9600 ms that 1.5 times its 9 counted bits take. |
| ModbusSerial.SerialLink.constructor | gateway-esp32-firmware/src/uartmanager.c:21 | The link starts with an empty log and the given script, and its inter-symbol timeout is computed from the configuration. |
| ModbusSerial.SerialLink.FlushAll | gateway-esp32-firmware/src/modbusserial.c:16 | Logs a flush; the coming reads are unchanged. |
| ModbusSerial.SerialLink.WriteBytes | gateway-esp32-firmware/src/modbusserial.c:17 | Logs the bytes written; the coming reads are unchanged. |
| ModbusSerial.SerialLink.DelayTicks | gateway-esp32-firmware/src/modbusserial.c:18 | Logs the delay; the coming reads are unchanged. |
| ModbusSerial.SerialLink.FlushInputBuffer | gateway-esp32-firmware/src/modbusserial.c:19 | Logs the input flush; the coming reads are unchanged. |
| ModbusSerial.SerialLink.ReadByte | gateway-esp32-firmware/src/modbusserial.c:31 | Returns the next scripted read, or a timeout once the script is used up. Consumes it and logs it with its timeout. |
| ModbusSerial.SendRequestPacket | gateway-esp32-firmware/src/modbusserial.c:15-20 | The line sees flush, the first `length` bytes written, a 5-tick delay and an input flush, in that order. No read is consumed. |
| ModbusSerial.Framed | gateway-esp32-firmware/src/modbusserial.c:29-47 | The frame fits the buffer. Its bytes are the first reads in order. When the buffer is not full, the read after them timed out. |
| ModbusSerial.FramedUnique | gateway-esp32-firmware/src/modbusserial.c:29-47 | Those three properties determine the frame. |
| ModbusSerial.FramedScript | gateway-esp32-firmware/src/modbusserial.c:29-47 | A slave that sends a reply that fits and then falls silent is framed as exactly that reply. |
| ModbusSerial.ReadResponsePacket | gateway-esp32-firmware/src/modbusserial.c:29-47 | The buffer holds the frame and is untouched beyond it. The link consumes one read per byte plus the timed-out read, unless the buffer filled up. The reads are logged, the first with the caller's timeout and the others with the inter-symbol timeout. |
| Bridge.PayloadLength | gateway-esp32-firmware/main/main.c:71 | The `uint16_t` payloadLen is data_len + 1 up to 0xFFFE. It wraps to 0 at 0xFFFF and is never more than data_len + 1. |
| Bridge.CrcLength | gateway-esp32-firmware/main/main.c:70-76 | The `uint16_t` CRC length is data_len - 1 and payloadLen is data_len + 1 unless data_len wraps. An empty message gives 65535. A CRC length up to 255 means payloadLen is two more. |
| Bridge.RequestFrame | gateway-esp32-firmware/main/main.c:74-78 | The request is the payload followed by two trailer bytes, and its CRC is zero. |
| Bridge.Envelope | gateway-esp32-firmware/main/main.c:106-122 | The outbound payload starts with the gateway tag 0x01. It has 5 bytes for no reply and one fewer than the reply otherwise. |
| Bridge.HandleMessage | gateway-esp32-firmware/main/main.c:61-130 | For each branch of gatewayHandler, gives the line traffic, the reads consumed and the outcome. Only a 0x01-tagged message is ignored. At most 265 reads are consumed. The line is used exactly when reads are consumed, and then it sees 4 request events (the second a write) and one read per entry consumed. A publish goes to the event's topic and starts with 0x01. |
| Bridge.HandleEvent | gateway-esp32-firmware/main/main.c:45-54 | For each branch of mqtt_dataEventHandler, gives the line traffic, the reads consumed and the outcome. An empty message is the read-past-end defect with no traffic. Exactly the 0xFF- and 0x01-tagged messages are ignored. The line is used exactly when reads are consumed. A publish goes to the event's topic and starts with 0x01. |
| Bridge.EnvelopeOfFrame | gateway-esp32-firmware/main/main.c:117-119 | Stripping the trailer and tagging a well-formed frame gives the tag followed by its payload. |
| Bridge.EmptyMessage | gateway-esp32-firmware/main/main.c:49 | An empty message reads past its end, and nothing happens on the line. |
| Bridge.DroppedTags | gateway-esp32-firmware/main/main.c:49-66 | Messages starting with 0xFF or 0x01 are ignored without touching the line. |
| Bridge.RequestSizeLimit | gateway-esp32-firmware/main/main.c:70-85 | Below the `uint16_t` wrap, a message reaches the line exactly when it has at most 254 bytes. With 255 or 256 bytes the debug dump never ends; with more the request CRC never does. |
| Bridge.RequestOnTheWire | gateway-esp32-firmware/main/main.c:70-97 | The line sees flush, the message without its tag plus its CRC low byte first, the delay and the input flush. The frame's CRC is zero. It is one byte longer than the message unless the length wraps. Nothing else is written. |
| Bridge.TagOnlyMessage | gateway-esp32-firmware/main/main.c:70-78 | A message of only a tag byte (neither 0xFF nor 0x01) is acted on, and the frame FF FF is written to the line. |
| Bridge.SingleAttempt | gateway-esp32-firmware/main/main.c:93-104 | After the request come only the framer's reads, 1 to 265 of them: the first waits 500 ms, the others the inter-symbol timeout. |
| Bridge.SilentSlave | gateway-esp32-firmware/main/main.c:106-122 | When the first read times out, 01 "Null" is published to the event's topic after one read. |
| Bridge.ReplyPublished | gateway-esp32-firmware/main/main.c:99-122 | A reply of 2 to 255 bytes is published tagged and without its last two bytes. A one-byte reply and a reply over 255 bytes are defects. |
| Bridge.CorruptReplyPublished | gateway-esp32-firmware/main/main.c:93-122 | A reply frame with one corrupted byte fails the CRC check and is still published, stripped and tagged. |
| Bridge.ValidReplyRoundTrip | gateway-esp32-firmware/main/main.c:96-122 | A slave that answers with the well-formed frame around m and then falls silent has the tag followed by m published. |
| Bridge.OwnOutputIgnored | gateway-esp32-firmware/main/main.c:45-122 | Whatever is published goes to the event's topic and starts with 0x01. When the broker echoes it back, it is ignored. |
| Bridge.BuildRequest | gateway-esp32-firmware/main/main.c:70-78 | Reports whether the request CRC loop would never end. Otherwise the payload buffer's first payloadLen bytes are the request frame for the message without its tag. |
| Bridge.TagResponse | gateway-esp32-firmware/main/main.c:117-119 | The tagged buffer starts with 0x01, followed by the response without its last two bytes. |
| Bridge.Exchange | gateway-esp32-firmware/main/main.c:89-104 | Sends the request once, then frames the reply into a 265-byte buffer. Reports whether the reply CRC loop would never end. Gives the exact traffic and reads consumed. |
| Bridge.PublishReply | gateway-esp32-firmware/main/main.c:106-122 | No reply becomes "Null", and a one-byte reply is the copy-wrap defect. Any other reply is published as its envelope. The response buffer is unchanged when there is a reply; otherwise it starts with "Null" and is unchanged past it. |
| Bridge.Gateway.constructor | gateway-esp32-firmware/main/main.c:20 | No event has been delivered yet, and the gateway drives the given link. |
| Bridge.Gateway.DataEventHandler | gateway-esp32-firmware/main/main.c:45-54 | Stores the event, then does on the line, consumes and returns exactly what `HandleEvent` says. |
| Bridge.Gateway.GatewayHandler | gateway-esp32-firmware/main/main.c:61-130 | Does on the line, consumes and returns exactly what `HandleMessage` says. |

## Left out

- Wi-Fi, the MQTT client (connection, subscription, publish transport), UART
  driver installation, pin and RS-485 mode setup, and the Python client are
  not part of this model. Publishing is the `Published` outcome, and the UART
  is the `SerialLink` script and log.
- Time: the conversion of milliseconds to FreeRTOS ticks (`/ portTICK_PERIOD_MS`)
  and the real duration of delays and timeouts are not modelled. Reads are
  logged with their timeout in milliseconds, and the delay with its tick count.
- Logging (`ESP_LOGI`, `printf`) has no effect in the model, except where its
  loop never ends.
- Concurrency: MQTT events are handled one at a time, with no other task on the
  UART.
- ModbusSerial.IntersymbolTimeout: computes with exact integer division instead
  of `double`. For a baud rate up to 2^31 the quotient is at most 15000. A
  non-integer quotient then lies at least 1/baud from an integer, far more than
  the double rounding error, so truncation gives the same value.
- ModbusSerial.SerialLink.FlushInputBuffer: the flushes do not discard scripted
  bytes. The script describes what the reads return after the flush.
- ModbusSerial.EvaluateCrc: its `uint8_t` counters are integers, which is exact
  under its 255 bound. Above it the firmware loops forever
  (`EightBitLoopNeverEnds`), which callers report as a defect.
- Bridge.BuildRequest: the `memcpy` of `data_len` bytes starting at `data + 1`
  reads one byte past the message. That byte is then overwritten by the CRC, or
  lies beyond payloadLen when the length wraps, so it has no effect and is not
  modelled.
- Bridge.Gateway.GatewayHandler: where the firmware never returns (the 8-bit
  loops) or has undefined behaviour (the wrapped copy length), the handler
  stops and returns the `Defect` instead of going on.
- Bridge.Gateway.GatewayHandler: the debug dump of the response (main.c:126-128)
  is not modelled. Its `uint8_t` counter meets a length of at most 255 there,
  because longer replies already hang in the CRC check.
