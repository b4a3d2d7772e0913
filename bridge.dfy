/**
 * Model of the gateway bridge (gateway-esp32-firmware/main/main.c): one MQTT
 * data event becomes at most one Modbus transaction and at most one publish.
 *
 * HandleEvent and HandleMessage say, as functions of the event and of the
 * script of the serial line, what the two handlers do: the traffic on the
 * line, how many reads they consume and the outcome. The class Gateway holds
 * the handlers themselves, written over arrays as the firmware writes them,
 * and proves that they do what the functions say.
 *
 * Where the firmware would loop forever (an 8-bit loop counter against a
 * bound above 255) or exhibit undefined behaviour (reading a byte that is not
 * there, a length that wraps around), the outcome is a Defect and the
 * handlers stop at that point.
 */
module Bridge {
  import opened ModbusSerial

  datatype Option<T> = None | Some(value: T)

  /** An MQTT data event: the topic bytes (topic, topic_len) and the payload
      bytes (data, data_len) */
  datatype MqttEvent = MqttEvent(topic: seq<byte>, data: seq<byte>)

  /** The tag of messages that mqtt_dataEventHandler ignores */
  const EchoTag: byte := 0xFF
  /** The tag of the gateway's own messages: ignored on input, put on every output */
  const GatewayTag: byte := 0x01
  /** Size of the response buffer and the first-byte timeout of the one read */
  const ResponseCapacity: u16 := 265
  const ResponseTimeoutMs: u16 := 500
  /** The literal "Null" published when the slave does not answer */
  const Sentinel: seq<byte> := [0x4E, 0x75, 0x6C, 0x6C]

  /** Where the firmware as written never finishes or has undefined behaviour */
  datatype Defect =
    | TagReadPastEnd       // data[0] of an empty message
    | RequestCrcNeverEnds  // modbus_evaluateCRC on the request with a length above 255
    | RequestDumpNeverEnds // the unsigned char loop printing a request longer than 255 bytes
    | ReplyCrcNeverEnds    // modbus_evaluateCRC on a reply longer than 255 bytes
    | ReplyCopyWraps       // memcpy of responseLen - 2 bytes when responseLen is 1

  /** What one handler call amounts to for the MQTT side */
  datatype Outcome =
    | Ignored
    | Published(topic: seq<byte>, payload: seq<byte>)
    | Fails(defect: Defect)

  /** One handler call: what it does on the serial line, how many entries of the
      script it consumes, and its outcome */
  datatype Effect = Effect(traffic: seq<LinkEvent>, consumed: nat, outcome: Outcome)

  /** payloadLen, a uint16_t: data_len + 1, which wraps to 0 at 0xFFFF and
      never exceeds it */
  function PayloadLength(dataLen: nat): (p: u16)
    ensures dataLen <= 0xFFFE ==> p == dataLen + 1
    ensures dataLen == 0xFFFF ==> p == 0
    ensures p <= dataLen + 1
  {
    (dataLen + 1) % 0x1_0000
  }

  /** The uint16_t length passed to modbus_evaluateCRC: payloadLen - 2 */
  function CrcLength(dataLen: nat): (n: u16)
    ensures 1 <= dataLen <= 0xFFFE ==> n == dataLen - 1 && PayloadLength(dataLen) == dataLen + 1
    ensures dataLen == 0 ==> n == 0xFFFF
    ensures n <= 255 ==> PayloadLength(dataLen) == n + 2 && n + 1 <= dataLen
  {
    (PayloadLength(dataLen) - 2) % 0x1_0000
  }

  /** The request frame for the Modbus payload m: m followed by its CRC, low
      byte first */
  function RequestFrame(m: seq<byte>): (frame: seq<byte>)
    ensures |frame| == |m| + 2 && frame[..|m|] == m
    ensures Crc16(frame) == 0
  {
    CrcResidue(m);
    m + [LowByte(Crc16(m)), HighByte(Crc16(m))]
  }

  /** The outbound payload for a reply: the gateway tag, then the reply
      without its last two bytes, or "Null" when there is no reply */
  function Envelope(reply: seq<byte>): (env: seq<byte>)
    requires |reply| != 1
    ensures |env| >= 1 && env[0] == GatewayTag
    ensures |env| == if reply == [] then 5 else |reply| - 1
  {
    [GatewayTag] + (if reply == [] then Sentinel else reply[..|reply| - 2])
  }

  /** Stripping the trailer undoes appending it */
  lemma EnvelopeOfFrame(m: seq<byte>)
    ensures Envelope(RequestFrame(m)) == [GatewayTag] + m
  {
  }

  /** gatewayHandler, for an event that has a first byte: the traffic on the
      line, the reads consumed and the outcome. Only a message tagged 0x01 is
      ignored; the line is used exactly when reads are consumed, and then the
      request comes first, followed by one read per entry consumed; a publish
      goes to the event's topic and carries the gateway tag. */
  function HandleMessage(ev: MqttEvent, pending: seq<Rx>, interSymbolMs: nat): (e: Effect)
    requires |ev.data| >= 1
    ensures e.outcome == Ignored <==> ev.data[0] == GatewayTag
    ensures e.consumed <= ResponseCapacity as int
    ensures e.traffic == [] <==> e.consumed == 0
    ensures e.traffic != [] ==> |e.traffic| == 4 + e.consumed && e.traffic[1].Write?
    ensures e.outcome.Published? ==>
      e.outcome.topic == ev.topic && |e.outcome.payload| >= 1 && e.outcome.payload[0] == GatewayTag
  {
    if ev.data[0] == GatewayTag then Effect([], 0, Ignored)
    else
      var crcLen := CrcLength(|ev.data|);
      if crcLen > 255 then Effect([], 0, Fails(RequestCrcNeverEnds))
      else if PayloadLength(|ev.data|) > 255 then Effect([], 0, Fails(RequestDumpNeverEnds))
      else
        var reply := Framed(pending, ResponseCapacity);
        var count := ReadsMade(pending, ResponseCapacity);
        var traffic := SendTrace(RequestFrame(ev.data[1..crcLen + 1]))
          + ReadLog(pending, count, ResponseTimeoutMs, interSymbolMs);
        if |reply| > 255 then Effect(traffic, count, Fails(ReplyCrcNeverEnds))
        else if |reply| == 1 then Effect(traffic, count, Fails(ReplyCopyWraps))
        else Effect(traffic, count, Published(ev.topic, Envelope(reply)))
  }

  /** mqtt_dataEventHandler: an empty message is read past its end, a
      message tagged 0xFF or 0x01 is ignored, and any other goes through
      gatewayHandler */
  function HandleEvent(ev: MqttEvent, pending: seq<Rx>, interSymbolMs: nat): (e: Effect)
    ensures |ev.data| == 0 ==> e == Effect([], 0, Fails(TagReadPastEnd))
    ensures e.outcome == Ignored <==> |ev.data| >= 1 && (ev.data[0] == EchoTag || ev.data[0] == GatewayTag)
    ensures e.traffic == [] <==> e.consumed == 0
    ensures e.outcome.Published? ==>
      e.outcome.topic == ev.topic && |e.outcome.payload| >= 1 && e.outcome.payload[0] == GatewayTag
  {
    if |ev.data| == 0 then Effect([], 0, Fails(TagReadPastEnd))
    else if ev.data[0] == EchoTag then Effect([], 0, Ignored)
    else HandleMessage(ev, pending, interSymbolMs)
  }

  // ------------------------------------------------------------------
  // What one MQTT event leads to

  /** A message the gateway turns into a Modbus transaction: it has a first
      byte, that byte is neither tag, and both uint16_t lengths fit the
      8-bit loops that walk over them */
  predicate Actionable(ev: MqttEvent) {
    |ev.data| >= 1 && ev.data[0] != EchoTag && ev.data[0] != GatewayTag
    && CrcLength(|ev.data|) <= 255 && PayloadLength(|ev.data|) <= 255
  }

  /** An empty message is read past its end */
  lemma EmptyMessage(ev: MqttEvent, pending: seq<Rx>, interSymbolMs: nat)
    requires ev.data == []
    ensures HandleEvent(ev, pending, interSymbolMs) == Effect([], 0, Fails(TagReadPastEnd))
  {
  }

  /** Messages tagged 0xFF or 0x01 are dropped without touching the line */
  lemma DroppedTags(ev: MqttEvent, pending: seq<Rx>, interSymbolMs: nat)
    requires |ev.data| >= 1 && (ev.data[0] == EchoTag || ev.data[0] == GatewayTag)
    ensures HandleEvent(ev, pending, interSymbolMs) == Effect([], 0, Ignored)
  {
  }

  /** Up to the point where data_len wraps a uint16_t, a message is small
      enough exactly when it has at most 254 bytes; a longer one never gets to
      the line: with 255 or 256 bytes the debug dump of the request never
      ends, with more the request CRC never does */
  lemma RequestSizeLimit(ev: MqttEvent, pending: seq<Rx>, interSymbolMs: nat)
    requires 1 <= |ev.data| <= 0xFFFE && ev.data[0] != EchoTag && ev.data[0] != GatewayTag
    ensures Actionable(ev) <==> |ev.data| <= 254
    ensures 255 <= |ev.data| <= 256 ==>
      HandleEvent(ev, pending, interSymbolMs) == Effect([], 0, Fails(RequestDumpNeverEnds))
    ensures 257 <= |ev.data| ==>
      HandleEvent(ev, pending, interSymbolMs) == Effect([], 0, Fails(RequestCrcNeverEnds))
  {
  }

  /** The only thing written to the line is the message without its tag,
      followed by its CRC low byte first: a frame whose CRC is zero. Unless
      data_len wraps a uint16_t, that is the whole message and the frame is
      one byte longer than it; otherwise the uint16_t lengths cut it short. */
  lemma RequestOnTheWire(ev: MqttEvent, pending: seq<Rx>, interSymbolMs: nat)
    requires Actionable(ev)
    ensures var e := HandleEvent(ev, pending, interSymbolMs);
      var m := ev.data[1..CrcLength(|ev.data|) + 1];
      var frame := m + [LowByte(Crc16(m)), HighByte(Crc16(m))];
      && |e.traffic| >= 4
      && e.traffic[..4] == [Flush, Write(frame), Delay(SendDelayTicks), FlushInput]
      && Crc16(frame) == 0
      && (|ev.data| <= 0xFFFE ==> m == ev.data[1..] && |frame| == |ev.data| + 1)
      && forall i :: 0 <= i < |e.traffic| && i != 1 ==> !e.traffic[i].Write?
  {
    TransactionEffect(ev, pending, interSymbolMs);
    var e := HandleEvent(ev, pending, interSymbolMs);
    var m := ev.data[1..CrcLength(|ev.data|) + 1];
    var log := ReadLog(pending, ReadsMade(pending, ResponseCapacity), ResponseTimeoutMs, interSymbolMs);
    assert e.traffic == SendTrace(RequestFrame(m)) + log;
    if |ev.data| <= 0xFFFE {
      assert CrcLength(|ev.data|) + 1 == |ev.data|;
    }
    forall i | 4 <= i < |e.traffic|
      ensures e.traffic[i].Read?
    {
      assert e.traffic[i] == log[i - 4];
    }
  }

  /** A message that is only a tag is not dropped: the CRC of nothing is
      0xFFFF, so the frame FF FF goes out */
  lemma TagOnlyMessage(ev: MqttEvent, pending: seq<Rx>, interSymbolMs: nat)
    requires |ev.data| == 1 && ev.data[0] != EchoTag && ev.data[0] != GatewayTag
    ensures Actionable(ev)
    ensures var e := HandleEvent(ev, pending, interSymbolMs);
      |e.traffic| >= 2 && e.traffic[1] == Write([0xFF, 0xFF])
  {
    RequestOnTheWire(ev, pending, interSymbolMs);
    CrcOfEmpty();
    assert ev.data[1..CrcLength(|ev.data|) + 1] == [];
  }

  /** One attempt only: after the request, the framer's reads and nothing
      else, the first waiting 500 ms and the others the inter-symbol timeout */
  lemma SingleAttempt(ev: MqttEvent, pending: seq<Rx>, interSymbolMs: nat)
    requires Actionable(ev)
    ensures var e := HandleEvent(ev, pending, interSymbolMs);
      && e.consumed == ReadsMade(pending, ResponseCapacity)
      && 1 <= e.consumed <= ResponseCapacity as int
      && e.traffic[4..] == ReadLog(pending, e.consumed, ResponseTimeoutMs, interSymbolMs)
  {
  }

  /** A slave that does not answer gets "Null" published in its place */
  lemma SilentSlave(ev: MqttEvent, pending: seq<Rx>, interSymbolMs: nat)
    requires Actionable(ev) && RxAt(pending, 0) == Timeout
    ensures var e := HandleEvent(ev, pending, interSymbolMs);
      e.outcome == Published(ev.topic, [GatewayTag, 0x4E, 0x75, 0x6C, 0x6C])
      && e.consumed == 1
  {
    assert Framed(pending, ResponseCapacity) == [];
  }

  /** A reply of 2 to 255 bytes is published tagged and without its last two
      bytes, whatever its CRC; a one-byte reply and a reply over 255 bytes are
      defects */
  lemma ReplyPublished(ev: MqttEvent, pending: seq<Rx>, interSymbolMs: nat)
    requires Actionable(ev)
    ensures var e := HandleEvent(ev, pending, interSymbolMs);
      var reply := Framed(pending, ResponseCapacity);
      && (2 <= |reply| <= 255 ==> e.outcome == Published(ev.topic, [GatewayTag] + reply[..|reply| - 2]))
      && (|reply| == 1 ==> e.outcome == Fails(ReplyCopyWraps))
      && (|reply| > 255 ==> e.outcome == Fails(ReplyCrcNeverEnds))
  {
  }

  /** The CRC of the reply is computed but only decides whether to leave a
      loop that runs once anyway: a frame with one byte corrupted fails the
      check and is still published, stripped and tagged */
  lemma CorruptReplyPublished(ev: MqttEvent, frame: seq<byte>, i: nat, e: byte, rest: seq<Rx>, interSymbolMs: nat)
    requires Actionable(ev)
    requires 2 <= |frame| <= 255 && Crc16(frame) == 0
    requires i < |frame| && e != 0
    ensures var bad := frame[i := frame[i] ^ e];
      var script := seq(|bad|, k requires 0 <= k < |bad| => Byte(bad[k])) + [Timeout] + rest;
      Crc16(bad) != 0
      && HandleEvent(ev, script, interSymbolMs).outcome == Published(ev.topic, [GatewayTag] + bad[..|bad| - 2])
  {
    var bad := frame[i := frame[i] ^ e];
    CorruptedByteDetected(frame, i, e);
    FramedScript(bad, rest, ResponseCapacity as nat);
  }

  /** A slave that answers with a well-formed frame around m and then falls
      silent has m published, tagged */
  lemma ValidReplyRoundTrip(ev: MqttEvent, m: seq<byte>, rest: seq<Rx>, interSymbolMs: nat)
    requires Actionable(ev) && |m| <= 253
    ensures var frame := RequestFrame(m);
      var script := seq(|frame|, i requires 0 <= i < |frame| => Byte(frame[i])) + [Timeout] + rest;
      HandleEvent(ev, script, interSymbolMs).outcome == Published(ev.topic, [GatewayTag] + m)
  {
    var frame := RequestFrame(m);
    FramedScript(frame, rest, ResponseCapacity as nat);
    EnvelopeOfFrame(m);
  }

  /** Whatever is published goes to the topic the message came on, carries
      the gateway tag, and is ignored when it comes back from the broker */
  lemma OwnOutputIgnored(ev: MqttEvent, pending: seq<Rx>, interSymbolMs: nat, later: seq<Rx>)
    requires HandleEvent(ev, pending, interSymbolMs).outcome.Published?
    ensures var out := HandleEvent(ev, pending, interSymbolMs).outcome;
      && out.topic == ev.topic
      && |out.payload| >= 1 && out.payload[0] == GatewayTag
      && HandleEvent(MqttEvent(out.topic, out.payload), later, interSymbolMs) == Effect([], 0, Ignored)
  {
  }

  /** The request part of gatewayHandler: the message without its tag is
      copied into a buffer one byte longer than the message, and the CRC of
      its first payloadLen - 2 bytes is written after them. When that CRC
      length is above 255, modbus_evaluateCRC never returns: `crcLoops` says
      so and the buffer holds only the copy. */
  method BuildRequest(data: seq<byte>) returns (payload: array<byte>, payloadLen: u16, crcLoops: bool)
    requires |data| >= 1
    ensures fresh(payload) && payloadLen == PayloadLength(|data|)
    ensures crcLoops <==> CrcLength(|data|) > 255
    ensures !crcLoops ==> (payloadLen <= payload.Length
      && payload[..payloadLen] == RequestFrame(data[1..CrcLength(|data|) + 1]))
  {
    var dataLen := |data|;
    payload := new byte[dataLen + 1];
    payloadLen := (dataLen + 1) % 0x1_0000;
    forall i | 0 <= i < dataLen - 1 {
      payload[i] := data[i + 1];
    }
    var crcLen: u16 := (payloadLen - 2) % 0x1_0000;
    assert crcLen == CrcLength(dataLen);
    crcLoops := crcLen > 255;
    if crcLoops {
      return;
    }
    ghost var m := data[1..crcLen + 1];
    assert payload[..crcLen] == m;
    var crc := EvaluateCrc(payload, crcLen);
    payload[payloadLen - 2] := LowByte(crc);
    payload[payloadLen - 1] := HighByte(crc);
    assert payload[..crcLen] == m;
    assert payload[..payloadLen] == payload[..crcLen] + [LowByte(crc), HighByte(crc)];
  }

  /** The tagging part of gatewayHandler: the gateway tag, then the response
      without its last two bytes */
  method TagResponse(response: array<byte>, responseLen: u16) returns (taggedResponse: array<byte>)
    requires 2 <= responseLen <= response.Length && responseLen <= 265
    ensures fresh(taggedResponse)
    ensures responseLen - 1 <= taggedResponse.Length
    ensures taggedResponse[..responseLen - 1] == [GatewayTag] + response[..responseLen - 2]
  {
    taggedResponse := new byte[266];
    taggedResponse[0] := GatewayTag;
    forall i | 0 <= i < responseLen - 2 {
      taggedResponse[i + 1] := response[i];
    }
  }

  /** The transaction loop of gatewayHandler: a single attempt that sends the
      request, reads the response, and checks its CRC only to leave the loop.
      When the response is longer than 255 bytes, modbus_evaluateCRC never
      returns: `crcLoops` says so. */
  method Exchange(link: SerialLink, payload: array<byte>, payloadLen: u16)
    returns (response: array<byte>, responseLen: u16, crcLoops: bool)
    requires payloadLen <= payload.Length
    modifies link
    ensures fresh(response) && response.Length == ResponseCapacity as int
    ensures var reply := Framed(old(link.pending), ResponseCapacity);
      var count := ReadsMade(old(link.pending), ResponseCapacity);
      && (crcLoops <==> |reply| > 255)
      && responseLen == |reply|
      && response[..responseLen] == reply
      && link.pending == Drop(old(link.pending), count)
      && link.events == old(link.events) + SendTrace(payload[..payloadLen])
           + ReadLog(old(link.pending), count, ResponseTimeoutMs, link.interSymbolTimeoutMs)
  {
    response := new byte[ResponseCapacity];
    responseLen := 0;
    crcLoops := false;
    ghost var script, log := link.pending, link.events;
    ghost var reply := Framed(script, ResponseCapacity);
    ghost var count := ReadsMade(script, ResponseCapacity);
    ghost var traffic := SendTrace(payload[..payloadLen])
      + ReadLog(script, count, ResponseTimeoutMs, link.interSymbolTimeoutMs);
    var attempts := 0;
    while attempts < 1
      invariant 0 <= attempts <= 1
      invariant attempts == 0 ==> link.pending == script && link.events == log
      invariant attempts == 1 ==>
        link.pending == Drop(script, count) && link.events == log + traffic
        && responseLen == |reply| <= 255 && response[..responseLen] == reply
    {
      SendRequestPacket(link, payload, payloadLen);
      responseLen := ReadResponsePacket(link, response, ResponseCapacity, ResponseTimeoutMs);
      if responseLen > 0 {
        if responseLen > 255 {
          crcLoops := true;
          return;
        }
        var check := EvaluateCrc(response, responseLen);
        if check == 0 {
          break;
        }
      }
      attempts := attempts + 1;
    }
  }

  /** The publishing part of gatewayHandler: no reply becomes "Null" with a
      length of 6, and the reply goes out tagged and without its last two
      bytes; a one-byte reply makes the copy length wrap around. */
  method PublishReply(topic: seq<byte>, response: array<byte>, responseLen: u16) returns (out: Outcome)
    requires response.Length == ResponseCapacity as int && responseLen <= 255
    modifies response
    ensures var reply := old(response[..responseLen]);
      out == if |reply| == 1 then Fails(ReplyCopyWraps) else Published(topic, Envelope(reply))
    ensures responseLen >= 1 ==> response[..] == old(response[..])
    ensures responseLen == 0 ==> response[..4] == Sentinel && response[4..] == old(response[4..])
  {
    ghost var reply := response[..responseLen];
    var len := responseLen;
    if len < 1 {
      forall i | 0 <= i < 4 {
        response[i] := Sentinel[i];
      }
      len := 6;
    }
    if len == 1 {
      return Fails(ReplyCopyWraps);
    }
    var taggedResponse := TagResponse(response, len);
    out := Published(topic, taggedResponse[..len - 1]);
    assert response[..len - 2] == if reply == [] then Sentinel else reply[..|reply| - 2];
  }

  /** What gatewayHandler amounts to once the request has been built */
  lemma TransactionEffect(ev: MqttEvent, pending: seq<Rx>, interSymbolMs: nat)
    requires |ev.data| >= 1 && ev.data[0] != GatewayTag
    requires CrcLength(|ev.data|) <= 255 && PayloadLength(|ev.data|) <= 255
    ensures var reply := Framed(pending, ResponseCapacity);
      var count := ReadsMade(pending, ResponseCapacity);
      HandleMessage(ev, pending, interSymbolMs) == Effect(
        SendTrace(RequestFrame(ev.data[1..CrcLength(|ev.data|) + 1]))
          + ReadLog(pending, count, ResponseTimeoutMs, interSymbolMs),
        count,
        if |reply| > 255 then Fails(ReplyCrcNeverEnds)
        else if |reply| == 1 then Fails(ReplyCopyWraps)
        else Published(ev.topic, Envelope(reply)))
  {
  }

  /** The global state of main.c and the serial line the handlers drive */
  class Gateway {
    /** The global mqttEventData: the last event delivered */
    var mqttEventData: Option<MqttEvent>
    const link: SerialLink

    constructor (link: SerialLink)
      ensures this.link == link && mqttEventData == None
    {
      this.link := link;
      mqttEventData := None;
    }

    /** mqtt_dataEventHandler */
    method DataEventHandler(ev: MqttEvent) returns (out: Outcome)
      modifies this, link
      ensures mqttEventData == Some(ev)
      ensures var e := HandleEvent(ev, old(link.pending), link.interSymbolTimeoutMs);
        out == e.outcome
        && link.events == old(link.events) + e.traffic
        && link.pending == Drop(old(link.pending), e.consumed)
    {
      mqttEventData := Some(ev);
      if |mqttEventData.value.data| == 0 {
        return Fails(TagReadPastEnd);
      }
      if mqttEventData.value.data[0] == EchoTag {
        return Ignored;
      }
      out := GatewayHandler(ev);
    }

    /** gatewayHandler */
    method GatewayHandler(ev: MqttEvent) returns (out: Outcome)
      requires |ev.data| >= 1
      modifies link
      ensures var e := HandleMessage(ev, old(link.pending), link.interSymbolTimeoutMs);
        out == e.outcome
        && link.events == old(link.events) + e.traffic
        && link.pending == Drop(old(link.pending), e.consumed)
    {
      if ev.data[0] == GatewayTag {
        return Ignored;
      }

      ghost var script := link.pending;

      var payload, payloadLen, crcLoops := BuildRequest(ev.data);
      if crcLoops {
        return Fails(RequestCrcNeverEnds);
      }
      if payloadLen > 255 {
        return Fails(RequestDumpNeverEnds);
      }
      TransactionEffect(ev, script, link.interSymbolTimeoutMs);

      var response, responseLen, crcLoopsOnReply := Exchange(link, payload, payloadLen);
      if crcLoopsOnReply {
        return Fails(ReplyCrcNeverEnds);
      }

      out := PublishReply(ev.topic, response, responseLen);
    }
  }
}
