/**
 * Model of the Modbus RTU codec and framer of the ESP32 gateway
 * (gateway-esp32-firmware/src/modbusserial.c): the CRC-16 of the
 * MODBUS over Serial Line Specification V1.02 (section 2.5.1.2), the byte
 * splitters, the t1.5 inter-symbol timeout (section 2.5.1.1), the request
 * sender and the response framer.
 *
 * The UART driver is an external collaborator. It is modelled by the class
 * SerialLink: a log of what was done on the line and a script of what the
 * coming one-byte reads will return (a byte, or a timeout).
 */
module ModbusSerial {

  /** uint8_t and uint16_t of the firmware. The CRC code works on them with
      masks, shifts and exclusive-or, so they are bit-vectors here. */
  type byte = bv8
  type word = bv16

  /** A uint16_t used as a length, a count or a number of milliseconds */
  type u16 = x: int | 0 <= x < 0x1_0000

  // ------------------------------------------------------------------
  // CRC-16

  const Polynomial: word := 0xA001
  const CrcInit: word := 0xFFFF

  /** One round of the inner loop: shift right, and fold in the polynomial
      when the bit shifted out was set */
  function Shift(crc: word): word {
    if crc & 0x01 == 1 then (crc >> 1) ^ Polynomial else crc >> 1
  }

  /** k rounds of Shift */
  function Rounds(k: nat, crc: word): word {
    if k == 0 then crc else Shift(Rounds(k - 1, crc))
  }

  /** One pass of the outer loop: exclusive-or the byte in, then eight rounds */
  function Update(crc: word, b: byte): word {
    Rounds(8, crc ^ b as word)
  }

  /** The register after feeding `data` front to back into `crc` */
  function CrcFrom(crc: word, data: seq<byte>): word
    decreases |data|
  {
    if data == [] then crc else CrcFrom(Update(crc, data[0]), data[1..])
  }

  /** The CRC-16 of a buffer, starting from 0xFFFF */
  function Crc16(data: seq<byte>): word {
    CrcFrom(CrcInit, data)
  }

  lemma CrcOfEmpty()
    ensures Crc16([]) == 0xFFFF
  {
  }

  /** Feeding a concatenation is feeding one part after the other */
  lemma {:induction false} CrcFromAppend(crc: word, a: seq<byte>, b: seq<byte>)
    ensures CrcFrom(crc, a + b) == CrcFrom(CrcFrom(crc, a), b)
    decreases |a|
  {
    if a == [] {
      assert a + b == b;
    } else {
      assert (a + b)[0] == a[0];
      assert (a + b)[1..] == a[1..] + b;
      CrcFromAppend(Update(crc, a[0]), a[1..], b);
    }
  }

  /** The CRC is a left fold: one more byte is one more Update */
  lemma {:induction false} CrcSnoc(crc: word, data: seq<byte>, b: byte)
    ensures CrcFrom(crc, data + [b]) == Update(CrcFrom(crc, data), b)
  {
    CrcFromAppend(crc, data, [b]);
    assert CrcFrom(CrcFrom(crc, data), [b]) == CrcFrom(Update(CrcFrom(crc, data), b), []);
  }

  lemma EightRounds(x: word)
    ensures Rounds(8, x) == Shift(Shift(Shift(Shift(Shift(Shift(Shift(Shift(x))))))))
  {
    assert Rounds(1, x) == Shift(x);
    assert Rounds(2, x) == Shift(Rounds(1, x));
    assert Rounds(3, x) == Shift(Rounds(2, x));
    assert Rounds(4, x) == Shift(Rounds(3, x));
    assert Rounds(5, x) == Shift(Rounds(4, x));
    assert Rounds(6, x) == Shift(Rounds(5, x));
    assert Rounds(7, x) == Shift(Rounds(6, x));
  }

  /** Shift is one-to-one: the top bit of its result tells whether the
      polynomial was folded in, and so what the bit shifted out was */
  lemma ShiftInjective(x: word, y: word)
    requires x != y
    ensures Shift(x) != Shift(y)
  {
    if x & 0x01 == y & 0x01 {
      // the shifted-out bits agree, so the shifted registers differ
      assert x >> 1 != y >> 1;
    } else {
      // exactly one of the two takes the polynomial, which sets the top bit
      assert Shift(x) & 0x8000 != Shift(y) & 0x8000;
    }
  }

  /** Any number of rounds is one-to-one, so no two registers collide */
  lemma {:induction false} RoundsInjective(k: nat, x: word, y: word)
    requires x != y
    ensures Rounds(k, x) != Rounds(k, y)
  {
    if k > 0 {
      RoundsInjective(k - 1, x, y);
      ShiftInjective(Rounds(k - 1, x), Rounds(k - 1, y));
    }
  }

  // ------------------------------------------------------------------
  // Byte splitters

  /** lowByte: the word modulo 256 */
  function LowByte(w: word): (r: byte)
    ensures r as word == w % 256
  {
    (w & 0x00FF) as byte
  }

  /** highByte: the word divided by 256 */
  function HighByte(w: word): (r: byte)
    ensures r as word == w / 256
  {
    ((w >> 8) & 0x00FF) as byte
  }

  /** The word whose low byte is `lo` and whose high byte is `hi` */
  function Join(lo: byte, hi: byte): word {
    ((hi as word) << 8) | (lo as word)
  }

  /** The two halves put back together give the word, both as bits and as
      numbers: high * 256 + low, where both halves are below 256 so the
      16-bit sum does not wrap */
  lemma SplitJoin(w: word)
    ensures Join(LowByte(w), HighByte(w)) == w
    ensures HighByte(w) as word <= 0xFF && LowByte(w) as word <= 0xFF
    ensures (HighByte(w) as word) * 256 + LowByte(w) as word == w
  {
  }

  /** The splitters recover the bytes a word was made of */
  lemma JoinSplit(lo: byte, hi: byte)
    ensures LowByte(Join(lo, hi)) == lo && HighByte(Join(lo, hi)) == hi
  {
  }

  /** Feeding the low byte of the register clears it down to its high byte */
  lemma UpdateWithOwnLowByte(c: word)
    ensures Update(c, LowByte(c)) == HighByte(c) as word
  {
    EightRounds(c ^ LowByte(c) as word);
  }

  /** The residue property that the receiver's check relies on: a buffer
      followed by its CRC, low byte first, has CRC zero */
  lemma {:induction false} CrcResidue(data: seq<byte>)
    ensures Crc16(data + [LowByte(Crc16(data)), HighByte(Crc16(data))]) == 0
  {
    var c := Crc16(data);
    assert data + [LowByte(c), HighByte(c)] == (data + [LowByte(c)]) + [HighByte(c)];
    CrcSnoc(CrcInit, data + [LowByte(c)], HighByte(c));
    CrcSnoc(CrcInit, data, LowByte(c));
    UpdateWithOwnLowByte(c);
    EightRounds(0);
  }

  /** A worked example: the request "read one holding register at address 0
      of slave 1" carries the CRC 0x0A84, sent as 0x84 then 0x0A */
  lemma ReadHoldingRegisterExample()
    ensures Crc16([0x01, 0x03, 0x00, 0x00, 0x00, 0x01]) == 0x0A84
    ensures Crc16([0x01, 0x03, 0x00, 0x00, 0x00, 0x01, 0x84, 0x0A]) == 0
  {
    EightRounds(0xFFFF ^ 0x01);
    EightRounds(0x807E ^ 0x03);
    EightRounds(0x2140 ^ 0x00);
    EightRounds(0xF020 ^ 0x00);
    EightRounds(0xD8F1 ^ 0x00);
    EightRounds(0x8419 ^ 0x01);
    var data: seq<byte> := [0x01, 0x03, 0x00, 0x00, 0x00, 0x01];
    assert CrcFrom(0x8419, data[5..]) == CrcFrom(0x0A84, []);
    assert CrcFrom(0xD8F1, data[4..]) == CrcFrom(0x8419, data[5..]);
    assert CrcFrom(0xF020, data[3..]) == CrcFrom(0xD8F1, data[4..]);
    assert CrcFrom(0x2140, data[2..]) == CrcFrom(0xF020, data[3..]);
    assert CrcFrom(0x807E, data[1..]) == CrcFrom(0x2140, data[2..]);
    CrcResidue(data);
    assert data + [LowByte(0x0A84), HighByte(0x0A84)] == [0x01, 0x03, 0x00, 0x00, 0x00, 0x01, 0x84, 0x0A];
  }

  /** Registers that differ stay different whatever is fed after them */
  lemma {:induction false} CrcFromSeparates(c1: word, c2: word, data: seq<byte>)
    requires c1 != c2
    ensures CrcFrom(c1, data) != CrcFrom(c2, data)
    decreases |data|
  {
    if data != [] {
      RoundsInjective(8, c1 ^ data[0] as word, c2 ^ data[0] as word);
      CrcFromSeparates(Update(c1, data[0]), Update(c2, data[0]), data[1..]);
    }
  }

  /** From one register, different bytes lead to different registers */
  lemma UpdateInjective(c: word, b1: byte, b2: byte)
    requires b1 != b2
    ensures Update(c, b1) != Update(c, b2)
  {
    RoundsInjective(8, c ^ b1 as word, c ^ b2 as word);
  }

  /** The CRC of a buffer split around one byte */
  lemma CrcAround(pre: seq<byte>, b: byte, post: seq<byte>)
    ensures Crc16(pre + [b] + post) == CrcFrom(Update(Crc16(pre), b), post)
  {
    CrcSnoc(CrcInit, pre, b);
    CrcFromAppend(CrcInit, pre + [b], post);
  }

  /** Changing one byte of a buffer changes its CRC */
  lemma ChangedByteChangesCrc(pre: seq<byte>, b1: byte, b2: byte, post: seq<byte>)
    requires b1 != b2
    ensures Crc16(pre + [b1] + post) != Crc16(pre + [b2] + post)
  {
    UpdateInjective(Crc16(pre), b1, b2);
    CrcFromSeparates(Update(Crc16(pre), b1), Update(Crc16(pre), b2), post);
    CrcAround(pre, b1, post);
    CrcAround(pre, b2, post);
  }

  /** A frame that passes the check fails it once any one of its bytes is changed */
  lemma CorruptedByteDetected(frame: seq<byte>, i: nat, e: byte)
    requires Crc16(frame) == 0
    requires i < |frame| && e != 0
    ensures Crc16(frame[i := frame[i] ^ e]) != 0
  {
    assert frame == frame[..i] + [frame[i]] + frame[i + 1..];
    assert frame[i := frame[i] ^ e] == frame[..i] + [frame[i] ^ e] + frame[i + 1..];
    ChangedByteChangesCrc(frame[..i], frame[i], frame[i] ^ e, frame[i + 1..]);
  }

  /** The value of an 8-bit loop counter (`uint8_t byte` at modbusserial.c:60)
      after k increments from 0 */
  function CounterAfter(k: nat): bv8 {
    if k == 0 then 0 else CounterAfter(k - 1) + 1
  }

  /** The 8-bit counter wraps: after k increments it holds k mod 256 */
  lemma {:induction false} CounterWraps(k: nat)
    ensures CounterAfter(k) as int == k % 256
  {
    if k > 0 {
      CounterWraps(k - 1);
      IncrementWraps(CounterAfter(k - 1));
    }
  }

  /** One increment of an 8-bit counter, in integers */
  lemma IncrementWraps(c: bv8)
    ensures (c + 1) as int == (c as int + 1) % 256
  {
    if c == 255 {
      assert c + 1 == 0;
    } else {
      assert (c + 1) as int == c as int + 1;
    }
  }

  /** Against a bound above 255, a loop `for (uint8_t n = 0; n < bound; n++)`
      finds its guard true after every number of iterations, since an 8-bit
      counter is always below 256: it never ends. Every 256 iterations the
      counter comes back to the same value, so the loop walks over the same
      first 256 entries again and again. */
  lemma EightBitLoopNeverEnds(bound: int, k: nat)
    requires bound > 255
    ensures CounterAfter(k) as int < bound
    ensures CounterAfter(k + 256) == CounterAfter(k)
  {
    CounterWraps(k);
    CounterWraps(k + 256);
  }

  /** modbus_evaluateCRC. Its loop counters are uint8_t. Under the length
      bound below the outer one never passes 255 and the inner one never
      passes 8, so neither wraps and they are plain integers here; above 255
      the outer loop would never end (EightBitLoopNeverEnds). */
  method EvaluateCrc(data: array<byte>, length: u16) returns (crc: word)
    requires length <= data.Length
    requires length <= 255
    ensures crc == Crc16(data[..length])
  {
    crc := CrcInit;
    var index := 0;
    while index < length
      invariant index <= length
      invariant crc == Crc16(data[..index])
    {
      ghost var start := crc ^ data[index] as word;
      crc := crc ^ data[index] as word;
      var i := 0;
      while i < 8
        invariant i <= 8
        invariant crc == Rounds(i, start)
      {
        if crc & 0x01 == 1 {
          crc := (crc >> 1) ^ Polynomial;
        } else {
          crc := crc >> 1;
        }
        i := i + 1;
      }
      assert data[..index + 1] == data[..index] + [data[index]];
      CrcSnoc(CrcInit, data[..index], data[index]);
      index := index + 1;
    }
    assert data[..index] == data[..length];
  }

  // ------------------------------------------------------------------
  // Inter-symbol timeout

  datatype Parity = Disable | Even | Odd

  /** The fields of uart_config_t that matter to the timeout */
  datatype UartConfig = UartConfig(baudRate: int, dataBits: nat, parity: Parity, stopBits: nat)

  /** Bits per character as the firmware counts them: 8 data bits, a parity
      bit when parity is enabled, and 1 stop bit, whatever the configuration's
      own data-bit and stop-bit settings say */
  function CharacterBits(parity: Parity): nat {
    8 + (if parity != Disable then 1 else 0) + 1
  }

  /** modbus_calculateIntersymbolTimeout: 1.5 character times in milliseconds,
      truncated, and raised to 1 when the truncation gives 0 */
  function IntersymbolTimeout(config: UartConfig): (ms: u16)
    requires config.baudRate > 0
    ensures ms >= 1
    ensures 1500 * CharacterBits(config.parity) < config.baudRate ==> ms == 1
    ensures config.baudRate <= 1500 * CharacterBits(config.parity) ==>
      ms * config.baudRate <= 1500 * CharacterBits(config.parity) < (ms + 1) * config.baudRate
  {
    var timeout := 1500 * CharacterBits(config.parity) / config.baudRate;
    if timeout == 0 then 1 else timeout
  }

  lemma MulMono(x: int, a: int, b: int)
    requires x >= 0 && a <= b
    ensures x * a <= x * b
  {
  }

  lemma MulLtCancel(x: int, y: int, b: int)
    requires b > 0 && x * b < y * b
    ensures x < y
  {
  }

  lemma DivLeForLargerDivisor(w: nat, a: int, b: int)
    requires 0 < a <= b
    ensures w / b <= w / a
  {
    var qa, qb := w / a, w / b;
    assert qb * b <= w < (qa + 1) * a;
    MulMono(qa + 1, a, b);
    MulLtCancel(qb, qa + 1, b);
  }

  lemma DivLeForLargerNumerator(w1: nat, w2: nat, b: int)
    requires 0 < b && w1 <= w2
    ensures w1 / b <= w2 / b
  {
    var q1, q2 := w1 / b, w2 / b;
    assert q1 * b <= w1 <= w2 < (q2 + 1) * b;
    MulLtCancel(q1, q2 + 1, b);
  }

  /** A faster line never gets a longer timeout */
  lemma TimeoutNonIncreasing(slow: UartConfig, fast: UartConfig)
    requires 0 < slow.baudRate <= fast.baudRate
    requires slow.parity == fast.parity
    ensures IntersymbolTimeout(fast) <= IntersymbolTimeout(slow)
  {
    DivLeForLargerDivisor(1500 * CharacterBits(slow.parity), slow.baudRate, fast.baudRate);
  }

  /** A wider character never gets a shorter timeout */
  lemma TimeoutGrowsWithParity(config: UartConfig, parity: Parity)
    requires config.baudRate > 0
    requires parity != Disable
    ensures IntersymbolTimeout(config.(parity := Disable)) <= IntersymbolTimeout(config.(parity := parity))
  {
    DivLeForLargerNumerator(1500 * CharacterBits(Disable), 1500 * CharacterBits(parity), config.baudRate);
  }

  /** Only the baud rate and the parity are read */
  lemma TimeoutIgnoresDataAndStopBits(config: UartConfig, dataBits: nat, stopBits: nat)
    requires config.baudRate > 0
    ensures IntersymbolTimeout(config) == IntersymbolTimeout(config.(dataBits := dataBits, stopBits := stopBits))
  {
  }

  /** The firmware's own line: 115200 baud, 8 data bits, no parity, 1 stop bit */
  lemma DefaultLineTimeout()
    ensures IntersymbolTimeout(UartConfig(115200, 8, Disable, 1)) == 1
  {
  }

  /** The timeout truncates: at 9600 baud without parity 1.5 characters last
      13500/9600 ms, yet the timeout is 1 ms, below that */
  lemma TimeoutTruncates()
    ensures IntersymbolTimeout(UartConfig(9600, 8, Disable, 1)) == 1
    ensures 1 * 9600 < 1500 * CharacterBits(Disable)
  {
  }

  // ------------------------------------------------------------------
  // The serial line

  /** What one one-byte read returns */
  datatype Rx = Byte(value: byte) | Timeout

  /** What the firmware does on the line, in order */
  datatype LinkEvent =
    | Flush
    | Write(bytes: seq<byte>)
    | Delay(ticks: nat)
    | FlushInput
    | Read(timeoutMs: nat, got: Rx)

  /** The i-th coming read; once the script is used up the line stays silent */
  function RxAt(pending: seq<Rx>, i: int): Rx {
    if 0 <= i < |pending| then pending[i] else Timeout
  }

  /** The script left after k reads */
  function Drop(pending: seq<Rx>, k: nat): seq<Rx> {
    if k <= |pending| then pending[k..] else []
  }

  /** The ticks modbus_sendRequestPacket waits after writing */
  const SendDelayTicks: nat := 5

  /** What modbus_sendRequestPacket does on the line */
  function SendTrace(frame: seq<byte>): seq<LinkEvent> {
    [Flush, Write(frame), Delay(SendDelayTicks), FlushInput]
  }

  /** The UART as the core sees it, with the global interSymbolTimeout_ms */
  class SerialLink {
    /** What the coming one-byte reads return, in order */
    var pending: seq<Rx>
    /** Everything done on the line so far */
    var events: seq<LinkEvent>
    /** interSymbolTimeout_ms, set once when the UART is initialised */
    const interSymbolTimeoutMs: u16

    /** uart_initialize, as far as the core is concerned: the timeout is
        computed from the configuration */
    constructor (config: UartConfig, script: seq<Rx>)
      requires config.baudRate > 0
      ensures pending == script && events == []
      ensures interSymbolTimeoutMs == IntersymbolTimeout(config)
    {
      pending := script;
      events := [];
      interSymbolTimeoutMs := IntersymbolTimeout(config);
    }

    /** uart_flush */
    method FlushAll()
      modifies this
      ensures events == old(events) + [Flush] && pending == old(pending)
    {
      events := events + [Flush];
    }

    /** uart_write_bytes */
    method WriteBytes(bytes: seq<byte>)
      modifies this
      ensures events == old(events) + [Write(bytes)] && pending == old(pending)
    {
      events := events + [Write(bytes)];
    }

    /** vTaskDelay */
    method DelayTicks(ticks: nat)
      modifies this
      ensures events == old(events) + [Delay(ticks)] && pending == old(pending)
    {
      events := events + [Delay(ticks)];
    }

    /** uart_flush_input */
    method FlushInputBuffer()
      modifies this
      ensures events == old(events) + [FlushInput] && pending == old(pending)
    {
      events := events + [FlushInput];
    }

    /** uart_read_bytes for one byte within `timeoutMs` */
    method ReadByte(timeoutMs: nat) returns (r: Rx)
      modifies this
      ensures r == RxAt(old(pending), 0)
      ensures pending == Drop(old(pending), 1)
      ensures events == old(events) + [Read(timeoutMs, r)]
    {
      r := RxAt(pending, 0);
      pending := Drop(pending, 1);
      events := events + [Read(timeoutMs, r)];
    }
  }

  /** modbus_sendRequestPacket */
  method SendRequestPacket(link: SerialLink, data: array<byte>, length: u16)
    requires length <= data.Length
    modifies link
    ensures link.events == old(link.events) + SendTrace(data[..length])
    ensures link.pending == old(link.pending)
  {
    link.FlushAll();
    link.WriteBytes(data[..length]);
    link.DelayTicks(SendDelayTicks);
    link.FlushInputBuffer();
  }

  // ------------------------------------------------------------------
  // The response framer

  /** The frame a script delivers into a buffer of `size` bytes: the bytes
      received in order, up to the first timeout or until the buffer is full */
  function Framed(pending: seq<Rx>, size: nat): (frame: seq<byte>)
    ensures |frame| <= size
    ensures forall i :: 0 <= i < |frame| ==> RxAt(pending, i) == Byte(frame[i])
    ensures |frame| < size ==> RxAt(pending, |frame|) == Timeout
    decreases size
  {
    if size == 0 then []
    else match RxAt(pending, 0)
      case Timeout => []
      case Byte(b) => [b] + Framed(Drop(pending, 1), size - 1)
  }

  /** The three properties of Framed determine it */
  lemma FramedUnique(pending: seq<Rx>, size: nat, frame: seq<byte>)
    requires |frame| <= size
    requires forall i :: 0 <= i < |frame| ==> RxAt(pending, i) == Byte(frame[i])
    requires |frame| < size ==> RxAt(pending, |frame|) == Timeout
    ensures frame == Framed(pending, size)
  {
    var g := Framed(pending, size);
    forall i | 0 <= i < |g|
      ensures frame[i] == g[i]
    {
      assert Byte(frame[i]) == Byte(g[i]);
    }
  }

  /** A slave that sends `reply` and then falls silent is framed as `reply` */
  lemma FramedScript(reply: seq<byte>, rest: seq<Rx>, size: nat)
    requires |reply| <= size
    ensures Framed(seq(|reply|, i requires 0 <= i < |reply| => Byte(reply[i])) + [Timeout] + rest, size) == reply
  {
    var script := seq(|reply|, i requires 0 <= i < |reply| => Byte(reply[i])) + [Timeout] + rest;
    assert RxAt(script, |reply|) == Timeout;
    FramedUnique(script, size, reply);
  }

  /** How many one-byte reads the framer makes: one per byte received, plus
      the read that timed out unless the buffer filled up first */
  function ReadsMade(pending: seq<Rx>, size: nat): nat {
    var n := |Framed(pending, size)|;
    if n < size then n + 1 else n
  }

  /** The reads the framer makes: the first with the caller's timeout, the
      rest with the inter-symbol timeout */
  function ReadLog(pending: seq<Rx>, count: nat, firstMs: nat, nextMs: nat): seq<LinkEvent> {
    seq(count, i => Read(if i == 0 then firstMs else nextMs, RxAt(pending, i)))
  }

  lemma ReadLogSnoc(pending: seq<Rx>, n: nat, firstMs: nat, nextMs: nat)
    requires n >= 1
    ensures ReadLog(pending, n + 1, firstMs, nextMs) == ReadLog(pending, n, firstMs, nextMs) + [Read(nextMs, RxAt(pending, n))]
  {
  }

  lemma DropStep(pending: seq<Rx>, n: nat)
    ensures RxAt(Drop(pending, n), 0) == RxAt(pending, n)
    ensures Drop(Drop(pending, n), 1) == Drop(pending, n + 1)
  {
  }

  /** modbus_readResponsePacket */
  method ReadResponsePacket(link: SerialLink, buffer: array<byte>, bufferSize: u16, timeOut: u16)
    returns (bytesRead: u16)
    requires 1 <= bufferSize <= buffer.Length
    modifies link, buffer
    ensures bytesRead <= bufferSize
    ensures buffer[..bytesRead] == Framed(old(link.pending), bufferSize)
    ensures buffer[bytesRead..] == old(buffer[bytesRead..])
    ensures link.pending == Drop(old(link.pending), ReadsMade(old(link.pending), bufferSize))
    ensures link.events == old(link.events)
      + ReadLog(old(link.pending), ReadsMade(old(link.pending), bufferSize), timeOut, link.interSymbolTimeoutMs)
  {
    ghost var script := link.pending;
    ghost var log := link.events;
    var interSymbol := link.interSymbolTimeoutMs;
    var first := link.ReadByte(timeOut);
    assert ReadLog(script, 1, timeOut, interSymbol) == [Read(timeOut, first)];
    if first == Timeout {
      FramedUnique(script, bufferSize, []);
      return 0;
    }
    buffer[0] := first.value;
    bytesRead := 1;
    while bytesRead < bufferSize
      invariant 1 <= bytesRead <= bufferSize
      invariant forall i :: 0 <= i < bytesRead ==> RxAt(script, i) == Byte(buffer[i])
      invariant buffer[bytesRead..] == old(buffer[bytesRead..])
      invariant link.pending == Drop(script, bytesRead)
      invariant link.events == log + ReadLog(script, bytesRead, timeOut, interSymbol)
    {
      DropStep(script, bytesRead);
      ReadLogSnoc(script, bytesRead, timeOut, interSymbol);
      var next := link.ReadByte(interSymbol);
      if next == Timeout {
        break;
      }
      buffer[bytesRead] := next.value;
      bytesRead := bytesRead + 1;
    }
    FramedUnique(script, bufferSize, buffer[..bytesRead]);
  }
}
