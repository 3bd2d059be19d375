/** The global variables main.c shares between `main`, its helpers and the
    symbol-timer interrupt (main.c:31-64), the build-time configuration
    they depend on, and the invariant that ties them together. */
module Globals {
  import opened CTypes
  import opened Crc16
  import opened Sentence

  /** `config.h`: the build-time constants the core reads. */
  datatype Config = Config(
    callsign: string,
    rttySpeed: nat,            // RTTY_SPEED, symbols per second
    txDelay: uint32,           // TX_DELAY, milliseconds between transmissions
    rttyDeviation: uint8,      // RTTY_DEVIATION, written to register 0x73
    allowDisableByButton: bool,
    preStartBits: int)         // RTTY_PRE_START_BITS

  /** The constant expression `TX_DELAY / (1000/RTTY_SPEED)` needs a divisor
      that is not zero, and the callsign must fit `char callsign[15]`. */
  predicate ValidConfig(c: Config) {
    0 < c.rttySpeed <= 1000 && ValidCallsign(c.callsign)
  }

  /** `1000/RTTY_SPEED`: the length of one symbol period in milliseconds. */
  function SymbolPeriod(c: Config): (k: nat)
    requires ValidConfig(c)
    ensures 1 <= k <= 1000
  {
    DivAtLeastOne(1000, c.rttySpeed);
    DivNoLarger(1000, c.rttySpeed);
    1000 / c.rttySpeed
  }

  /** The value `tx_on_delay` is reloaded with at the end of a packet: the
      pause in symbol periods. */
  function DelayReload(c: Config): (r: uint32)
    requires ValidConfig(c)
    ensures r <= c.txDelay
  {
    var k := SymbolPeriod(c);
    DivNoLarger(c.txDelay, k);
    c.txDelay / k
  }

  /** The reload is the number of whole symbol periods in TX_DELAY: the
      pause it counts down lasts at most TX_DELAY and falls short of it by
      less than one period. */
  lemma DelayReloadBracket(c: Config)
    requires ValidConfig(c)
    ensures DelayReload(c) * SymbolPeriod(c) <= c.txDelay < (DelayReload(c) + 1) * SymbolPeriod(c)
  {
    DivBracket(c.txDelay, SymbolPeriod(c));
  }

  /** `current_mode` */
  datatype Mode = Startup | Rtty | Fsk4 | Fsk2

  /** What `send_rtty` reports for the current symbol. */
  datatype RttyStatus = RttyZero | RttyOne | RttyEnd

  /** The two buffers `tx_buffer` can point into. */
  datatype BufId = RttyBuf | MfskBuf

  /** `tx_buffer`: a buffer and an offset into it. */
  datatype TxPtr = TxPtr(buf: BufId, offset: nat)

  /** GPIO lines the core drives. */
  datatype Pin = Red | Green | Cutoff

  /** Calls into the radio, GPIO and symbol-generator code, in order. */
  datatype Event =
    | RegWrite(addr: uint8, value: uint8)   // radio_rw_register(addr, value, 1)
    | PinSet(pin: Pin)                      // GPIO_SetBits
    | PinReset(pin: Pin)                    // GPIO_ResetBits
    | RadioEnableTx                         // radio_enable_tx()
    | RttyCall(offset: nat)                 // send_rtty(tx_buffer)
    | MfskCall(b: byte)                     // send_mfsk(tx_buffer[current_mfsk_byte])
    | TwoFskCall(b: byte)                   // send_2fsk(tx_buffer[current_mfsk_byte])

  const BufSize: nat := 200

  /** Radio register that selects the transmitted tone. */
  const ToneRegister: uint8 := 0x73

  /** The globals only `main` and the helpers it calls write. */
  datatype MainVars = MainVars(
    mode: Mode,
    sendCount: uint32,
    voltage: Voltage,
    temperature: int8,
    gps: GpsFix,
    flaga: bv8,
    ledEnabled: bool,
    crcRtty: bv16,
    bufRtty: seq<byte>,
    bufMfsk: seq<byte>,
    packetLength: uint16,
    startBits: int)

  /** The globals only the interrupt writes. */
  datatype IsrVars = IsrVars(
    adcBottom: int32,
    pun: bool,
    cun: uint32,
    txOnDelay: uint32,
    rttyStatus: RttyStatus,
    currentMfskByte: uint16,
    buttonPressed: uint16,
    disableArmed: bool)

  /** The globals of main.c, grouped by who writes them; `tx_on`,
      `tx_enable` and `tx_buffer` are written by both sides. */
  datatype Globals = Globals(
    m: MainVars,
    isr: IsrVars,
    txOn: bool,
    txEnable: bool,
    txBuffer: TxPtr,
    log: seq<Event>)

  const NoFix: GpsFix := GpsFix(0, 0, 0, 0, 0, 0, 0, 0, 0)

  /** The globals when `main` enters its `while (1)` loop: the static
      initialisers, then `tx_buffer = buf_rtty`, `tx_on = 0`,
      `tx_enable = 1` (main.c:259-261). `tx_on_delay`, `send_count`,
      `voltage`, the temperature and the GPS record start at zero. */
  function Boot(c: Config): (g: Globals)
    requires ValidConfig(c)
    ensures g.m.mode == Startup && !g.txOn && g.txEnable && g.txBuffer == TxPtr(RttyBuf, 0)
    ensures Inv(c, g)
  {
    Globals(
      MainVars(Startup, 0, 0, 0, NoFix, 0, true, 0x12ab,
        seq(BufSize, _ => 0), seq(BufSize, _ => 0), 0, 0),
      IsrVars(2000, false, 10, 0, RttyZero, 0, 0, false),
      false, true, TxPtr(RttyBuf, 0), [])
  }

  /** The telemetry the RTTY sentence is printed from. */
  function TelemetryOf(c: Config, g: Globals): Telemetry {
    Telemetry(c.callsign, g.m.sendCount, g.m.gps, g.m.voltage, g.m.temperature)
  }

  /** The bytes of the current RTTY sentence with its terminator. */
  function RttyImage(c: Config, g: Globals): seq<byte>
    requires ValidConfig(c)
  {
    var p := Packet(TelemetryOf(c, g));
    PacketBytes(TelemetryOf(c, g));
    Bytes(p) + [0]
  }

  /** The checksum of the body of the current sentence. */
  function BodyCrc(c: Config, g: Globals): bv16
    requires ValidConfig(c)
  {
    var t := TelemetryOf(c, g);
    BodyBytes(t);
    Checksum(Bytes(Body(t)))
  }

  /** The byte `tx_buffer` would read at index i of a buffer (0 past the end
      of the array, where the firmware never reads, as the invariant shows). */
  function ByteAt(s: seq<byte>, i: nat): byte {
    if i < |s| then s[i] else 0
  }

  function BufferOf(g: Globals, b: BufId): seq<byte> {
    if b == RttyBuf then g.m.bufRtty else g.m.bufMfsk
  }

  /** The relations between the globals that every step keeps. */
  predicate Inv(c: Config, g: Globals) {
    ValidConfig(c) && ShapeInv(g) && (g.txOn && g.m.mode == Rtty ==> SentenceInv(c, g))
  }

  /** Sizes, ranges and the flag discipline. */
  predicate ShapeInv(g: Globals) {
    |g.m.bufRtty| == BufSize && |g.m.bufMfsk| == BufSize &&
    1 <= g.isr.cun <= 200 &&
    g.m.mode != Fsk2 &&
    g.m.packetLength < BufSize &&
    g.isr.currentMfskByte <= g.m.packetLength &&
    g.txBuffer.offset < BufSize &&
    // a transmission runs only in the two transmitting modes, and
    // tx_enable stays set until it ends
    (g.txOn ==> g.txEnable && (g.m.mode == Rtty || g.m.mode == Fsk4)) &&
    (g.txOn && g.m.mode == Rtty ==> g.txBuffer.buf == RttyBuf) &&
    // during 4FSK the byte index walks buf_mfsk from its start
    (g.txOn && g.m.mode == Fsk4 ==> g.txBuffer == TxPtr(MfskBuf, 0)) &&
    (!(g.txOn && g.m.mode == Fsk4) ==> g.isr.currentMfskByte == 0)
  }

  /** During RTTY, buf_rtty holds the sentence of the current telemetry with
      its checksum, and the cursor is on one of its characters. */
  predicate SentenceInv(c: Config, g: Globals)
    requires ValidConfig(c)
  {
    var img := RttyImage(c, g);
    |img| <= |g.m.bufRtty| &&
    g.m.bufRtty[..|img|] == img &&
    g.txBuffer.offset < |img| - 1 &&
    g.m.crcRtty == BodyCrc(c, g)
  }

  /** The sentence invariant depends on the main state and the cursor only. */
  lemma SentenceInvTransfer(c: Config, g: Globals, h: Globals)
    requires ValidConfig(c) && h.m == g.m && h.txBuffer.offset <= g.txBuffer.offset
    requires SentenceInv(c, g)
    ensures SentenceInv(c, h)
  {
    assert TelemetryOf(c, h) == TelemetryOf(c, g);
  }
}
