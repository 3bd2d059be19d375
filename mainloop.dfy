/** One turn of `main`'s `while (1)` loop (main.c:272-294) and the helpers
    it calls: `collect_telemetry_data` (main.c:298-322), `send_rtty_packet`
    (main.c:325-361) and `send_mfsk_packet` (main.c:364-373), as one atomic
    step over the globals. */
module MainLoop {
  import opened CTypes
  import opened Crc16
  import opened Sentence
  import opened Globals

  /** What one turn of the loop reads from outside: the ADC's supply
      reading, the radio's temperature, the receiver's last report and the
      frame `mfsk_test_bits` writes into `buf_mfsk`. */
  datatype MainInput = MainInput(
    adc0: uint16,          // ADCVal[0]
    temperature: int8,     // radio_read_temperature()
    fix: GpsFix,           // ublox_get_last_data(&gpsData)
    frame: seq<byte>)      // the bytes mfsk_test_bits writes; its result is their number

  /** The 4FSK frame leaves room in `buf_mfsk` for the byte after it, which
      the interrupt also sends. */
  predicate ValidInput(inp: MainInput) {
    |inp.frame| < BufSize
  }

  // ---------------------------------------------------------------------
  // collect_telemetry_data

  /** `ADCVal[0] * 600 / 4096` */
  function VoltageOf(adc0: uint16): (v: Voltage)
    ensures v <= adc0
  {
    adc0 * 600 / 4096
  }

  /** The voltage is the reading scaled by 600/4096, rounded down. */
  lemma VoltageBracket(adc0: uint16)
    ensures VoltageOf(adc0) * 4096 <= adc0 * 600 < (VoltageOf(adc0) + 1) * 4096
  {
    var x := adc0 * 600;
    assert x == (x / 4096) * 4096 + x % 4096;
  }

  /** A fix of type 3 (3D) or better. */
  predicate HasFix(fix: GpsFix) {
    fix.fix >= 3
  }

  /** The receiver's report as `collect_telemetry_data` keeps it: without a
      fix the position is nulled out. */
  function KeptFix(fix: GpsFix): GpsFix {
    if HasFix(fix) then fix else fix.(latRaw := 0, lonRaw := 0)
  }

  /** `collect_telemetry_data`: count the frame, take the readings, and set
      the fix flag and the LED switch from the report. */
  function Collect(g: Globals, inp: MainInput): Globals {
    CheckFix(TakeReadings(g, inp))
  }

  /** The first half of collect_telemetry_data (main.c:300-303): the frame
      count and the three readings. */
  function TakeReadings(g: Globals, inp: MainInput): Globals {
    g.(m := g.m.(
      sendCount := (g.m.sendCount + 1) % UINT32_MOD,
      temperature := inp.temperature,
      voltage := VoltageOf(inp.adc0),
      gps := inp.fix))
  }

  /** The second half (main.c:305-321): the fix flag, the LED switch and
      the nulled position. */
  function CheckFix(g: Globals): Globals {
    var fix := g.m.gps;
    var fixed := HasFix(fix);
    g.(m := g.m.(
      gps := KeptFix(fix),
      flaga := if fixed then g.m.flaga | 0x80 else g.m.flaga & 0x7F,
      ledEnabled := if fixed then !(CDiv(fix.altRaw, 1000) > 1000) else true))
  }

  /** What collect_telemetry_data promises: the frame count goes up by one
      (modulo 2^32); bit 0x80 of the flags is set exactly when there is a
      fix and the other bits keep their values; with a fix the LEDs are off
      exactly above 1000 m and the report is kept whole, without one the
      LEDs are on and the position is zero. Nothing else changes. */
  lemma CollectSpec(g: Globals, inp: MainInput)
    ensures var h := Collect(g, inp);
      h.m.sendCount == (g.m.sendCount + 1) % UINT32_MOD &&
      h.m.temperature == inp.temperature && h.m.voltage == VoltageOf(inp.adc0) &&
      (h.m.flaga & 0x80 != 0 <==> inp.fix.fix >= 3) &&
      h.m.flaga & 0x7F == g.m.flaga & 0x7F &&
      (inp.fix.fix >= 3 ==> h.m.gps == inp.fix && (h.m.ledEnabled <==> CDiv(inp.fix.altRaw, 1000) <= 1000)) &&
      (inp.fix.fix < 3 ==> h.m.ledEnabled && h.m.gps.latRaw == 0 && h.m.gps.lonRaw == 0 &&
                           h.m.gps == inp.fix.(latRaw := 0, lonRaw := 0)) &&
      h.m.mode == g.m.mode && h.m.crcRtty == g.m.crcRtty && h.m.bufRtty == g.m.bufRtty &&
      h.m.bufMfsk == g.m.bufMfsk && h.m.packetLength == g.m.packetLength &&
      h.m.startBits == g.m.startBits &&
      h.isr == g.isr && h.txOn == g.txOn && h.txEnable == g.txEnable &&
      h.txBuffer == g.txBuffer && h.log == g.log
  {
    FlagBits(g.m.flaga);
  }

  /** Setting and clearing bit 0x80 of a byte. */
  lemma FlagBits(f: bv8)
    ensures (f | 0x80) & 0x80 != 0 && (f & 0x7F) & 0x80 == 0
    ensures (f | 0x80) & 0x7F == f & 0x7F && (f & 0x7F) & 0x7F == f & 0x7F
  {
  }

  /** The frame counter wraps after 2^32 frames. */
  lemma SendCountWraps(g: Globals, inp: MainInput)
    requires g.m.sendCount == UINT32_MOD - 1
    ensures Collect(g, inp).m.sendCount == 0
  {
  }

  // ---------------------------------------------------------------------
  // send_rtty_packet

  /** What `sprintf` leaves in a buffer: the string, its terminator, and the
      buffer's old contents behind them. */
  function Render(buf: seq<byte>, s: string): (r: seq<byte>)
    requires IsByteString(s) && |s| < |buf|
    ensures |r| == |buf| && r[..|s|] == Bytes(s) && r[|s|] == 0
    ensures r[|s| + 1..] == buf[|s| + 1..]
  {
    Bytes(s) + [0] + buf[|s| + 1..]
  }

  /** The first `sprintf` of send_rtty_packet: five `$` and the body, a
      string of non-NUL bytes. */
  function Head(t: Telemetry): (s: string)
    requires ValidTelemetry(t)
    ensures IsByteString(s) && Printable(s) && |s| == |Body(t)| + 5
  {
    BodyBytes(t);
    PrintableConcat("$$$$$", Body(t));
    "$$$$$" + Body(t)
  }

  /** The checksum that send_rtty_packet computes and stores in `CRC_rtty`:
      `gps_CRC16_checksum(buf_rtty + 5)` after the first `sprintf`. */
  function RttyCrc(c: Config, g: Globals): bv16
    requires ValidConfig(c) && |g.m.bufRtty| == BufSize
  {
    var t := TelemetryOf(c, g);
    PacketFits(t);
    FrameLength(Body(t), 0);
    Checksum(Render(g.m.bufRtty, Head(t))[5..])
  }

  /** The bytes behind the terminator of the head do not count, so the
      checksum send_rtty_packet takes is the checksum of the body. */
  lemma HeadChecksum(c: Config, g: Globals)
    requires ValidConfig(c) && |g.m.bufRtty| == BufSize
    ensures RttyCrc(c, g) == BodyCrc(c, g)
  {
    var t := TelemetryOf(c, g);
    BodyBytes(t);
    PacketFits(t);
    FrameLength(Body(t), 0);
    var buf := g.m.bufRtty;
    var rest := buf[|Head(t)| + 1..];
    RenderSuffix(buf, Head(t), 5);
    BytesSuffix("$$$$$", Body(t));
    NoNulBytes(Body(t));
    ChecksumStopsAtNul(Bytes(Body(t)), rest);
  }

  /** What `sprintf` leaves from index k on. */
  lemma RenderSuffix(buf: seq<byte>, s: string, k: nat)
    requires IsByteString(s) && |s| < |buf| && k <= |s|
    ensures Render(buf, s)[k..] == Bytes(s)[k..] + [0] + buf[|s| + 1..]
  {
    var b := Bytes(s);
    assert (b + [0] + buf[|s| + 1..])[k..] == b[k..] + [0] + buf[|s| + 1..];
  }

  /** The bytes of a concatenation, from the end of its first part on. */
  lemma BytesSuffix(a: string, b: string)
    requires IsByteString(a + b)
    ensures IsByteString(b) && Bytes(a + b)[|a|..] == Bytes(b)
  {
    assert forall i :: 0 <= i < |b| ==> b[i] == (a + b)[|a| + i];
  }

  /** A string without NUL is stored without a zero byte. */
  lemma NoNulBytes(s: string)
    requires IsByteString(s) && forall i :: 0 <= i < |s| ==> s[i] != '\0'
    ensures forall i :: 0 <= i < |s| ==> Bytes(s)[i] != 0
  {
  }

  /** send_rtty_packet: print the head, checksum the body, print the framed
      sentence over it, point `tx_buffer` at `buf_rtty`, set `start_bits`,
      enable the transmitter and set `tx_on`. */
  function SendRtty(c: Config, g: Globals): Globals
    requires ValidConfig(c) && |g.m.bufRtty| == BufSize
  {
    g.(m := g.m.(bufRtty := RttyBuffer(c, g), crcRtty := RttyCrc(c, g), startBits := c.preStartBits),
       txBuffer := TxPtr(RttyBuf, 0), log := g.log + [RadioEnableTx], txOn := true)
  }

  /** `buf_rtty` after the two `sprintf` calls of send_rtty_packet: the
      framed sentence printed over the head. */
  function RttyBuffer(c: Config, g: Globals): (b: seq<byte>)
    requires ValidConfig(c) && |g.m.bufRtty| == BufSize
    ensures |b| == BufSize
  {
    var t := TelemetryOf(c, g);
    PacketFits(t);
    FrameLength(Body(t), 0);
    var first := Render(g.m.bufRtty, Head(t));
    HeadChecksum(c, g);
    PacketBytes(t);
    Render(first, Frame(Body(t), RttyCrc(c, g)))
  }

  /** After send_rtty_packet, `buf_rtty` starts with the sentence of the
      current telemetry and its terminator, `CRC_rtty` is the checksum of
      the body, and the transmission starts at the buffer's first byte. */
  lemma SendRttySpec(c: Config, g: Globals)
    requires ValidConfig(c) && |g.m.bufRtty| == BufSize
    ensures var h := SendRtty(c, g);
      var img := RttyImage(c, g);
      |img| <= BufSize && |h.m.bufRtty| == BufSize && h.m.bufRtty[..|img|] == img &&
      h.m.crcRtty == BodyCrc(c, g)
  {
    var t := TelemetryOf(c, g);
    PacketFits(t);
    FrameLength(Body(t), 0);
    HeadChecksum(c, g);
    PacketBytes(t);
    var first := Render(g.m.bufRtty, Head(t));
    var second := Render(first, Packet(t));
    assert RttyBuffer(c, g) == second;
    assert second[..|Packet(t)| + 1] == Bytes(Packet(t)) + [0];
  }

  /** send_rtty_packet changes nothing but `buf_rtty`, `CRC_rtty`,
      `start_bits`, `tx_buffer` and `tx_on`, and logs one `radio_enable_tx`. */
  lemma SendRttyFrame(c: Config, g: Globals)
    requires ValidConfig(c) && |g.m.bufRtty| == BufSize
    ensures var h := SendRtty(c, g);
      h.txBuffer == TxPtr(RttyBuf, 0) && h.txOn && h.m.startBits == c.preStartBits &&
      h.log == g.log + [RadioEnableTx] &&
      h.m.(bufRtty := g.m.bufRtty, crcRtty := g.m.crcRtty, startBits := g.m.startBits) == g.m &&
      h.isr == g.isr && h.txEnable == g.txEnable
  {
  }

  // ---------------------------------------------------------------------
  // send_mfsk_packet

  /** send_mfsk_packet: `mfsk_test_bits` writes the frame into `buf_mfsk`
      and returns its length, which becomes `packet_length`; `tx_buffer`
      moves to `buf_mfsk`, the transmitter is enabled and `tx_on` set. */
  function SendMfsk(g: Globals, inp: MainInput): Globals
    requires |g.m.bufMfsk| == BufSize && ValidInput(inp)
  {
    g.(m := g.m.(bufMfsk := inp.frame + g.m.bufMfsk[|inp.frame|..], packetLength := |inp.frame|),
       txBuffer := TxPtr(MfskBuf, 0), log := g.log + [RadioEnableTx], txOn := true)
  }

  lemma SendMfskSpec(g: Globals, inp: MainInput)
    requires |g.m.bufMfsk| == BufSize && ValidInput(inp)
    ensures var h := SendMfsk(g, inp);
      |h.m.bufMfsk| == BufSize && h.m.bufMfsk[..|inp.frame|] == inp.frame &&
      h.m.bufMfsk[|inp.frame|..] == g.m.bufMfsk[|inp.frame|..] &&
      h.m.packetLength == |inp.frame| && h.txBuffer == TxPtr(MfskBuf, 0) && h.txOn &&
      h.log == g.log + [RadioEnableTx] &&
      h.m.(bufMfsk := g.m.bufMfsk, packetLength := g.m.packetLength) == g.m &&
      h.isr == g.isr && h.txEnable == g.txEnable
  {
  }

  // ---------------------------------------------------------------------
  // The loop

  /** The loop body's guard: the previous transmission and the pause after
      it are over. */
  predicate Ready(g: Globals) {
    !g.txOn && g.txEnable
  }

  /** One turn of the loop. When not ready, it waits for an interrupt and
      changes nothing. */
  function MainStep(c: Config, g: Globals, inp: MainInput): Globals
    requires Inv(c, g) && ValidInput(inp)
  {
    if !Ready(g) then g
    else
      match g.m.mode
      case Startup =>
        var g1 := Collect(g, inp);
        SendRtty(c, g1.(m := g1.m.(mode := Rtty)))
      case Rtty => SendMfsk(g.(m := g.m.(mode := Fsk4)), inp)
      case _ => g.(m := g.m.(mode := Startup))
  }

  /** The modes in the order the loop visits them. */
  function NextMode(mode: Mode): Mode {
    match mode
    case Startup => Rtty
    case Rtty => Fsk4
    case _ => Startup
  }

  /** The loop's mode machine: when ready it moves to the next mode, and a
      transmission starts exactly when that mode is a transmitting one;
      when not ready nothing changes at all. */
  lemma MainStepMode(c: Config, g: Globals, inp: MainInput)
    requires Inv(c, g) && ValidInput(inp)
    ensures var h := MainStep(c, g, inp);
      (!Ready(g) ==> h == g) &&
      (Ready(g) ==> h.m.mode == NextMode(g.m.mode) && (h.txOn <==> h.m.mode != Startup))
  {
    if Ready(g) && g.m.mode == Startup {
      var g1 := Collect(g, inp);
      SendRttyFrame(c, g1.(m := g1.m.(mode := Rtty)));
    }
  }

  /** Three ready turns bring every mode the invariant allows back to itself. */
  lemma ModeCycle(mode: Mode)
    requires mode != Fsk2
    ensures NextMode(NextMode(NextMode(mode))) == mode
    ensures NextMode(mode) != mode
  {
  }

  /** Telemetry is collected, and the frame counter advanced, only when the
      loop leaves the start-up mode. */
  lemma SendCountOnlyAtStartup(c: Config, g: Globals, inp: MainInput)
    requires Inv(c, g) && ValidInput(inp)
    ensures var h := MainStep(c, g, inp);
      (Ready(g) && g.m.mode == Startup ==> h.m.sendCount == (g.m.sendCount + 1) % UINT32_MOD) &&
      (!(Ready(g) && g.m.mode == Startup) ==> h.m.sendCount == g.m.sendCount)
  {
    if Ready(g) && g.m.mode == Startup {
      var g1 := Collect(g, inp);
      CollectSpec(g, inp);
      SendRttyFrame(c, g1.(m := g1.m.(mode := Rtty)));
    } else if Ready(g) && g.m.mode == Rtty {
      SendMfskSpec(g.(m := g.m.(mode := Fsk4)), inp);
    }
  }

  /** The single-writer discipline on the main side: the buffers,
      `packet_length`, `CRC_rtty` and `tx_buffer` change only in a ready
      turn, so never while a transmission is running. */
  lemma MainWritesOnlyWhenReady(c: Config, g: Globals, inp: MainInput)
    requires Inv(c, g) && ValidInput(inp)
    ensures var h := MainStep(c, g, inp);
      (h.m.bufRtty != g.m.bufRtty || h.m.bufMfsk != g.m.bufMfsk ||
       h.m.packetLength != g.m.packetLength || h.m.crcRtty != g.m.crcRtty ||
       h.txBuffer != g.txBuffer) ==> Ready(g)
  {
  }

  /** The loop body keeps the invariant. */
  lemma MainStepInv(c: Config, g: Globals, inp: MainInput)
    requires Inv(c, g) && ValidInput(inp)
    ensures Inv(c, MainStep(c, g, inp))
  {
    if Ready(g) {
      match g.m.mode
      case Startup =>
        var g1 := Collect(g, inp);
        CollectSpec(g, inp);
        var g2 := g1.(m := g1.m.(mode := Rtty));
        StartRttyInv(c, g2);
      case Rtty =>
        SendMfskSpec(g.(m := g.m.(mode := Fsk4)), inp);
      case _ =>
    }
  }

  /** Starting the RTTY transmission from a state whose shape is right
      establishes the sentence invariant. */
  lemma StartRttyInv(c: Config, g: Globals)
    requires ValidConfig(c) && ShapeInv(g.(m := g.m.(mode := Startup))) && !g.txOn && g.txEnable
    requires g.m.mode == Rtty
    ensures Inv(c, SendRtty(c, g))
  {
    var h := SendRtty(c, g);
    SendRttySpec(c, g);
    SendRttyFrame(c, g);
    assert TelemetryOf(c, h) == TelemetryOf(c, g);
    var img := RttyImage(c, g);
    ImageLength(c, g);
    assert SentenceInv(c, h);
  }

  /** The sentence image has at least two bytes: the cursor starts on a
      character that is not the terminator. */
  lemma ImageLength(c: Config, g: Globals)
    requires ValidConfig(c)
    ensures 2 <= |RttyImage(c, g)| <= BufSize
  {
    var t := TelemetryOf(c, g);
    PacketFits(t);
    BodyBytes(t);
    FrameLength(Body(t), Checksum(Bytes(Body(t))));
    assert |RttyImage(c, g)| == |Packet(t)| + 1;
  }
}
