/** main.c's globals as the fields of one object, updated in place the way
    the interrupt handler (main.c:91-221) and the main loop with its helpers
    (main.c:272-373) update them. The scalar globals are grouped by the side
    that writes them; the two buffers are arrays. Each method is proved to
    leave exactly the state the functional model of its operation
    describes. */
module Firmware {
  import opened CTypes
  import opened Crc16
  import opened Sentence
  import opened Globals
  import opened Tick
  import opened MainLoop

  /** `sprintf(a, "%s", s)`: the bytes of s and a terminator at the
      start of a, the rest of a untouched. */
  method Sprintf(a: array<byte>, s: string)
    requires IsByteString(s) && |s| < a.Length
    modifies a
    ensures a[..] == Render(old(a[..]), s)
  {
    ghost var b := Bytes(s);
    var i := 0;
    while i < |s|
      invariant 0 <= i <= |s|
      invariant forall j :: 0 <= j < i ==> a[j] == b[j]
      invariant forall j :: i <= j < a.Length ==> a[j] == old(a[j])
    {
      a[i] := ByteOf(s[i]);
      i := i + 1;
    }
    a[|s|] := 0;
    assert forall j :: 0 <= j < a.Length ==> a[j] == Render(old(a[..]), s)[j] by {
      var r := Render(old(a[..]), s);
      forall j | 0 <= j < a.Length
        ensures a[j] == r[j]
      {
        if j < |s| {
          assert r[j] == r[..|s|][j] == b[j];
        } else if j > |s| {
          assert r[j] == r[|s| + 1..][j - |s| - 1] == old(a[..])[|s| + 1..][j - |s| - 1];
        }
      }
    }
  }

  /** `mfsk_test_bits(buf_mfsk)`, whose body is not part of this model:
      it writes its frame into the buffer and returns the frame's length. */
  method MfskTestBits(a: array<byte>, frame: seq<byte>) returns (n: uint16)
    requires |frame| < a.Length && a.Length <= BufSize
    modifies a
    ensures n == |frame| && a[..] == frame + old(a[..])[|frame|..]
  {
    var i := 0;
    while i < |frame|
      invariant 0 <= i <= |frame|
      invariant forall j :: 0 <= j < i ==> a[j] == frame[j]
      invariant forall j :: i <= j < a.Length ==> a[j] == old(a[j])
    {
      a[i] := frame[i];
      i := i + 1;
    }
    assert a[..] == frame + old(a[..])[|frame|..];
    n := |frame|;
  }

  /** The scalar globals only `main` and its helpers write. */
  datatype MainScalars = MainScalars(
    mode: Mode,
    sendCount: uint32,
    voltage: Voltage,
    temperature: int8,
    gps: GpsFix,
    flaga: bv8,
    ledEnabled: bool,
    crcRtty: bv16,
    packetLength: uint16,
    startBits: int)

  /** The main-side globals, with the contents of the two buffers. */
  function WithBuffers(s: MainScalars, bufRtty: seq<byte>, bufMfsk: seq<byte>): (m: MainVars)
    ensures m.bufRtty == bufRtty && m.bufMfsk == bufMfsk
  {
    MainVars(s.mode, s.sendCount, s.voltage, s.temperature, s.gps, s.flaga, s.ledEnabled,
             s.crcRtty, bufRtty, bufMfsk, s.packetLength, s.startBits)
  }

  /** The checksum send_rtty_packet computes is taken over the buffer the
      first `sprintf` left, and the second `sprintf` prints the framed
      sentence with it. */
  lemma RttyBufferSteps(c: Config, g: Globals, first: seq<byte>, crc: bv16)
    requires ValidConfig(c) && |g.m.bufRtty| == BufSize
    requires |Head(TelemetryOf(c, g))| < BufSize
    requires first == Render(g.m.bufRtty, Head(TelemetryOf(c, g)))
    requires crc == Checksum(first[5..])
    ensures crc == BodyCrc(c, g)
    ensures IsByteString(Frame(Body(TelemetryOf(c, g)), crc))
    ensures |Frame(Body(TelemetryOf(c, g)), crc)| < BufSize
    ensures first[|Head(TelemetryOf(c, g))|] == 0 && 5 <= |Head(TelemetryOf(c, g))| < BufSize
  {
    var t := TelemetryOf(c, g);
    PacketFits(t);
    FrameLength(Body(t), 0);
    FrameLength(Body(t), crc);
    HeadChecksum(c, g);
    PacketBytes(t);
  }

  /** The head and the framed sentence both fit `buf_rtty`. */
  lemma HeadFits(t: Telemetry)
    requires ValidTelemetry(t)
    ensures |Head(t)| < BufSize
  {
    PacketFits(t);
    FrameLength(Body(t), 0);
  }

  class Payload {
    /** The configuration from `config.h`. */
    const c: Config
    /** `char buf_rtty[200]` and `char buf_mfsk[200]`. */
    const bufRtty: array<byte>
    const bufMfsk: array<byte>
    /** Written by main and its helpers. */
    var main: MainScalars
    /** Written by the interrupt. */
    var isr: IsrVars
    /** Written by both. */
    var txOn: bool
    var txEnable: bool
    var txBuffer: TxPtr
    /** The radio, GPIO and generator calls made so far. */
    var log: seq<Event>

    predicate Valid()
      reads this
    {
      ValidConfig(c) && bufRtty.Length == BufSize && bufMfsk.Length == BufSize && bufRtty != bufMfsk
    }

    /** The globals as a value. */
    function State(): Globals
      reads this, bufRtty, bufMfsk
    {
      Globals(WithBuffers(main, bufRtty[..], bufMfsk[..]), isr, txOn, txEnable, txBuffer, log)
    }

    /** The static initialisers and the assignments `main` makes before
        entering its loop (main.c:259-261). */
    constructor (c: Config)
      requires ValidConfig(c)
      ensures Valid() && this.c == c && State() == Boot(c)
      ensures fresh(bufRtty) && fresh(bufMfsk)
    {
      this.c := c;
      bufRtty := new byte[BufSize](_ => 0);
      bufMfsk := new byte[BufSize](_ => 0);
      main := MainScalars(Startup, 0, 0, 0, NoFix, 0, true, 0x12ab, 0, 0);
      isr := IsrVars(2000, false, 10, 0, RttyZero, 0, 0, false);
      txOn, txEnable, txBuffer, log := false, true, TxPtr(RttyBuf, 0), [];
      new;
      assert bufRtty[..] == seq(BufSize, _ => 0);
      assert bufMfsk[..] == seq(BufSize, _ => 0);
    }

    // -------------------------------------------------------------------
    // TIM2_IRQHandler

    /** One symbol-clock interrupt. */
    method Tick(inp: TickInput)
      requires Valid()
      modifies this
      ensures Valid() && State() == TickStep(c, old(State()), inp)
      ensures Inv(c, old(State())) ==> Inv(c, State())
    {
      ghost var g := State();
      if inp.update {
        ButtonCheck(inp);
        SymbolStep(inp);
        DelayCountdown();
        Blink();
      }
      if Inv(c, g) {
        TickInv(c, g, inp);
      }
    }

    /** The disable-by-button check (main.c:95-113). */
    method ButtonCheck(inp: TickInput)
      requires Valid()
      modifies this
      ensures Valid() && State() == ButtonPhase(c, old(State()), inp)
    {
      ghost var g := State();
      if c.allowDisableByButton {
        if inp.adc1 as int > isr.adcBottom as int {
          isr := isr.(buttonPressed := (isr.buttonPressed + 1) % UINT16_MOD);
          if isr.buttonPressed > c.rttySpeed / 3 {
            isr := isr.(disableArmed := true);
            log := log + [PinSet(Red)];
          }
        } else {
          if isr.disableArmed {
            log := log + [PinSet(Cutoff)];
          }
          isr := isr.(buttonPressed := 0);
        }
        if isr.buttonPressed == 0 {
          isr := isr.(adcBottom := inp.newBottom);
        }
      }
      assert bufRtty[..] == g.m.bufRtty && bufMfsk[..] == g.m.bufMfsk;
    }

    /** The symbol of the current mode (main.c:115-193). */
    method SymbolStep(inp: TickInput)
      requires Valid()
      modifies this
      ensures Valid() && State() == TxPhase(c, old(State()), inp)
    {
      if txOn {
        if main.mode == Rtty {
          RttySymbol(inp);
        } else if main.mode == Fsk4 {
          FskSymbol(inp, false);
        } else if main.mode == Fsk2 {
          FskSymbol(inp, true);
        }
      }
    }

    /** The byte at p: `*tx_buffer` (0 past the end of the array, which the
        invariant rules out). */
    method Peek(p: TxPtr) returns (b: byte)
      requires Valid()
      ensures b == ByteAt(BufferOf(State(), p.buf), p.offset)
    {
      var a := if p.buf == RttyBuf then bufRtty else bufMfsk;
      b := if p.offset < a.Length then a[p.offset] else 0;
    }

    /** The end of a packet (main.c:124-127, 149-152 and 176-179). */
    method EndOfPacket()
      requires Valid()
      modifies this
      ensures Valid() && State() == EndPacket(c, old(State()))
    {
      ghost var g := State();
      txOn := false;
      isr := isr.(txOnDelay := DelayReload(c));
      txEnable := false;
      assert bufRtty[..] == g.m.bufRtty && bufMfsk[..] == g.m.bufMfsk;
    }

    /** RTTY (main.c:116-137). */
    method RttySymbol(inp: TickInput)
      requires Valid()
      modifies this
      ensures Valid() && State() == RttyPhase(c, old(State()), inp)
    {
      ghost var g := State();
      isr := isr.(rttyStatus := inp.rtty);
      log := log + [RttyCall(txBuffer.offset)];
      if !isr.disableArmed {
        if isr.rttyStatus == RttyEnd {
          RttyNextCharacter();
        } else if isr.rttyStatus == RttyOne {
          log := log + [RegWrite(ToneRegister, c.rttyDeviation)];
          if main.ledEnabled {
            log := log + [PinSet(Red)];
          }
        } else {
          log := log + [RegWrite(ToneRegister, 0)];
          if main.ledEnabled {
            log := log + [PinReset(Red)];
          }
        }
      }
      assert bufRtty[..] == g.m.bufRtty && bufMfsk[..] == g.m.bufMfsk;
    }

    /** The end of an RTTY character: the cursor moves on, and the packet
        ends when it lands on the terminator (main.c:121-130). */
    method RttyNextCharacter()
      requires Valid()
      modifies this
      ensures Valid()
      ensures var g := old(State());
        var p := g.txBuffer.(offset := g.txBuffer.offset + 1);
        var g2 := g.(txBuffer := p, log := g.log + (if g.m.ledEnabled then [PinSet(Red)] else []));
        State() == if ByteAt(BufferOf(g, p.buf), p.offset) == 0 then EndPacket(c, g2) else g2
    {
      ghost var g := State();
      if main.ledEnabled {
        log := log + [PinSet(Red)];
      }
      txBuffer := txBuffer.(offset := txBuffer.offset + 1);
      var b := Peek(txBuffer);
      if b == 0 {
        EndOfPacket();
      }
      assert bufRtty[..] == g.m.bufRtty && bufMfsk[..] == g.m.bufMfsk;
    }

    /** 4FSK or 2FSK (main.c:138-189). */
    method FskSymbol(inp: TickInput, twoFsk: bool)
      requires Valid()
      modifies this
      ensures Valid() && State() == FskPhase(c, old(State()), inp, twoFsk)
    {
      ghost var g := State();
      var b := Peek(txBuffer.(offset := txBuffer.offset + isr.currentMfskByte));
      if inp.symbol != -1 {
        log := log + [GeneratorCall(twoFsk, b), RegWrite(ToneRegister, ToUint8(inp.symbol))];
      } else {
        log := log + [GeneratorCall(twoFsk, b)];
        FskNextByte(inp, twoFsk);
      }
      assert bufRtty[..] == g.m.bufRtty && bufMfsk[..] == g.m.bufMfsk;
    }

    /** The end of a byte: the packet ends after byte `packet_length`,
        otherwise the next byte's first symbol goes out (main.c:143-159). */
    method FskNextByte(inp: TickInput, twoFsk: bool)
      requires Valid()
      modifies this
      ensures Valid()
      ensures State() == FskByteEnd(c, old(State()), inp, twoFsk)
    {
      ghost var g := State();
      var current := isr.currentMfskByte;
      if current == main.packetLength {
        isr := isr.(currentMfskByte := 0, txOnDelay := DelayReload(c));
        log := log + [RegWrite(ToneRegister, 0)];
        txOn, txEnable := false, false;
      } else {
        var i := (current + 1) % UINT16_MOD;
        var next := Peek(txBuffer.(offset := txBuffer.offset + i));
        var events := [GeneratorCall(twoFsk, next)];
        if inp.nextSymbol != -1 {
          events := events + [RegWrite(ToneRegister, ToUint8(inp.nextSymbol))];
        }
        isr := isr.(currentMfskByte := i);
        log := log + events;
      }
      assert bufRtty[..] == g.m.bufRtty && bufMfsk[..] == g.m.bufMfsk;
    }

    /** The pause between transmissions (main.c:199-202). */
    method DelayCountdown()
      requires Valid()
      modifies this
      ensures Valid() && State() == DelayPhase(old(State()))
    {
      ghost var g := State();
      if !txOn {
        isr := isr.(txOnDelay := (isr.txOnDelay - 1) % UINT32_MOD);
        if isr.txOnDelay == 0 {
          txEnable := true;
          isr := isr.(txOnDelay := (isr.txOnDelay - 1) % UINT32_MOD);
        }
      }
      assert bufRtty[..] == g.m.bufRtty && bufMfsk[..] == g.m.bufMfsk;
    }

    /** The green LED (main.c:204-219). */
    method Blink()
      requires Valid()
      modifies this
      ensures Valid() && State() == BlinkPhase(old(State()))
    {
      ghost var g := State();
      isr := isr.(cun := (isr.cun - 1) % UINT32_MOD);
      if isr.cun == 0 {
        if isr.pun {
          if main.ledEnabled {
            log := log + [PinSet(Green)];
          }
          isr := isr.(pun := false);
        } else {
          if main.flaga & 0x80 != 0 {
            if main.ledEnabled {
              log := log + [PinReset(Green)];
            }
          }
          isr := isr.(pun := true);
        }
        isr := isr.(cun := 200);
      }
      assert bufRtty[..] == g.m.bufRtty && bufMfsk[..] == g.m.bufMfsk;
    }

    // -------------------------------------------------------------------
    // main

    /** One turn of the `while (1)` loop. */
    method MainLoopStep(inp: MainInput)
      requires Valid() && Inv(c, State()) && ValidInput(inp)
      modifies this, bufRtty, bufMfsk
      ensures Valid() && State() == MainStep(c, old(State()), inp)
      ensures Inv(c, State())
    {
      MainStepInv(c, State(), inp);
      if !txOn && txEnable {
        if main.mode == Startup {
          CollectTelemetryData(inp);
          main := main.(mode := Rtty);
          SendRttyPacket();
        } else if main.mode == Rtty {
          main := main.(mode := Fsk4);
          SendMfskPacket(inp);
        } else {
          main := main.(mode := Startup);
        }
      }
    }

    /** collect_telemetry_data (main.c:298-322). */
    method CollectTelemetryData(inp: MainInput)
      requires Valid()
      modifies this
      ensures Valid() && State() == Collect(old(State()), inp)
    {
      ReadSensors(inp);
      CheckGpsFix();
    }

    /** main.c:300-303 */
    method ReadSensors(inp: MainInput)
      requires Valid()
      modifies this
      ensures Valid() && State() == TakeReadings(old(State()), inp)
    {
      ghost var g := State();
      var sendCount := (main.sendCount + 1) % UINT32_MOD;
      var temperature := inp.temperature;
      var voltage := inp.adc0 * 600 / 4096;
      var gps := inp.fix;
      main := main.(sendCount := sendCount, temperature := temperature, voltage := voltage, gps := gps);
      assert bufRtty[..] == g.m.bufRtty && bufMfsk[..] == g.m.bufMfsk;
    }

    /** main.c:305-321 */
    method CheckGpsFix()
      requires Valid()
      modifies this
      ensures Valid() && State() == CheckFix(old(State()))
    {
      ghost var g := State();
      var gps, flaga, ledEnabled := main.gps, main.flaga, main.ledEnabled;
      if gps.fix >= 3 {
        flaga := flaga | 0x80;
        if CDiv(gps.altRaw, 1000) > 1000 {
          ledEnabled := false;
        } else {
          ledEnabled := true;
        }
      } else {
        flaga := flaga & 0x7F;
        ledEnabled := true;
        gps := gps.(latRaw := 0, lonRaw := 0);
      }
      main := main.(gps := gps, flaga := flaga, ledEnabled := ledEnabled);
      assert bufRtty[..] == g.m.bufRtty && bufMfsk[..] == g.m.bufMfsk;
    }

    /** send_rtty_packet (main.c:325-361). */
    method SendRttyPacket()
      requires Valid()
      modifies this, bufRtty
      ensures Valid() && State() == SendRtty(c, old(State()))
    {
      ghost var g := State();
      var crc := PrintSentence();
      ghost var b := bufRtty[..];
      main := main.(crcRtty := crc, startBits := c.preStartBits);
      txBuffer := TxPtr(RttyBuf, 0);
      log := log + [RadioEnableTx];
      txOn := true;
      assert bufRtty[..] == b && bufMfsk[..] == g.m.bufMfsk;
      assert State() == g.(m := g.m.(bufRtty := b, crcRtty := crc, startBits := c.preStartBits),
        txBuffer := TxPtr(RttyBuf, 0), log := g.log + [RadioEnableTx], txOn := true);
    }

    /** The sentence into `buf_rtty` (main.c:327-351): the head, its
        checksum `gps_CRC16_checksum(buf_rtty + 5)`, and the framed
        sentence printed over the head. */
    method PrintSentence() returns (crc: bv16)
      requires Valid()
      modifies bufRtty
      ensures bufRtty[..] == RttyBuffer(c, old(State())) && crc == RttyCrc(c, old(State()))
    {
      ghost var g := State();
      var t := Telemetry(c.callsign, main.sendCount, main.gps, main.voltage, main.temperature);
      assert t == TelemetryOf(c, g);
      HeadFits(t);
      Sprintf(bufRtty, Head(t));
      ghost var first := bufRtty[..];
      RttyBufferSteps(c, g, first, Checksum(first[5..]));
      assert bufRtty[|Head(t)|] == 0 && bufRtty[5..] == first[5..];
      crc := GpsCrc16Checksum(bufRtty, 5);
      Sprintf(bufRtty, Frame(Body(t), crc));
    }

    /** send_mfsk_packet (main.c:364-373). */
    method SendMfskPacket(inp: MainInput)
      requires Valid() && ValidInput(inp)
      modifies this, bufMfsk
      ensures Valid() && State() == SendMfsk(old(State()), inp)
    {
      ghost var g := State();
      var n := MfskTestBits(bufMfsk, inp.frame);
      main := main.(packetLength := n);
      txBuffer := TxPtr(MfskBuf, 0);
      log := log + [RadioEnableTx];
      txOn := true;
      assert bufRtty[..] == g.m.bufRtty;
    }
  }
}
