/** `TIM2_IRQHandler` (main.c:91-221): one symbol-clock interrupt as one
    atomic step over the globals. The symbol generators `send_rtty`,
    `send_mfsk` and `send_2fsk` are not part of this model; what they return
    on this tick is an input. */
module Tick {
  import opened CTypes
  import opened Crc16
  import opened Sentence
  import opened Globals

  /** What the interrupt sees from outside on one tick. */
  datatype TickInput = TickInput(
    update: bool,         // the timer's update flag is set
    adc1: uint16,         // ADCVal[1], the button line
    newBottom: int32,     // ADCVal[1] * 1.1, converted back to an integer
    rtty: RttyStatus,     // what send_rtty returns
    symbol: int,          // what the first send_mfsk / send_2fsk call returns
    nextSymbol: int)      // what the second call returns, when it is made

  /** `(uint8_t)` of an `int`: reduction modulo 256. */
  function ToUint8(x: int): (r: uint8)
    ensures 0 <= x < 0x100 ==> r == x
    ensures (r - x) % 0x100 == 0
  {
    x % 0x100
  }

  /** Button handling (main.c:95-113): a reading above the baseline counts
      up, one at or below it resets the count; the count passing a third of
      the symbol rate arms the cut-off, and a release while armed drives the
      cut-off line. The baseline follows the line while the count is zero. */
  function ButtonPhase(c: Config, g: Globals, inp: TickInput): Globals {
    if !c.allowDisableByButton then g
    else
      var s := g.isr;
      var g1 :=
        if inp.adc1 as int > s.adcBottom as int then
          var bp := (s.buttonPressed + 1) % UINT16_MOD;
          if bp > c.rttySpeed / 3 then
            g.(isr := s.(buttonPressed := bp, disableArmed := true), log := g.log + [PinSet(Red)])
          else
            g.(isr := s.(buttonPressed := bp))
        else
          g.(isr := s.(buttonPressed := 0),
             log := g.log + (if s.disableArmed then [PinSet(Cutoff)] else []));
      if g1.isr.buttonPressed == 0 then g1.(isr := g1.isr.(adcBottom := inp.newBottom)) else g1
  }

  /** The end of a packet: `tx_on` cleared, the delay reloaded, `tx_enable`
      cleared. */
  function EndPacket(c: Config, g: Globals): Globals
    requires ValidConfig(c)
  {
    g.(txOn := false, isr := g.isr.(txOnDelay := DelayReload(c)), txEnable := false)
  }

  /** RTTY symbol handling (main.c:116-137). */
  function RttyPhase(c: Config, g: Globals, inp: TickInput): Globals
    requires ValidConfig(c)
  {
    var g1 := g.(isr := g.isr.(rttyStatus := inp.rtty), log := g.log + [RttyCall(g.txBuffer.offset)]);
    if g.isr.disableArmed then g1
    else
      match inp.rtty
      case RttyEnd =>
        var p := g.txBuffer.(offset := g.txBuffer.offset + 1);
        var g2 := g1.(txBuffer := p, log := g1.log + (if g.m.ledEnabled then [PinSet(Red)] else []));
        if ByteAt(BufferOf(g, p.buf), p.offset) == 0 then EndPacket(c, g2) else g2
      case RttyOne =>
        g1.(log := g1.log + [RegWrite(ToneRegister, c.rttyDeviation)] +
                    (if g.m.ledEnabled then [PinSet(Red)] else []))
      case RttyZero =>
        g1.(log := g1.log + [RegWrite(ToneRegister, 0)] +
                    (if g.m.ledEnabled then [PinReset(Red)] else []))
  }

  function GeneratorCall(twoFsk: bool, b: byte): Event {
    if twoFsk then TwoFskCall(b) else MfskCall(b)
  }

  /** 4FSK and 2FSK symbol handling (main.c:138-162 and 165-189; they differ
      only in the generator they call). */
  function FskPhase(c: Config, g: Globals, inp: TickInput, twoFsk: bool): Globals
    requires ValidConfig(c)
  {
    var buf := BufferOf(g, g.txBuffer.buf);
    var g1 := g.(log := g.log + [GeneratorCall(twoFsk, ByteAt(buf, g.txBuffer.offset + g.isr.currentMfskByte))]);
    if inp.symbol != -1 then
      g1.(log := g1.log + [RegWrite(ToneRegister, ToUint8(inp.symbol))])
    else
      FskByteEnd(c, g1, inp, twoFsk)
  }

  /** The generator has finished a byte (main.c:143-159): after byte
      `packet_length` the packet ends with the tone register cleared,
      otherwise the index moves on and the next byte's first symbol is
      sent. */
  function FskByteEnd(c: Config, g: Globals, inp: TickInput, twoFsk: bool): Globals
    requires ValidConfig(c)
  {
    var i := g.isr.currentMfskByte;
    if i == g.m.packetLength then
      EndPacket(c, g.(log := g.log + [RegWrite(ToneRegister, 0)], isr := g.isr.(currentMfskByte := 0)))
    else
      var next := (i + 1) % UINT16_MOD;
      var g2 := g.(isr := g.isr.(currentMfskByte := next),
                   log := g.log + [GeneratorCall(twoFsk, ByteAt(BufferOf(g, g.txBuffer.buf), g.txBuffer.offset + next))]);
      if inp.nextSymbol != -1 then
        g2.(log := g2.log + [RegWrite(ToneRegister, ToUint8(inp.nextSymbol))])
      else
        g2
  }

  /** Symbol transmission (main.c:115-193): only while `tx_on`. */
  function TxPhase(c: Config, g: Globals, inp: TickInput): Globals
    requires ValidConfig(c)
  {
    if !g.txOn then g
    else
      match g.m.mode
      case Rtty => RttyPhase(c, g, inp)
      case Fsk4 => FskPhase(c, g, inp, false)
      case Fsk2 => FskPhase(c, g, inp, true)
      case Startup => g
  }

  /** The pause between transmissions (main.c:199-202): while `tx_on` is
      clear the delay counts down; on reaching zero it sets `tx_enable` and
      wraps to 0xFFFFFFFF. */
  function DelayPhase(g: Globals): Globals {
    if g.txOn then g
    else
      var d := (g.isr.txOnDelay - 1) % UINT32_MOD;
      if d == 0 then g.(isr := g.isr.(txOnDelay := UINT32_MOD - 1), txEnable := true)
      else g.(isr := g.isr.(txOnDelay := d))
  }

  /** The green LED (main.c:204-219): every 200 ticks it is switched off,
      or switched on when the GPS flag bit 0x80 is set. */
  function BlinkPhase(g: Globals): Globals {
    var n := (g.isr.cun - 1) % UINT32_MOD;
    if n != 0 then g.(isr := g.isr.(cun := n))
    else if g.isr.pun then
      g.(isr := g.isr.(cun := 200, pun := false),
         log := g.log + (if g.m.ledEnabled then [PinSet(Green)] else []))
    else
      g.(isr := g.isr.(cun := 200, pun := true),
         log := g.log + (if g.m.flaga & 0x80 != 0 && g.m.ledEnabled then [PinReset(Green)] else []))
  }

  /** The LED phase applied n times on its own. */
  function Blinks(g: Globals, n: nat): Globals
    decreases n
  {
    if n == 0 then g else Blinks(BlinkPhase(g), n - 1)
  }

  /** One interrupt. Without the update flag the handler does nothing. */
  function TickStep(c: Config, g: Globals, inp: TickInput): Globals
    requires ValidConfig(c)
  {
    if !inp.update then g
    else BlinkPhase(DelayPhase(TxPhase(c, ButtonPhase(c, g, inp), inp)))
  }

  /** A run of interrupts with nothing else in between. */
  function Ticks(c: Config, g: Globals, inps: seq<TickInput>): Globals
    requires ValidConfig(c)
    decreases |inps|
  {
    if inps == [] then g else TickStep(c, Ticks(c, g, inps[..|inps| - 1]), inps[|inps| - 1])
  }

  // ---------------------------------------------------------------------
  // What the interrupt leaves alone

  lemma ButtonPhaseFrame(c: Config, g: Globals, inp: TickInput)
    ensures var h := ButtonPhase(c, g, inp);
      h.m == g.m && h.txOn == g.txOn && h.txEnable == g.txEnable && h.txBuffer == g.txBuffer &&
      h.isr.currentMfskByte == g.isr.currentMfskByte && h.isr.txOnDelay == g.isr.txOnDelay &&
      h.isr.cun == g.isr.cun && h.isr.pun == g.isr.pun && g.log <= h.log &&
      (g.isr.disableArmed ==> h.isr.disableArmed)
  {
  }

  /** An RTTY tick advances the cursor only at the end of a character, and
      only while the cut-off is not armed; the packet ends exactly when the
      byte after the cursor is the terminator. */
  lemma RttyPhaseFrame(c: Config, g: Globals, inp: TickInput)
    requires ValidConfig(c)
    ensures var h := RttyPhase(c, g, inp);
      h.m == g.m && h.txBuffer.buf == g.txBuffer.buf && g.log <= h.log &&
      h.isr.disableArmed == g.isr.disableArmed && h.isr.currentMfskByte == g.isr.currentMfskByte &&
      h.isr.cun == g.isr.cun && h.isr.rttyStatus == inp.rtty &&
      (g.isr.disableArmed || inp.rtty != RttyEnd ==>
        h.txBuffer == g.txBuffer && h.txOn == g.txOn && h.txEnable == g.txEnable) &&
      (!g.isr.disableArmed && inp.rtty == RttyEnd ==>
        h.txBuffer.offset == g.txBuffer.offset + 1 &&
        (h.txOn <==> g.txOn && ByteAt(BufferOf(g, g.txBuffer.buf), g.txBuffer.offset + 1) != 0) &&
        (h.txOn ==> h.txEnable == g.txEnable))
  {
  }

  lemma FskPhaseFrame(c: Config, g: Globals, inp: TickInput, twoFsk: bool)
    requires ValidConfig(c)
    ensures var h := FskPhase(c, g, inp, twoFsk);
      h.m == g.m && (h.txOn ==> g.txOn && h.txEnable == g.txEnable) &&
      h.txBuffer == g.txBuffer && g.log <= h.log &&
      h.isr.disableArmed == g.isr.disableArmed && h.isr.cun == g.isr.cun
  {
    var e := GeneratorCall(twoFsk, ByteAt(BufferOf(g, g.txBuffer.buf), g.txBuffer.offset + g.isr.currentMfskByte));
    var g1 := g.(log := g.log + [e]);
    var h := FskPhase(c, g, inp, twoFsk);
    if inp.symbol == -1 {
      assert h == FskByteEnd(c, g1, inp, twoFsk);
      ByteEndFrame(c, g1, inp, twoFsk);
      assert h.log[..|g.log|] == h.log[..|g1.log|][..|g.log|];
    } else {
      assert h.log == g.log + [e, RegWrite(ToneRegister, ToUint8(inp.symbol))];
    }
  }

  lemma ByteEndFrame(c: Config, g: Globals, inp: TickInput, twoFsk: bool)
    requires ValidConfig(c)
    ensures var h := FskByteEnd(c, g, inp, twoFsk);
      h.m == g.m && (h.txOn ==> g.txOn && h.txEnable == g.txEnable) &&
      h.txBuffer == g.txBuffer && g.log <= h.log &&
      h.isr.disableArmed == g.isr.disableArmed && h.isr.cun == g.isr.cun
  {
  }

  lemma TxPhaseFrame(c: Config, g: Globals, inp: TickInput)
    requires ValidConfig(c)
    ensures var h := TxPhase(c, g, inp);
      h.m == g.m && (h.txOn ==> g.txOn && h.txEnable == g.txEnable) &&
      h.txBuffer.buf == g.txBuffer.buf && g.log <= h.log &&
      h.isr.disableArmed == g.isr.disableArmed && h.isr.cun == g.isr.cun
  {
    if g.txOn {
      match g.m.mode
      case Rtty => RttyPhaseFrame(c, g, inp);
      case Fsk4 => FskPhaseFrame(c, g, inp, false);
      case Fsk2 => FskPhaseFrame(c, g, inp, true);
      case Startup =>
    }
  }

  lemma DelayBlinkFrame(g: Globals)
    ensures var h := BlinkPhase(DelayPhase(g));
      h.m == g.m && h.txOn == g.txOn && h.txBuffer == g.txBuffer && g.log <= h.log &&
      h.isr.disableArmed == g.isr.disableArmed && h.isr.currentMfskByte == g.isr.currentMfskByte &&
      (g.txOn ==> h.txEnable == g.txEnable) &&
      (1 <= g.isr.cun <= 200 ==> 1 <= h.isr.cun <= 200)
  {
  }

  /** The interrupt never writes the mode, the telemetry, the buffers,
      `packet_length` or which buffer `tx_buffer` points into; it never sets
      `tx_on`, and it only appends to the event log. */
  lemma TickLeavesMainState(c: Config, g: Globals, inp: TickInput)
    requires ValidConfig(c)
    ensures var h := TickStep(c, g, inp);
      h.m == g.m && h.txBuffer.buf == g.txBuffer.buf && (h.txOn ==> g.txOn) && g.log <= h.log
  {
    if inp.update {
      ButtonPhaseFrame(c, g, inp);
      var g1 := ButtonPhase(c, g, inp);
      TxPhaseFrame(c, g1, inp);
      DelayBlinkFrame(TxPhase(c, g1, inp));
    }
  }

  /** The armed cut-off latch is never cleared. */
  lemma DisableLatch(c: Config, g: Globals, inp: TickInput)
    requires ValidConfig(c) && g.isr.disableArmed
    ensures TickStep(c, g, inp).isr.disableArmed
  {
    if inp.update {
      ButtonPhaseFrame(c, g, inp);
      var g1 := ButtonPhase(c, g, inp);
      TxPhaseFrame(c, g1, inp);
      DelayBlinkFrame(TxPhase(c, g1, inp));
    }
  }

  // ---------------------------------------------------------------------
  // The invariant

  lemma ButtonPhaseInv(c: Config, g: Globals, inp: TickInput)
    requires Inv(c, g)
    ensures Inv(c, ButtonPhase(c, g, inp))
  {
    var h := ButtonPhase(c, g, inp);
    ButtonPhaseFrame(c, g, inp);
    if g.txOn && g.m.mode == Rtty {
      SentenceInvTransfer(c, g, h);
    }
  }

  /** In the sentence image, the only NUL is the terminator. */
  lemma ImageNul(c: Config, g: Globals, i: nat)
    requires ValidConfig(c) && i < |RttyImage(c, g)|
    ensures RttyImage(c, g)[i] == 0 <==> i == |RttyImage(c, g)| - 1
  {
    var t := TelemetryOf(c, g);
    PacketBytes(t);
    var p := Bytes(Packet(t));
    assert RttyImage(c, g) == p + [0];
    if i < |p| {
      assert RttyImage(c, g)[i] == p[i];
    }
  }

  lemma RttyPhaseInv(c: Config, g: Globals, inp: TickInput)
    requires Inv(c, g) && g.txOn && g.m.mode == Rtty
    ensures Inv(c, RttyPhase(c, g, inp))
  {
    var h := RttyPhase(c, g, inp);
    RttyPhaseFrame(c, g, inp);
    if !g.isr.disableArmed && inp.rtty == RttyEnd {
      if h.txOn {
        RttyAdvanceInv(c, g, h);
      }
    } else {
      SentenceInvTransfer(c, g, h);
    }
  }

  /** Moving the RTTY cursor onto a byte that is not the terminator keeps
      it inside the sentence. */
  lemma RttyAdvanceInv(c: Config, g: Globals, h: Globals)
    requires Inv(c, g) && g.txOn && g.m.mode == Rtty
    requires h.m == g.m && h.txOn && h.txEnable == g.txEnable
    requires h.txBuffer == g.txBuffer.(offset := g.txBuffer.offset + 1)
    requires h.isr.cun == g.isr.cun && h.isr.currentMfskByte == g.isr.currentMfskByte
    requires ByteAt(g.m.bufRtty, g.txBuffer.offset + 1) != 0
    ensures Inv(c, h)
  {
    var img := RttyImage(c, g);
    var k := g.txBuffer.offset + 1;
    assert g.m.bufRtty[k] == img[k] by {
      assert g.m.bufRtty[..|img|][k] == g.m.bufRtty[k];
    }
    ImageNul(c, g, k);
    assert TelemetryOf(c, h) == TelemetryOf(c, g);
  }

  lemma FskPhaseInv(c: Config, g: Globals, inp: TickInput)
    requires Inv(c, g) && g.txOn && g.m.mode == Fsk4
    ensures Inv(c, FskPhase(c, g, inp, false))
  {
    FskPhaseFrame(c, g, inp, false);
  }

  lemma TxPhaseInv(c: Config, g: Globals, inp: TickInput)
    requires Inv(c, g)
    ensures Inv(c, TxPhase(c, g, inp))
  {
    if g.txOn && g.m.mode == Rtty {
      RttyPhaseInv(c, g, inp);
    } else if g.txOn && g.m.mode == Fsk4 {
      FskPhaseInv(c, g, inp);
    }
  }

  lemma DelayBlinkInv(c: Config, g: Globals)
    requires Inv(c, g)
    ensures Inv(c, BlinkPhase(DelayPhase(g)))
  {
    DelayBlinkFrame(g);
    var h := BlinkPhase(DelayPhase(g));
    if g.txOn && g.m.mode == Rtty {
      SentenceInvTransfer(c, g, h);
    }
  }

  /** Every interrupt keeps the invariant. */
  lemma TickInv(c: Config, g: Globals, inp: TickInput)
    requires Inv(c, g)
    ensures Inv(c, TickStep(c, g, inp))
  {
    if inp.update {
      ButtonPhaseInv(c, g, inp);
      var g1 := ButtonPhase(c, g, inp);
      TxPhaseInv(c, g1, inp);
      DelayBlinkInv(c, TxPhase(c, g1, inp));
    }
  }

  // ---------------------------------------------------------------------
  // Single phases, stated against what the source promises

  /** After a 4FSK or 2FSK tick: a symbol from the first generator call is
      written to the tone register and the byte index stays; on the -1
      sentinel the packet ends exactly when the index had reached
      `packet_length` (the register idles at 0), and otherwise the index
      moves on by one and the first symbol of the next byte is fetched and
      written when there is one. */
  lemma FskPhaseStep(c: Config, g: Globals, inp: TickInput, twoFsk: bool)
    requires ValidConfig(c) && g.txOn
    ensures var h := FskPhase(c, g, inp, twoFsk);
      var i := g.isr.currentMfskByte;
      (inp.symbol != -1 ==>
        h.txOn && h.isr.currentMfskByte == i &&
        h.log == g.log + [GeneratorCall(twoFsk, ByteAt(BufferOf(g, g.txBuffer.buf), g.txBuffer.offset + i)),
                          RegWrite(ToneRegister, ToUint8(inp.symbol))]) &&
      (inp.symbol == -1 ==> (!h.txOn <==> i == g.m.packetLength)) &&
      (inp.symbol == -1 && i == g.m.packetLength ==>
        h.isr.currentMfskByte == 0 && !h.txEnable && h.isr.txOnDelay == DelayReload(c) &&
        h.log == g.log + [GeneratorCall(twoFsk, ByteAt(BufferOf(g, g.txBuffer.buf), g.txBuffer.offset + i)),
                          RegWrite(ToneRegister, 0)]) &&
      (inp.symbol == -1 && i != g.m.packetLength ==>
        h.isr.currentMfskByte == (i + 1) % UINT16_MOD &&
        h.txOn && h.txEnable == g.txEnable && h.isr.txOnDelay == g.isr.txOnDelay &&
        h.log == g.log + [GeneratorCall(twoFsk, ByteAt(BufferOf(g, g.txBuffer.buf), g.txBuffer.offset + i)),
                          GeneratorCall(twoFsk, ByteAt(BufferOf(g, g.txBuffer.buf), g.txBuffer.offset + (i + 1) % UINT16_MOD))] +
                 (if inp.nextSymbol != -1 then [RegWrite(ToneRegister, ToUint8(inp.nextSymbol))] else []))
  {
  }

  /** After an RTTY tick: the generator call is always logged; while the
      cut-off is armed nothing else happens. Otherwise a one bit writes
      RTTY_DEVIATION to the tone register and lights the red LED, a zero
      bit writes 0 and clears it, and the end of a character lights the LED
      and moves the cursor on, ending the packet (`tx_on` and `tx_enable`
      cleared, the delay reloaded) exactly when the next byte is the
      terminator. */
  lemma RttyPhaseStep(c: Config, g: Globals, inp: TickInput)
    requires ValidConfig(c)
    ensures var h := RttyPhase(c, g, inp);
      var off := g.txBuffer.offset;
      var led := g.m.ledEnabled;
      var armed := g.isr.disableArmed;
      (armed ==> h.log == g.log + [RttyCall(off)] && h.txOn == g.txOn && h.txBuffer == g.txBuffer) &&
      (!armed && inp.rtty == RttyOne ==>
        h.log == g.log + [RttyCall(off), RegWrite(ToneRegister, c.rttyDeviation)] + (if led then [PinSet(Red)] else [])) &&
      (!armed && inp.rtty == RttyZero ==>
        h.log == g.log + [RttyCall(off), RegWrite(ToneRegister, 0)] + (if led then [PinReset(Red)] else [])) &&
      (!armed && inp.rtty == RttyEnd ==>
        h.log == g.log + [RttyCall(off)] + (if led then [PinSet(Red)] else []) &&
        h.txBuffer == g.txBuffer.(offset := off + 1)) &&
      (!armed && inp.rtty == RttyEnd && ByteAt(BufferOf(g, g.txBuffer.buf), off + 1) == 0 ==>
        !h.txOn && !h.txEnable && h.isr.txOnDelay == DelayReload(c)) &&
      (!armed && inp.rtty == RttyEnd && ByteAt(BufferOf(g, g.txBuffer.buf), off + 1) != 0 ==>
        h.txOn == g.txOn && h.txEnable == g.txEnable && h.isr.txOnDelay == g.isr.txOnDelay)
  {
  }

  /** The button phase on a reading at or below the baseline: the count is
      reset, the baseline follows the new reading, the latch keeps its
      value (so such a reading never arms the cut-off), and the cut-off
      line is driven exactly when it was already armed. */
  lemma ButtonRelease(c: Config, g: Globals, inp: TickInput)
    requires c.allowDisableByButton && inp.adc1 as int <= g.isr.adcBottom as int
    ensures var h := ButtonPhase(c, g, inp);
      h.isr.buttonPressed == 0 && h.isr.adcBottom == inp.newBottom &&
      h.isr.disableArmed == g.isr.disableArmed &&
      h.log == g.log + (if g.isr.disableArmed then [PinSet(Cutoff)] else [])
  {
  }

  /** One LED phase: the countdown `cun` goes down by one (a 32-bit
      decrement); when it reaches zero it restarts at 200 and `pun` flips.
      The flip to "off" drives the green line high, the flip to "on" drives
      it low only while the GPS flag bit 0x80 is set, and neither is done
      when the LEDs are disabled. */
  lemma BlinkStep(g: Globals)
    ensures var h := BlinkPhase(g);
      var led := g.m.ledEnabled;
      (g.isr.cun != 1 ==>
        h.isr.cun == (if g.isr.cun == 0 then UINT32_MOD - 1 else g.isr.cun - 1) &&
        h.isr.pun == g.isr.pun && h.log == g.log) &&
      (g.isr.cun == 1 ==>
        h.isr.cun == 200 && h.isr.pun == !g.isr.pun &&
        h.log == g.log + (if g.isr.pun && led then [PinSet(Green)]
                          else if !g.isr.pun && led && g.m.flaga & 0x80 != 0 then [PinReset(Green)]
                          else []))
  {
  }

  /** Without a GPS lock the LED phase never switches the green LED on. */
  lemma BlinkDark(g: Globals)
    requires g.m.flaga & 0x80 == 0
    ensures var h := BlinkPhase(g);
      h.m == g.m && |h.log| >= |g.log| && h.log[..|g.log|] == g.log &&
      PinReset(Green) !in h.log[|g.log|..]
  {
  }

  /** From a countdown of k, the LED stays as it is for k - 1 phases and
      toggles on the k-th, after which the countdown is 200 again: the LED
      changes once every 200 symbol periods. */
  lemma {:induction false} BlinkPeriod(g: Globals, j: nat)
    requires 1 <= g.isr.cun && j <= g.isr.cun
    ensures var h := Blinks(g, j);
      (j < g.isr.cun ==> h.isr.cun == g.isr.cun - j && h.isr.pun == g.isr.pun && h.log == g.log) &&
      (j == g.isr.cun ==> h.isr.cun == 200 && h.isr.pun == !g.isr.pun)
    decreases j
  {
    if j > 0 {
      BlinkStep(g);
      if g.isr.cun > 1 {
        BlinkPeriod(BlinkPhase(g), j - 1);
      }
    }
  }

  /** Without a GPS lock, no number of LED phases switches the green LED
      on. */
  lemma {:induction false} BlinksDark(g: Globals, n: nat)
    requires g.m.flaga & 0x80 == 0
    ensures var h := Blinks(g, n);
      |h.log| >= |g.log| && h.log[..|g.log|] == g.log && PinReset(Green) !in h.log[|g.log|..]
    decreases n
  {
    if n > 0 {
      var g1 := BlinkPhase(g);
      BlinkDark(g);
      BlinksDark(g1, n - 1);
      var h := Blinks(g1, n - 1);
      assert h.log[..|g.log|] == h.log[..|g1.log|][..|g.log|];
      assert h.log[|g.log|..] == g1.log[|g.log|..] + h.log[|g1.log|..];
    }
  }

  /** The 4FSK and 2FSK paths do not consult `disable_armed`: arming the
      cut-off does not change what they transmit. */
  lemma FskIgnoresDisable(c: Config, g: Globals, inp: TickInput, twoFsk: bool, armed: bool)
    requires ValidConfig(c)
    ensures FskPhase(c, Armed(g, armed), inp, twoFsk) == Armed(FskPhase(c, g, inp, twoFsk), armed)
  {
    var a := Armed(g, armed);
    assert BufferOf(a, a.txBuffer.buf) == BufferOf(g, g.txBuffer.buf);
    var g1 := g.(log := g.log + [GeneratorCall(twoFsk, ByteAt(BufferOf(g, g.txBuffer.buf), g.txBuffer.offset + g.isr.currentMfskByte))]);
    assert a.(log := g1.log) == Armed(g1, armed);
    if inp.symbol == -1 {
      ByteEndIgnoresDisable(c, g1, inp, twoFsk, armed);
    }
  }

  lemma ByteEndIgnoresDisable(c: Config, g: Globals, inp: TickInput, twoFsk: bool, armed: bool)
    requires ValidConfig(c)
    ensures FskByteEnd(c, Armed(g, armed), inp, twoFsk) == Armed(FskByteEnd(c, g, inp, twoFsk), armed)
  {
    var a := Armed(g, armed);
    assert BufferOf(a, a.txBuffer.buf) == BufferOf(g, g.txBuffer.buf);
    if g.isr.currentMfskByte == g.m.packetLength {
      var e := g.(log := g.log + [RegWrite(ToneRegister, 0)], isr := g.isr.(currentMfskByte := 0));
      assert a.(log := e.log, isr := a.isr.(currentMfskByte := 0)) == Armed(e, armed);
      assert EndPacket(c, Armed(e, armed)) == Armed(EndPacket(c, e), armed);
    }
  }

  /** The globals with `disable_armed` set to the given value. */
  function Armed(g: Globals, armed: bool): (h: Globals)
    ensures h.isr.disableArmed == armed
  {
    g.(isr := g.isr.(disableArmed := armed))
  }

  /** One tick of the pause between transmissions: the delay counts down
      with 32-bit wrap-around, and `tx_enable` is set on the tick it reaches
      zero, when it wraps on to 0xFFFFFFFF. */
  lemma PauseTick(c: Config, g: Globals, inp: TickInput)
    requires ValidConfig(c) && !g.txOn && inp.update
    ensures var h := TickStep(c, g, inp);
      var d := g.isr.txOnDelay;
      !h.txOn &&
      h.isr.txOnDelay == (if d == 1 then UINT32_MOD - 1 else (d - 1) % UINT32_MOD) &&
      (h.txEnable <==> g.txEnable || d == 1)
  {
    ButtonPhaseFrame(c, g, inp);
  }

  /** The number of ticks a pause lasts when the delay starts at d: a
      reload of 0 wraps to 0xFFFFFFFF first, so it lasts 2^32 ticks. */
  function PauseLength(d: uint32): (n: nat)
    ensures 1 <= n <= UINT32_MOD
    ensures n % UINT32_MOD == d
  {
    if d == 0 then UINT32_MOD else d
  }

  predicate AllUpdates(inps: seq<TickInput>) {
    forall j :: 0 <= j < |inps| ==> inps[j].update
  }

  /** A pause that starts with delay d: for PauseLength(d) - 1 ticks the
      delay counts down and `tx_enable` keeps its value, and on the tick
      after that `tx_enable` is set. */
  lemma {:induction false} PauseRun(c: Config, g: Globals, inps: seq<TickInput>)
    requires ValidConfig(c) && !g.txOn && AllUpdates(inps)
    requires |inps| <= PauseLength(g.isr.txOnDelay)
    ensures var h := Ticks(c, g, inps);
      var n := PauseLength(g.isr.txOnDelay);
      !h.txOn &&
      (|inps| < n ==> h.isr.txOnDelay == (n - |inps|) % UINT32_MOD && h.txEnable == g.txEnable) &&
      (|inps| == n ==> h.txEnable && h.isr.txOnDelay == UINT32_MOD - 1)
    decreases |inps|
  {
    if inps != [] {
      var k := |inps| - 1;
      var prefix := inps[..k];
      assert AllUpdates(prefix) by {
        assert forall j :: 0 <= j < k ==> prefix[j] == inps[j];
      }
      PauseRun(c, g, prefix);
      var before := Ticks(c, g, prefix);
      PauseTick(c, before, inps[k]);
      PauseCount(PauseLength(g.isr.txOnDelay), k, before.isr.txOnDelay);
    }
  }

  /** The countdown arithmetic of PauseRun: from (n - k) mod 2^32, one
      decrement with the wrap at zero gives (n - k - 1) mod 2^32, and it
      reaches 1 exactly on the last tick. */
  lemma PauseCount(n: nat, k: nat, d: int)
    requires 1 <= n <= UINT32_MOD && k < n
    requires d == (n - k) % UINT32_MOD
    ensures d == 1 <==> k + 1 == n
    ensures d != 1 ==> (d - 1) % UINT32_MOD == (n - k - 1) % UINT32_MOD
  {
  }

  /** While the cut-off is armed an RTTY transmission never moves on: the
      cursor stays, `tx_on` stays set, and so the main loop never leaves the
      RTTY mode. */
  lemma ArmedRttyTick(c: Config, g: Globals, inp: TickInput)
    requires ValidConfig(c) && g.isr.disableArmed && g.txOn && g.m.mode == Rtty
    ensures var h := TickStep(c, g, inp);
      h.isr.disableArmed && h.txOn && h.m == g.m && h.txBuffer == g.txBuffer
  {
    if inp.update {
      ButtonPhaseFrame(c, g, inp);
      var g1 := ButtonPhase(c, g, inp);
      RttyPhaseFrame(c, g1, inp);
      DelayBlinkFrame(RttyPhase(c, g1, inp));
    }
  }

  lemma {:induction false} ArmedRttyStalls(c: Config, g: Globals, inps: seq<TickInput>)
    requires ValidConfig(c) && g.isr.disableArmed && g.txOn && g.m.mode == Rtty
    ensures var h := Ticks(c, g, inps);
      h.isr.disableArmed && h.txOn && h.m == g.m && h.txBuffer == g.txBuffer
    decreases |inps|
  {
    if inps != [] {
      ArmedRttyStalls(c, g, inps[..|inps| - 1]);
      ArmedRttyTick(c, Ticks(c, g, inps[..|inps| - 1]), inps[|inps| - 1]);
    }
  }

  /** One tick with the button line above a baseline that it does not move
      while the count is running: the count goes up by one and the cut-off
      is armed once it passes a third of the symbol rate. */
  lemma PressTick(c: Config, g: Globals, inp: TickInput)
    requires ValidConfig(c) && c.allowDisableByButton && inp.update
    requires inp.adc1 as int > g.isr.adcBottom as int
    requires g.isr.buttonPressed < UINT16_MOD - 1
    ensures var h := TickStep(c, g, inp);
      var bp := g.isr.buttonPressed + 1;
      h.isr.buttonPressed == bp && h.isr.adcBottom == g.isr.adcBottom &&
      (h.isr.disableArmed <==> g.isr.disableArmed || bp > c.rttySpeed / 3)
  {
    ButtonPress(c, g, inp);
    var g1 := ButtonPhase(c, g, inp);
    TxPhaseFrame(c, g1, inp);
    TxPhaseButton(c, g1, inp);
    DelayBlinkButton(TxPhase(c, g1, inp));
  }

  /** The button phase on a reading above the baseline: the 16-bit count
      goes up by one (wrapping to 0, after which the baseline is taken
      again), the cut-off is armed exactly once the count exceeds a third
      of the symbol rate, and each such tick lights the red LED. */
  lemma ButtonPress(c: Config, g: Globals, inp: TickInput)
    requires c.allowDisableByButton && inp.adc1 as int > g.isr.adcBottom as int
    ensures var h := ButtonPhase(c, g, inp);
      var bp := (g.isr.buttonPressed + 1) % UINT16_MOD;
      h.isr.buttonPressed == bp &&
      (bp != 0 ==> h.isr.adcBottom == g.isr.adcBottom) &&
      (bp == 0 ==> h.isr.adcBottom == inp.newBottom) &&
      (h.isr.disableArmed <==> g.isr.disableArmed || bp > c.rttySpeed / 3) &&
      h.log == g.log + (if bp > c.rttySpeed / 3 then [PinSet(Red)] else [])
  {
  }

  /** The symbol-transmission phase does not touch the button state. */
  lemma TxPhaseButton(c: Config, g: Globals, inp: TickInput)
    requires ValidConfig(c)
    ensures var h := TxPhase(c, g, inp);
      h.isr.buttonPressed == g.isr.buttonPressed && h.isr.adcBottom == g.isr.adcBottom
  {
  }

  /** Neither do the delay and LED phases. */
  lemma DelayBlinkButton(g: Globals)
    ensures var h := BlinkPhase(DelayPhase(g));
      h.isr.buttonPressed == g.isr.buttonPressed && h.isr.adcBottom == g.isr.adcBottom
  {
  }

  predicate Pressed(inps: seq<TickInput>, bottom: int32) {
    forall j :: 0 <= j < |inps| ==> inps[j].update && inps[j].adc1 as int > bottom as int
  }

  /** k consecutive ticks with the button line above the baseline, from a
      released button, leave the count at k; the cut-off is then armed
      exactly when k exceeds a third of the symbol rate (or it was armed
      before). */
  lemma {:induction false} PressRun(c: Config, g: Globals, inps: seq<TickInput>)
    requires ValidConfig(c) && c.allowDisableByButton
    requires g.isr.buttonPressed == 0 && Pressed(inps, g.isr.adcBottom)
    requires |inps| < UINT16_MOD
    ensures var h := Ticks(c, g, inps);
      h.isr.buttonPressed == |inps| && h.isr.adcBottom == g.isr.adcBottom &&
      (h.isr.disableArmed <==> g.isr.disableArmed || |inps| > c.rttySpeed / 3)
    decreases |inps|
  {
    if inps != [] {
      var k := |inps| - 1;
      var prefix := inps[..k];
      assert Pressed(prefix, g.isr.adcBottom) by {
        assert forall j :: 0 <= j < k ==> prefix[j] == inps[j];
      }
      PressRun(c, g, prefix);
      var h := Ticks(c, g, prefix);
      assert inps[k].update && inps[k].adc1 as int > h.isr.adcBottom as int;
      PressTick(c, h, inps[k]);
    }
  }
}
