/** The firmware as an interleaving of two atomic actions: a symbol-clock
    interrupt (`TIM2_IRQHandler`, main.c:91-221) and one turn of `main`'s
    loop (main.c:272-294). Each runs to completion before the other starts. */
module Interleave {
  import opened CTypes
  import opened Sentence
  import opened Globals
  import opened Tick
  import opened MainLoop

  datatype Action = TickAction(tick: TickInput) | MainAction(main: MainInput)

  predicate ValidAction(a: Action) {
    a.MainAction? ==> ValidInput(a.main)
  }

  predicate ValidActions(acts: seq<Action>) {
    forall i :: 0 <= i < |acts| ==> ValidAction(acts[i])
  }

  /** One action; every action keeps the invariant. */
  function Step(c: Config, g: Globals, a: Action): (h: Globals)
    requires Inv(c, g) && ValidAction(a)
    ensures Inv(c, h)
  {
    match a
    case TickAction(t) => TickInv(c, g, t); TickStep(c, g, t)
    case MainAction(mi) => MainStepInv(c, g, mi); MainStep(c, g, mi)
  }

  /** A run of actions in the order they happen. */
  function Run(c: Config, g: Globals, acts: seq<Action>): (h: Globals)
    requires Inv(c, g) && ValidActions(acts)
    ensures Inv(c, h)
    decreases |acts|
  {
    if acts == [] then g
    else
      var prefix := acts[..|acts| - 1];
      assert ValidActions(prefix) by {
        assert forall i :: 0 <= i < |prefix| ==> prefix[i] == acts[i];
      }
      Step(c, Run(c, g, prefix), acts[|acts| - 1])
  }

  /** Every interleaving from power-up keeps the invariant: during RTTY the
      cursor stays inside the current sentence, during 4FSK inside the
      frame and the byte after it, and a transmission runs only with
      `tx_enable` set. */
  lemma RunFromBoot(c: Config, acts: seq<Action>)
    requires ValidConfig(c) && ValidActions(acts)
    ensures var h := Run(c, Boot(c), acts);
      Inv(c, h) && (h.txOn ==> h.txEnable) &&
      (h.txOn && h.m.mode == Rtty ==> h.txBuffer.buf == RttyBuf && h.txBuffer.offset < |RttyImage(c, h)| - 1) &&
      (h.txOn && h.m.mode == Fsk4 ==> h.txBuffer == TxPtr(MfskBuf, 0) && h.isr.currentMfskByte <= h.m.packetLength < BufSize)
  {
  }

  /** The single-writer discipline: while a transmission runs, no action
      writes the buffers, `packet_length`, `CRC_rtty`, the mode, or which
      buffer `tx_buffer` points into. */
  lemma StepWhileTransmitting(c: Config, g: Globals, a: Action)
    requires Inv(c, g) && ValidAction(a) && g.txOn
    ensures var h := Step(c, g, a);
      h.m == g.m && h.txBuffer.buf == g.txBuffer.buf
  {
    match a
    case TickAction(t) => TickLeavesMainState(c, g, t);
    case MainAction(mi) => MainStepMode(c, g, mi);
  }

  /** Only the main loop starts a transmission, and only from a ready state;
      the interrupt only ends one. */
  lemma TransmissionStarts(c: Config, g: Globals, a: Action)
    requires Inv(c, g) && ValidAction(a) && !g.txOn
    ensures var h := Step(c, g, a);
      h.txOn ==> a.MainAction? && g.txEnable && h.m.mode != Startup
  {
    match a
    case TickAction(t) => TickLeavesMainState(c, g, t);
    case MainAction(mi) => MainStepMode(c, g, mi);
  }

  /** Radio, GPIO and generator calls are only ever appended. */
  lemma StepLogGrows(c: Config, g: Globals, a: Action)
    requires Inv(c, g) && ValidAction(a)
    ensures g.log <= Step(c, g, a).log
  {
    match a
    case TickAction(t) => TickLeavesMainState(c, g, t);
    case MainAction(mi) => MainLogGrows(c, g, mi);
  }

  lemma MainLogGrows(c: Config, g: Globals, inp: MainInput)
    requires Inv(c, g) && ValidInput(inp)
    ensures g.log <= MainStep(c, g, inp).log
  {
    if Ready(g) && g.m.mode == Startup {
      var g1 := Collect(g, inp);
      CollectSpec(g, inp);
      SendRttyFrame(c, g1.(m := g1.m.(mode := Rtty)));
    }
  }

  lemma {:induction false} RunLogGrows(c: Config, g: Globals, acts: seq<Action>)
    requires Inv(c, g) && ValidActions(acts)
    ensures g.log <= Run(c, g, acts).log
    decreases |acts|
  {
    if acts != [] {
      var prefix := acts[..|acts| - 1];
      assert ValidActions(prefix) by {
        assert forall i :: 0 <= i < |prefix| ==> prefix[i] == acts[i];
      }
      RunLogGrows(c, g, prefix);
      StepLogGrows(c, Run(c, g, prefix), acts[|acts| - 1]);
    }
  }
}
