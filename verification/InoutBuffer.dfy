/** modules/inout_buffer.v: an input buffer followed by an output buffer. Both
    in_ready and out_valid are then functions of the registers alone, so the chain
    has no combinational path from either neighbour's handshake to the other. */
module InoutBuffer {
  import opened Streams
  import InputBuffer
  import OutputBuffer

  datatype Regs<T> = Regs(buf0: InputBuffer.Regs<T>, buf1: OutputBuffer.Regs<T>)

  datatype Cycle<T> = Cycle(inData: T, inValid: bool, outReady: bool)

  function InReady<T>(r: Regs<T>): bool { r.buf0.ready }

  function OutValid<T>(r: Regs<T>): bool { r.buf1.valid }

  function OutData<T>(r: Regs<T>): T { r.buf1.data }

  /** The cycle as each of the two chained buffers sees it. */
  function Cycle0<T>(r: Regs<T>, c: Cycle<T>): InputBuffer.Cycle<T> {
    InputBuffer.Cycle(c.inData, c.inValid, OutputBuffer.InReady(r.buf1, c.outReady))
  }

  function Cycle1<T>(r: Regs<T>, c: Cycle<T>): OutputBuffer.Cycle<T> {
    OutputBuffer.Cycle(InputBuffer.OutData(r.buf0, c.inData), InputBuffer.OutValid(r.buf0, c.inValid), c.outReady)
  }

  function Next<T>(r: Regs<T>, aresetn: bool, c: Cycle<T>): Regs<T> {
    Regs(InputBuffer.Next(r.buf0, aresetn, Cycle0(r, c)), OutputBuffer.Next(r.buf1, aresetn, Cycle1(r, c)))
  }

  function Stored<T>(r: Regs<T>): seq<T> { OutputBuffer.Stored(r.buf1) + InputBuffer.Stored(r.buf0) }

  function Accepted<T>(r: Regs<T>, c: Cycle<T>): seq<T> { Moved(InReady(r) && c.inValid, c.inData) }

  function Delivered<T>(r: Regs<T>, c: Cycle<T>): seq<T> { Moved(OutValid(r) && c.outReady, OutData(r)) }

  /** A run after reset: the registers before every cycle and after the last one. */
  ghost predicate IsRun<T>(regs: seq<Regs<T>>, cycles: seq<Cycle<T>>) {
    && |regs| == |cycles| + 1
    && (forall i :: 0 <= i < |cycles| ==> regs[i + 1] == Next(regs[i], true, cycles[i]))
  }

  /** The first buffer holds a word only behind a word of the second one. */
  predicate Ordered<T>(r: Regs<T>) { !r.buf0.ready ==> r.buf1.valid }

  lemma StepConserves<T>(r: Regs<T>, c: Cycle<T>)
    ensures Stored(r) + Accepted(r, c) == Delivered(r, c) + Stored(Next(r, true, c))
    ensures Ordered(r) ==> Ordered(Next(r, true, c))
  {
    InputBuffer.StepConserves(r.buf0, Cycle0(r, c));
    OutputBuffer.StepConserves(r.buf1, Cycle1(r, c));
    assert InputBuffer.Delivered(r.buf0, Cycle0(r, c)) == OutputBuffer.Accepted(r.buf1, Cycle1(r, c));
  }

  /** No word is lost, duplicated or reordered in any run, from any state, and
      at most two words are ever held. */
  lemma RefinesQueue<T>(regs: seq<Regs<T>>, cycles: seq<Cycle<T>>)
    requires IsRun(regs, cycles)
    ensures var n := |cycles|;
            Stored(regs[0]) + Flatten(seq(n, i requires 0 <= i < n => Accepted(regs[i], cycles[i])))
            == Flatten(seq(n, i requires 0 <= i < n => Delivered(regs[i], cycles[i]))) + Stored(regs[n])
    ensures forall i :: 0 <= i < |regs| ==> |Stored(regs[i])| <= 2
  {
    var n := |cycles|;
    var stored := seq(n + 1, i requires 0 <= i <= n => Stored(regs[i]));
    var accepted := seq(n, i requires 0 <= i < n => Accepted(regs[i], cycles[i]));
    var delivered := seq(n, i requires 0 <= i < n => Delivered(regs[i], cycles[i]));
    forall i | 0 <= i < n ensures stored[i] + accepted[i] == delivered[i] + stored[i + 1] {
      StepConserves(regs[i], cycles[i]);
    }
    RunConserves(stored, accepted, delivered);
  }

  /** A word that is offered and refused is offered again, unchanged. */
  lemma OfferIsStable<T>(r: Regs<T>, c: Cycle<T>)
    requires OutValid(r) && !c.outReady
    ensures var r' := Next(r, true, c); OutValid(r') && OutData(r') == OutData(r)
  {
  }

  /** Registering both handshake signals costs one cycle of latency and no
      throughput: with a willing producer and consumer a word enters and a word
      leaves in every cycle after the first, whatever the buffer held at first. */
  lemma {:induction false} OneWordPerCycle<T>(regs: seq<Regs<T>>, cycles: seq<Cycle<T>>, i: nat)
    requires IsRun(regs, cycles) && Ordered(regs[0])
    requires forall k :: 0 <= k < |cycles| ==> cycles[k].inValid && cycles[k].outReady
    requires 1 <= i <= |cycles|
    ensures InReady(regs[i]) && OutValid(regs[i])
    ensures i >= 2 ==> OutData(regs[i]) == cycles[i - 1].inData
  {
    assert regs[i] == Next(regs[i - 1], true, cycles[i - 1]);
    if i > 1 {
      OneWordPerCycle(regs, cycles, i - 1);
    }
  }

  class Core<T> {
    const buf0: InputBuffer.Core<T>
    const buf1: OutputBuffer.Core<T>

    constructor (data: T)
      ensures fresh(buf0) && fresh(buf1)
      ensures State() == Regs(InputBuffer.Regs(true, data), OutputBuffer.Regs(false, data))
    {
      buf0 := new InputBuffer.Core<T>(data);
      buf1 := new OutputBuffer.Core<T>(data);
    }

    function State(): Regs<T>
      reads buf0, buf1
    {
      Regs(buf0.State(), buf1.State())
    }

    method Tick(aresetn: bool, inData: T, inValid: bool, outReady: bool)
      modifies buf0, buf1
      ensures State() == Next(old(State()), aresetn, Cycle(inData, inValid, outReady))
    {
      var intReadyWire := OutputBuffer.InReady(buf1.State(), outReady);
      var intDataWire := InputBuffer.OutData(buf0.State(), inData);
      var intValidWire := InputBuffer.OutValid(buf0.State(), inValid);
      buf0.Tick(aresetn, inData, inValid, intReadyWire);
      buf1.Tick(aresetn, intDataWire, intValidWire, outReady);
    }
  }
}
