/** modules/input_buffer.v: a skid buffer. The ready output is a register; a word
    that arrives while the consumer stalls is kept in the data register. */
module InputBuffer {
  import opened Streams

  /** int_ready_reg and int_data_reg */
  datatype Regs<T> = Regs(ready: bool, data: T)

  /** What the neighbours drive in one clock cycle. */
  datatype Cycle<T> = Cycle(inData: T, inValid: bool, outReady: bool)

  function OutValid<T>(r: Regs<T>, inValid: bool): bool { !r.ready || inValid }

  function OutData<T>(r: Regs<T>, inData: T): T { if r.ready then inData else r.data }

  function Next<T>(r: Regs<T>, aresetn: bool, c: Cycle<T>): Regs<T> {
    Regs(
      if !aresetn then true else if OutValid(r, c.inValid) then c.outReady else r.ready,
      if r.ready then c.inData else r.data)
  }

  /** The words the buffer holds: one word exactly while it is not ready. */
  function Stored<T>(r: Regs<T>): seq<T> { Moved(!r.ready, r.data) }

  function Accepted<T>(r: Regs<T>, c: Cycle<T>): seq<T> { Moved(r.ready && c.inValid, c.inData) }

  function Delivered<T>(r: Regs<T>, c: Cycle<T>): seq<T> {
    Moved(OutValid(r, c.inValid) && c.outReady, OutData(r, c.inData))
  }

  /** A run after reset: the registers before every cycle and after the last one. */
  ghost predicate IsRun<T>(regs: seq<Regs<T>>, cycles: seq<Cycle<T>>) {
    && |regs| == |cycles| + 1
    && (forall i :: 0 <= i < |cycles| ==> regs[i + 1] == Next(regs[i], true, cycles[i]))
  }

  lemma StepConserves<T>(r: Regs<T>, c: Cycle<T>)
    ensures Stored(r) + Accepted(r, c) == Delivered(r, c) + Stored(Next(r, true, c))
  {
  }

  /** No word is lost, duplicated or reordered in any run, from any state. */
  lemma RefinesQueue<T>(regs: seq<Regs<T>>, cycles: seq<Cycle<T>>)
    requires IsRun(regs, cycles)
    ensures var n := |cycles|;
            Stored(regs[0]) + Flatten(seq(n, i requires 0 <= i < n => Accepted(regs[i], cycles[i])))
            == Flatten(seq(n, i requires 0 <= i < n => Delivered(regs[i], cycles[i]))) + Stored(regs[n])
  {
    var n := |cycles|;
    var stored := seq(n + 1, i requires 0 <= i <= n => Stored(regs[i]));
    var accepted := seq(n, i requires 0 <= i < n => Accepted(regs[i], cycles[i]));
    var delivered := seq(n, i requires 0 <= i < n => Delivered(regs[i], cycles[i]));
    forall i | 0 <= i < n ensures stored[i] + accepted[i] == delivered[i] + stored[i + 1] {
      StepConserves(regs[i], cycles[i]);
    }
    RunConserves(stored, accepted, delivered);
  }

  /** A word that is offered and refused is offered again, unchanged, whatever
      the producer does next. */
  lemma OfferIsStable<T>(r: Regs<T>, c: Cycle<T>, c': Cycle<T>)
    requires OutValid(r, c.inValid) && !c.outReady
    ensures var r' := Next(r, true, c);
            OutValid(r', c'.inValid) && OutData(r', c'.inData) == OutData(r, c.inData)
  {
  }

  class Core<T> {
    var intReadyReg: bool
    var intDataReg: T

    constructor (data: T)
      ensures State() == Regs(true, data)
    {
      intReadyReg, intDataReg := true, data;
    }

    function State(): Regs<T>
      reads this
    {
      Regs(intReadyReg, intDataReg)
    }

    method Tick(aresetn: bool, inData: T, inValid: bool, outReady: bool)
      modifies this
      ensures State() == Next(old(State()), aresetn, Cycle(inData, inValid, outReady))
    {
      var intReadyNow := intReadyReg;
      var intValidWire := !intReadyReg || inValid;
      if !aresetn {
        intReadyReg := true;
      } else if intValidWire {
        intReadyReg := outReady;
      }
      if intReadyNow {
        intDataReg := inData;
      }
    }
  }
}
