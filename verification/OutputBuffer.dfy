/** modules/output_buffer.v: one register stage. The valid output is a register;
    ready is passed back combinationally. */
module OutputBuffer {
  import opened Streams

  /** int_valid_reg and int_data_reg */
  datatype Regs<T> = Regs(valid: bool, data: T)

  /** What the neighbours drive in one clock cycle. */
  datatype Cycle<T> = Cycle(inData: T, inValid: bool, outReady: bool)

  function InReady<T>(r: Regs<T>, outReady: bool): bool { !r.valid || outReady }

  function Next<T>(r: Regs<T>, aresetn: bool, c: Cycle<T>): Regs<T> {
    var ready := InReady(r, c.outReady);
    Regs(
      if !aresetn then false else if ready then c.inValid else r.valid,
      if ready then c.inData else r.data)
  }

  /** The words the buffer holds: one word exactly while its output is valid. */
  function Stored<T>(r: Regs<T>): seq<T> { Moved(r.valid, r.data) }

  function Accepted<T>(r: Regs<T>, c: Cycle<T>): seq<T> {
    Moved(InReady(r, c.outReady) && c.inValid, c.inData)
  }

  function Delivered<T>(r: Regs<T>, c: Cycle<T>): seq<T> { Moved(r.valid && c.outReady, r.data) }

  /** A run after reset: the registers before every cycle and after the last one. */
  ghost predicate IsRun<T>(regs: seq<Regs<T>>, cycles: seq<Cycle<T>>) {
    && |regs| == |cycles| + 1
    && (forall i :: 0 <= i < |cycles| ==> regs[i + 1] == Next(regs[i], true, cycles[i]))
  }

  lemma StepConserves<T>(r: Regs<T>, c: Cycle<T>)
    ensures Stored(r) + Accepted(r, c) == Delivered(r, c) + Stored(Next(r, true, c))
  {
  }

  /** No word is lost, duplicated or reordered in any run, from any state. */
  lemma RefinesQueue<T>(regs: seq<Regs<T>>, cycles: seq<Cycle<T>>)
    requires IsRun(regs, cycles)
    ensures var n := |cycles|;
            Stored(regs[0]) + Flatten(seq(n, i requires 0 <= i < n => Accepted(regs[i], cycles[i])))
            == Flatten(seq(n, i requires 0 <= i < n => Delivered(regs[i], cycles[i]))) + Stored(regs[n])
  {
    var n := |cycles|;
    var stored := seq(n + 1, i requires 0 <= i <= n => Stored(regs[i]));
    var accepted := seq(n, i requires 0 <= i < n => Accepted(regs[i], cycles[i]));
    var delivered := seq(n, i requires 0 <= i < n => Delivered(regs[i], cycles[i]));
    forall i | 0 <= i < n ensures stored[i] + accepted[i] == delivered[i] + stored[i + 1] {
      StepConserves(regs[i], cycles[i]);
    }
    RunConserves(stored, accepted, delivered);
  }

  class Core<T> {
    var intValidReg: bool
    var intDataReg: T

    constructor (data: T)
      ensures State() == Regs(false, data)
    {
      intValidReg, intDataReg := false, data;
    }

    function State(): Regs<T>
      reads this
    {
      Regs(intValidReg, intDataReg)
    }

    method Tick(aresetn: bool, inData: T, inValid: bool, outReady: bool)
      modifies this
      ensures State() == Next(old(State()), aresetn, Cycle(inData, inValid, outReady))
    {
      var intReadyWire := !intValidReg || outReady;
      if !aresetn {
        intValidReg := false;
      } else if intReadyWire {
        intValidReg := inValid;
      }
      if intReadyWire {
        intDataReg := inData;
      }
    }
  }
}
