/** cores_demin/axis_bram_reader.v: streams bram[0..cfg_data]. The first pipeline
    stage keeps only the last flag; the output register of the BRAM, clocked by the
    same enable, stands in for its data. */
module AxisBramReader {
  import opened Streams
  import opened Arithmetic
  import InputBuffer
  import OutputBuffer
  import Sequencer

  datatype Beat<T> = Beat(last: bool, data: T)

  /** The registers of the core, and the output register of the BRAM it reads. */
  datatype Regs<T> = Regs(
    addr: Sequencer.Regs,
    buf0: OutputBuffer.Regs<bool>,
    buf1: InputBuffer.Regs<Beat<T>>,
    buf2: OutputBuffer.Regs<Beat<T>>,
    rdata: T)

  /** int_ready_wire[2], [1] and [0] */
  function Ready2<T>(r: Regs<T>, mready: bool): bool { OutputBuffer.InReady(r.buf2, mready) }
  function Ready1<T>(r: Regs<T>): bool { r.buf1.ready }
  function Ready0<T>(r: Regs<T>): bool { OutputBuffer.InReady(r.buf0, Ready1(r)) }

  function Cycle0<T>(r: Regs<T>): OutputBuffer.Cycle<bool> {
    OutputBuffer.Cycle(!Sequencer.Comp(r.addr), r.addr.enbl, Ready1(r))
  }

  function Cycle1<T>(r: Regs<T>, mready: bool): InputBuffer.Cycle<Beat<T>> {
    InputBuffer.Cycle(Beat(r.buf0.data, r.rdata), r.buf0.valid, Ready2(r, mready))
  }

  function Cycle2<T>(r: Regs<T>, mready: bool): OutputBuffer.Cycle<Beat<T>> {
    var c := Cycle1(r, mready);
    OutputBuffer.Cycle(InputBuffer.OutData(r.buf1, c.inData), InputBuffer.OutValid(r.buf1, c.inValid), mready)
  }

  /** One clock. b_bram_en is int_ready_wire[0]. */
  function Next<T>(continuous: bool, cfg: nat, mem: nat -> T, r: Regs<T>, aresetn: bool, mready: bool): Regs<T> {
    Regs(
      if aresetn then Sequencer.Next(continuous, cfg, r.addr, Ready0(r)) else Sequencer.RESET,
      OutputBuffer.Next(r.buf0, aresetn, Cycle0(r)),
      InputBuffer.Next(r.buf1, aresetn, Cycle1(r, mready)),
      OutputBuffer.Next(r.buf2, aresetn, Cycle2(r, mready)),
      if Ready0(r) then mem(r.addr.cntr) else r.rdata)
  }

  /** The state a reset leaves behind: the data registers keep arbitrary values. */
  ghost predicate IsReset<T>(r: Regs<T>) {
    r.addr == Sequencer.RESET && !r.buf0.valid && r.buf1.ready && !r.buf2.valid
  }

  lemma ResetResets<T>(continuous: bool, cfg: nat, mem: nat -> T, r: Regs<T>, mready: bool)
    ensures IsReset(Next(continuous, cfg, mem, r, false, mready))
  {
  }

  function Run<T>(continuous: bool, cfg: nat, mem: nat -> T, r0: Regs<T>, mready: seq<bool>): Regs<T> {
    if mready == [] then r0
    else Next(continuous, cfg, mem, Run(continuous, cfg, mem, r0, mready[..|mready| - 1]), true, mready[|mready| - 1])
  }

  /** The beats the consumer has taken. */
  function Delivered<T>(continuous: bool, cfg: nat, mem: nat -> T, r0: Regs<T>, mready: seq<bool>): seq<Beat<T>> {
    if mready == [] then []
    else
      var before := mready[..|mready| - 1];
      var r := Run(continuous, cfg, mem, r0, before);
      Delivered(continuous, cfg, mem, r0, before) + Moved(r.buf2.valid && mready[|mready| - 1], r.buf2.data)
  }

  /** Beat i of the stream the memory contents stand for. */
  function StreamBeat<T>(cfg: nat, mem: nat -> T, i: nat): Beat<T> {
    Beat(i % (cfg + 1) == cfg, mem(i % (cfg + 1)))
  }

  function Stream<T>(cfg: nat, mem: nat -> T, n: nat): seq<Beat<T>> {
    seq(n, i requires 0 <= i < n => StreamBeat(cfg, mem, i))
  }

  /** The beats inside the pipeline, oldest first. */
  function InFlight<T>(r: Regs<T>): seq<Beat<T>> {
    OutputBuffer.Stored(r.buf2) + InputBuffer.Stored(r.buf1) + Moved(r.buf0.valid, Beat(r.buf0.data, r.rdata))
  }

  /** What every reachable state satisfies, with n beats read so far: the delivered
      beats and those in flight are the first n of the stream, and from the fourth
      cycle on the pipeline has a bubble only when there is nothing more to read. */
  ghost predicate Inv<T>(continuous: bool, cfg: nat, mem: nat -> T, cycles: nat, n: nat, r: Regs<T>,
                         out: seq<Beat<T>>)
  {
    && Sequencer.Phase(continuous, cfg, cycles, n, r.addr)
    && out + InFlight(r) == Stream(cfg, mem, n)
    && Full(cycles, r)
  }

  ghost predicate Full<T>(cycles: nat, r: Regs<T>) {
    && (!r.buf1.ready ==> r.buf2.valid)
    && (cycles <= 2 ==> !r.buf0.valid && r.buf1.ready)
    && (cycles <= 3 ==> !r.buf2.valid)
    && (cycles >= 3 ==> r.buf0.valid || !r.addr.enbl)
    && (cycles >= 4 ==> r.buf2.valid || (!r.buf0.valid && !r.addr.enbl))
  }

  lemma IssuedBeat<T>(continuous: bool, cfg: nat, mem: nat -> T, cycles: nat, n: nat, r: Sequencer.Regs)
    requires cfg >= 1 && Sequencer.Phase(continuous, cfg, cycles, n, r) && r.enbl
    ensures Stream(cfg, mem, n + 1) == Stream(cfg, mem, n) + [Beat(!Sequencer.Comp(r), mem(r.cntr))]
  {
    if !continuous {
      UniqueDivision(n, cfg + 1, 0, n);
    }
  }

  /** The pipeline as a queue: what is read enters at the back, what the consumer
      takes leaves at the front. */
  lemma FlightStep<T>(continuous: bool, cfg: nat, mem: nat -> T, r: Regs<T>, mready: bool)
    ensures InFlight(r) + Moved(Ready0(r) && r.addr.enbl, Beat(!Sequencer.Comp(r.addr), mem(r.addr.cntr)))
            == Moved(r.buf2.valid && mready, r.buf2.data) + InFlight(Next(continuous, cfg, mem, r, true, mready))
  {
    var r' := Next(continuous, cfg, mem, r, true, mready);
    InputBuffer.StepConserves(r.buf1, Cycle1(r, mready));
    OutputBuffer.StepConserves(r.buf2, Cycle2(r, mready));
    assert InputBuffer.Delivered(r.buf1, Cycle1(r, mready)) == OutputBuffer.Accepted(r.buf2, Cycle2(r, mready));
    Stage0Step(continuous, cfg, mem, r, mready);
  }

  /** The first stage alone: last flag in buf_0, data in the BRAM output register. */
  lemma Stage0Step<T>(continuous: bool, cfg: nat, mem: nat -> T, r: Regs<T>, mready: bool)
    ensures var r' := Next(continuous, cfg, mem, r, true, mready);
            Moved(r.buf0.valid, Beat(r.buf0.data, r.rdata))
            + Moved(Ready0(r) && r.addr.enbl, Beat(!Sequencer.Comp(r.addr), mem(r.addr.cntr)))
            == InputBuffer.Accepted(r.buf1, Cycle1(r, mready)) + Moved(r'.buf0.valid, Beat(r'.buf0.data, r'.rdata))
  {
  }

  lemma FullStep<T>(continuous: bool, cfg: nat, mem: nat -> T, cycles: nat, r: Regs<T>, mready: bool)
    requires Full(cycles, r)
    requires cycles >= 2 ==> r.addr.enbl || !Sequencer.Comp(r.addr)
    requires cycles <= 1 ==> !r.addr.enbl
    ensures Full(cycles + 1, Next(continuous, cfg, mem, r, true, mready))
  {
  }

  lemma {:induction false} StreamStep<T>(continuous: bool, cfg: nat, mem: nat -> T, cycles: nat, n: nat, r: Regs<T>,
                      out: seq<Beat<T>>, mready: bool)
    requires cfg >= 1 && Sequencer.Phase(continuous, cfg, cycles, n, r.addr)
    requires out + InFlight(r) == Stream(cfg, mem, n)
    ensures out + Moved(r.buf2.valid && mready, r.buf2.data) + InFlight(Next(continuous, cfg, mem, r, true, mready))
            == Stream(cfg, mem, n + if Ready0(r) && r.addr.enbl then 1 else 0)
  {
    var r' := Next(continuous, cfg, mem, r, true, mready);
    var issued := Moved(Ready0(r) && r.addr.enbl, Beat(!Sequencer.Comp(r.addr), mem(r.addr.cntr)));
    var moved := Moved(r.buf2.valid && mready, r.buf2.data);
    if Ready0(r) && r.addr.enbl {
      IssuedBeat(continuous, cfg, mem, cycles, n, r.addr);
    }
    FlightStep(continuous, cfg, mem, r, mready);
    Regroup(out, moved, InFlight(r'));
    Regroup(out, InFlight(r), issued);
  }

  lemma {:induction false} InvStep<T>(continuous: bool, cfg: nat, mem: nat -> T, cycles: nat, n: nat, r: Regs<T>,
                   out: seq<Beat<T>>, mready: bool)
    requires cfg >= 1 && Inv(continuous, cfg, mem, cycles, n, r, out)
    ensures Inv(continuous, cfg, mem, cycles + 1, n + (if Ready0(r) && r.addr.enbl then 1 else 0),
                Next(continuous, cfg, mem, r, true, mready), out + Moved(r.buf2.valid && mready, r.buf2.data))
  {
    Sequencer.PhaseStep(continuous, cfg, cycles, n, r.addr, Ready0(r));
    StreamStep(continuous, cfg, mem, cycles, n, r, out, mready);
    FullStep(continuous, cfg, mem, cycles, r, mready);
  }

  lemma {:induction false} RunInv<T>(continuous: bool, cfg: nat, mem: nat -> T, r0: Regs<T>, mready: seq<bool>)
    returns (n: nat)
    requires cfg >= 1 && IsReset(r0)
    ensures Inv(continuous, cfg, mem, |mready|, n, Run(continuous, cfg, mem, r0, mready),
                Delivered(continuous, cfg, mem, r0, mready))
  {
    if mready == [] {
      n := 0;
    } else {
      var before := mready[..|mready| - 1];
      var r := Run(continuous, cfg, mem, r0, before);
      var n0 := RunInv(continuous, cfg, mem, r0, before);
      InvStep(continuous, cfg, mem, |before|, n0, r, Delivered(continuous, cfg, mem, r0, before), mready[|mready| - 1]);
      n := n0 + if Ready0(r) && r.addr.enbl then 1 else 0;
    }
  }

  /** Once the pipeline has filled, its output is valid until everything is out. */
  lemma OutputValid<T>(continuous: bool, cfg: nat, mem: nat -> T, cycles: nat, n: nat, r: Regs<T>, out: seq<Beat<T>>)
    requires cfg >= 1 && Inv(continuous, cfg, mem, cycles, n, r, out)
    ensures cycles <= 3 ==> !r.buf2.valid
    ensures cycles >= 4 ==> (r.buf2.valid <==> continuous || |out| <= cfg)
  {
    assert |out| + |InFlight(r)| == n;
  }

  lemma {:induction false} DeliveredCount<T>(continuous: bool, cfg: nat, mem: nat -> T, r0: Regs<T>, mready: seq<bool>)
    requires cfg >= 1 && IsReset(r0)
    ensures |Delivered(continuous, cfg, mem, r0, mready)|
            == if continuous then Sequencer.Count(mready, 4) else Min(cfg + 1, Sequencer.Count(mready, 4))
  {
    if mready != [] {
      var before := mready[..|mready| - 1];
      DeliveredCount(continuous, cfg, mem, r0, before);
      var n := RunInv(continuous, cfg, mem, r0, before);
      OutputValid(continuous, cfg, mem, |before|, n, Run(continuous, cfg, mem, r0, before),
                  Delivered(continuous, cfg, mem, r0, before));
    }
  }

  /** For every stall pattern the consumer receives bram[0..cfg_data] in order, the
      last flag on exactly the beat of address cfg_data, once or repeated for ever,
      and a beat in every ready cycle once the pipeline is full (four cycles). */
  lemma StreamsMemory<T>(continuous: bool, cfg: nat, mem: nat -> T, r0: Regs<T>, mready: seq<bool>)
    requires cfg >= 1 && IsReset(r0)
    ensures Delivered(continuous, cfg, mem, r0, mready)
            == Stream(cfg, mem, if continuous then Sequencer.Count(mready, 4)
                                else Min(cfg + 1, Sequencer.Count(mready, 4)))
  {
    var n := RunInv(continuous, cfg, mem, r0, mready);
    DeliveredCount(continuous, cfg, mem, r0, mready);
    var out := Delivered(continuous, cfg, mem, r0, mready);
    var flight := InFlight(Run(continuous, cfg, mem, r0, mready));
    assert (out + flight)[..|out|] == out;
    assert Stream(cfg, mem, n)[..|out|] == Stream(cfg, mem, |out|);
  }

  function One(b: bool): int { if b then 1 else 0 }

  /** sts_data before truncation: the address less the valid flags of the stages. */
  function Status<T>(r: Regs<T>): int {
    r.addr.cntr - One(r.buf0.valid) - One(InputBuffer.OutValid(r.buf1, r.buf0.valid)) - One(r.buf2.valid)
  }

  /** In STOP mode this is the number of beats delivered, less one while a beat shows
      through the second stage, and less one after the last address. */
  lemma {:induction false} StatusIsPosition<T>(cfg: nat, mem: nat -> T, cycles: nat, n: nat, r: Regs<T>,
                                               out: seq<Beat<T>>)
    requires cfg >= 1 && Inv(false, cfg, mem, cycles, n, r, out)
    ensures Status(r) == |out| - One(r.buf0.valid && r.buf1.ready) - One(n == cfg + 1)
  {
    assert |out| + |InFlight(r)| == n;
  }

  class Core<T> {
    const continuous: bool
    /** 2 to the address width */
    const addresses: nat
    var intAddrReg: nat
    var intDataReg: nat
    var intEnblReg: bool
    var buf0: OutputBuffer.Regs<bool>
    var buf1: InputBuffer.Regs<Beat<T>>
    var buf2: OutputBuffer.Regs<Beat<T>>

    constructor (continuous: bool, addresses: nat, data: T)
      ensures IsReset(State(data)) && this.continuous == continuous && this.addresses == addresses
    {
      this.continuous, this.addresses := continuous, addresses;
      intAddrReg, intDataReg, intEnblReg := 0, 0, false;
      buf0 := OutputBuffer.Regs(false, false);
      buf1 := InputBuffer.Regs(true, Beat(false, data));
      buf2 := OutputBuffer.Regs(false, Beat(false, data));
    }

    /** The registers, with `rdata` in the output register of the BRAM. */
    function State(rdata: T): Regs<T>
      reads this
    {
      Regs(Sequencer.Regs(intAddrReg, intDataReg, intEnblReg), buf0, buf1, buf2, rdata)
    }

    /** The combinational block that prepares the next address and enable flag. */
    method NextAddress(ghost cfgData: nat, intReadyWire0: bool) returns (intAddrNext: nat, intEnblNext: bool)
      ensures Sequencer.Regs(intAddrNext, cfgData, intEnblNext)
              == Sequencer.Next(continuous, cfgData, Sequencer.Regs(intAddrReg, intDataReg, intEnblReg), intReadyWire0)
    {
      var intCompWire := intAddrReg < intDataReg;
      intAddrNext, intEnblNext := intAddrReg, intEnblReg;
      if !intEnblReg && intCompWire {
        intEnblNext := true;
      }
      if intReadyWire0 && intEnblReg && intCompWire {
        intAddrNext := intAddrReg + 1;
      }
      if intReadyWire0 && intEnblReg && !intCompWire {
        if continuous {
          intAddrNext := 0;
        } else {
          intEnblNext := false;
        }
      }
    }

    /** The wires between the three stages. */
    method Wires(mAxisTready: bool, bBramRdata: T)
      returns (cycle0: OutputBuffer.Cycle<bool>, cycle1: InputBuffer.Cycle<Beat<T>>,
               cycle2: OutputBuffer.Cycle<Beat<T>>)
      ensures cycle0 == Cycle0(State(bBramRdata))
      ensures cycle1 == Cycle1(State(bBramRdata), mAxisTready)
      ensures cycle2 == Cycle2(State(bBramRdata), mAxisTready)
    {
      var intReadyWire2 := !buf2.valid || mAxisTready;
      var intReadyWire1 := buf1.ready;
      var intLastWire0 := !(intAddrReg < intDataReg);
      var intBeatWire1 := Beat(buf0.data, bBramRdata);
      var intBeatWire2 := if buf1.ready then intBeatWire1 else buf1.data;
      var intValidWire2 := !buf1.ready || buf0.valid;
      cycle0 := OutputBuffer.Cycle(intLastWire0, intEnblReg, intReadyWire1);
      cycle1 := InputBuffer.Cycle(intBeatWire1, buf0.valid, intReadyWire2);
      cycle2 := OutputBuffer.Cycle(intBeatWire2, intValidWire2, mAxisTready);
    }

    /** One clock. The BRAM answers its enable with the word at the address; the
        master side shows the output stage. */
    method Tick(aresetn: bool, cfgData: nat, mAxisTready: bool, bBramRdata: T, ghost mem: nat -> T)
      returns (mAxis: Beat<T>, mAxisTvalid: bool, bBramEn: bool, bBramAddr: nat, stsData: nat)
      requires addresses > 0
      modifies this
      ensures stsData == Status(old(State(bBramRdata))) % addresses
      ensures bBramEn == Ready0(old(State(bBramRdata))) && bBramAddr == old(intAddrReg)
      ensures mAxisTvalid == old(buf2).valid && mAxis == old(buf2).data
      ensures State(if bBramEn then mem(bBramAddr) else bBramRdata)
              == Next(continuous, cfgData, mem, old(State(bBramRdata)), aresetn, mAxisTready)
    {
      mAxis, mAxisTvalid := buf2.data, buf2.valid;
      bBramEn, bBramAddr := Ready0(State(bBramRdata)), intAddrReg;
      stsData := Status(State(bBramRdata)) % addresses;
      var intAddrNext, intEnblNext := NextAddress(cfgData, bBramEn);
      var cycle0, cycle1, cycle2 := Wires(mAxisTready, bBramRdata);
      buf0 := OutputBuffer.Next(buf0, aresetn, cycle0);
      buf1 := InputBuffer.Next(buf1, aresetn, cycle1);
      buf2 := OutputBuffer.Next(buf2, aresetn, cycle2);
      if !aresetn {
        intAddrReg, intDataReg, intEnblReg := 0, 0, false;
      } else {
        intAddrReg, intDataReg, intEnblReg := intAddrNext, cfgData, intEnblNext;
      }
    }
  }
}
