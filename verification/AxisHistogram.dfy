/** cores_demin/axis_histogram.v: counts samples in a block RAM, one read-modify-write
    of three cycles per sample. */
module AxisHistogram {
  import opened Arithmetic

  /** The number of bins and the largest count, 2 to the data width less one. */
  datatype Params = Params(bins: nat, top: nat)

  datatype Regs = Regs(addr: nat, data: nat, phase: nat, tready: bool, we: bool)

  const RESET := Regs(0, 0, 0, true, false)

  /** What the producer drives; `stale` is what the BRAM shows after a write, which
      depends on its write mode. */
  datatype Cycle = Cycle(tdata: nat, tvalid: bool, stale: nat)

  function Next(p: Params, r: Regs, c: Cycle, rdata: nat): Regs
    requires p.bins > 0
  {
    if r.phase == 0 then
      if c.tvalid then r.(addr := c.tdata % p.bins, tready := false, phase := 1) else r
    else if r.phase == 1 then r.(data := (rdata + 1) % (p.top + 1), we := rdata != p.top, phase := 2)
    else if r.phase == 2 then r.(tready := true, we := false, phase := 0)
    else r
  }

  /** b_bram_en and b_bram_addr */
  function BramEnable(r: Regs, c: Cycle): bool { r.we || c.tvalid }

  function BramAddress(p: Params, r: Regs, c: Cycle): nat
    requires p.bins > 0
  {
    if r.we then r.addr else c.tdata % p.bins
  }

  /** The core, the BRAM and its output register, and the bins of the samples taken. */
  datatype System = System(r: Regs, mem: seq<nat>, rdata: nat, accepted: seq<nat>)

  ghost predicate Sized(p: Params, s: System) { p.bins > 0 && |s.mem| == p.bins && s.r.addr < p.bins }

  function Step(p: Params, s: System, c: Cycle): (s': System)
    requires Sized(p, s)
    ensures Sized(p, s')
  {
    var address := BramAddress(p, s.r, c);
    System(
      Next(p, s.r, c, s.rdata),
      if s.r.we then s.mem[address := s.r.data] else s.mem,
      if s.r.we then c.stale else if BramEnable(s.r, c) then s.mem[address] else s.rdata,
      s.accepted + if s.r.tready && c.tvalid then [c.tdata % p.bins] else [])
  }

  function Run(p: Params, mem: seq<nat>, rdata: nat, cycles: seq<Cycle>): (s: System)
    requires p.bins > 0 && |mem| == p.bins
    ensures Sized(p, s)
  {
    if cycles == [] then System(RESET, mem, rdata, [])
    else Step(p, Run(p, mem, rdata, cycles[..|cycles| - 1]), cycles[|cycles| - 1])
  }

  function Occurrences(samples: seq<nat>, bin: nat): nat {
    if samples == [] then 0
    else Occurrences(samples[..|samples| - 1], bin) + if samples[|samples| - 1] == bin then 1 else 0
  }

  function Saturated(p: Params, n: nat): nat { if n < p.top then n else p.top }

  /** The memory counts the samples, on top of what it held at first. */
  ghost predicate Counts(p: Params, mem0: seq<nat>, samples: seq<nat>, mem: seq<nat>) {
    && |mem| == |mem0|
    && forall i :: 0 <= i < |mem| ==> mem[i] == Saturated(p, mem0[i] + Occurrences(samples, i))
  }

  /** The sample in progress, if any, is the last one and is not yet in the memory. */
  ghost predicate Inv(p: Params, mem0: seq<nat>, s: System)
    requires Sized(p, s)
  {
    var n := |s.accepted|;
    match s.r.phase
    case 0 => s.r.tready && !s.r.we && Counts(p, mem0, s.accepted, s.mem)
    case 1 =>
      && !s.r.tready && !s.r.we && n > 0 && s.accepted[n - 1] == s.r.addr
      && Counts(p, mem0, s.accepted[..n - 1], s.mem) && s.rdata == s.mem[s.r.addr]
    case 2 =>
      && !s.r.tready && n > 0 && s.accepted[n - 1] == s.r.addr
      && Counts(p, mem0, s.accepted[..n - 1], s.mem)
      && s.r.we == (s.mem[s.r.addr] != p.top)
      && (s.r.we ==> s.r.data == s.mem[s.r.addr] + 1)
    case _ => false
  }

  /** One more sample counted. */
  lemma {:induction false} CountsNext(p: Params, mem0: seq<nat>, samples: seq<nat>, mem: seq<nat>, bin: nat,
        mem': seq<nat>)
    requires samples != [] && bin == samples[|samples| - 1] < |mem| && Counts(p, mem0, samples[..|samples| - 1], mem)
    requires mem' == if mem[bin] != p.top then mem[bin := mem[bin] + 1] else mem
    ensures Counts(p, mem0, samples, mem')
  {
    forall i | 0 <= i < |mem'| ensures mem'[i] == Saturated(p, mem0[i] + Occurrences(samples, i)) {
      assert mem[i] == Saturated(p, mem0[i] + Occurrences(samples[..|samples| - 1], i));
    }
  }

  lemma {:induction false} InvStep(p: Params, mem0: seq<nat>, s: System, c: Cycle)
    requires Sized(p, s) && Inv(p, mem0, s)
    ensures Inv(p, mem0, Step(p, s, c))
  {
    var s' := Step(p, s, c);
    assert s.accepted + [] == s.accepted;
    if s.r.phase == 0 && c.tvalid {
      assert s'.accepted[..|s.accepted|] == s.accepted;
    } else if s.r.phase == 1 {
      assert s.rdata == Saturated(p, mem0[s.r.addr] + Occurrences(s.accepted[..|s.accepted| - 1], s.r.addr));
      if s.rdata != p.top {
        SmallMod(s.rdata + 1, p.top + 1);
      }
    } else if s.r.phase == 2 {
      CountsNext(p, mem0, s.accepted, s.mem, s.r.addr, s'.mem);
    }
  }

  lemma {:induction false} RunInv(p: Params, mem: seq<nat>, rdata: nat, cycles: seq<Cycle>)
    requires p.bins > 0 && |mem| == p.bins && forall i :: 0 <= i < |mem| ==> mem[i] <= p.top
    ensures Inv(p, mem, Run(p, mem, rdata, cycles))
  {
    if cycles != [] {
      RunInv(p, mem, rdata, cycles[..|cycles| - 1]);
      InvStep(p, mem, Run(p, mem, rdata, cycles[..|cycles| - 1]), cycles[|cycles| - 1]);
    }
  }

  /** Whenever the core is ready, every bin holds its first contents plus the number
      of samples taken with that index, up to the largest count; no matter how the
      samples arrive or what the producer shows while the core is not ready. */
  lemma {:induction false} CountsSamples(p: Params, mem: seq<nat>, rdata: nat, cycles: seq<Cycle>, bin: nat)
    requires p.bins > 0 && |mem| == p.bins && forall i :: 0 <= i < |mem| ==> mem[i] <= p.top
    requires Run(p, mem, rdata, cycles).r.tready && bin < p.bins
    ensures var s := Run(p, mem, rdata, cycles);
            s.mem[bin] == Saturated(p, mem[bin] + Occurrences(s.accepted, bin))
  {
    RunInv(p, mem, rdata, cycles);
  }

  // ---------- Progress ----------

  /** The core is ready exactly between two samples. */
  predicate InStep(r: Regs) { r.phase <= 2 && r.tready == (r.phase == 0) }

  lemma InStepNext(p: Params, r: Regs, c: Cycle, rdata: nat)
    requires p.bins > 0 && InStep(r)
    ensures InStep(Next(p, r, c, rdata))
  {
  }

  lemma RunNext(p: Params, mem: seq<nat>, rdata: nat, cycles: seq<Cycle>, c: Cycle)
    requires p.bins > 0 && |mem| == p.bins
    ensures Run(p, mem, rdata, cycles + [c]) == Step(p, Run(p, mem, rdata, cycles), c)
  {
    assert (cycles + [c])[..|cycles|] == cycles;
  }

  lemma {:induction false} RunInStep(p: Params, mem: seq<nat>, rdata: nat, cycles: seq<Cycle>)
    requires p.bins > 0 && |mem| == p.bins
    ensures InStep(Run(p, mem, rdata, cycles).r)
  {
    if cycles != [] {
      RunInStep(p, mem, rdata, cycles[..|cycles| - 1]);
    }
  }

  /** A sample keeps the core busy for exactly three clocks, whatever the bin held. */
  lemma {:induction false} ReadyAgain(p: Params, mem: seq<nat>, rdata: nat, cycles: seq<Cycle>,
        c0: Cycle, c1: Cycle, c2: Cycle)
    requires p.bins > 0 && |mem| == p.bins
    ensures var s := Run(p, mem, rdata, cycles);
            var s1, s2, s3 := Step(p, s, c0), Step(p, Step(p, s, c0), c1), Step(p, Step(p, Step(p, s, c0), c1), c2);
            && (s.r.tready || s1.r.tready || s2.r.tready)
            && (s.r.tready && c0.tvalid ==> !s1.r.tready && !s2.r.tready && s3.r.tready)
            && (s.r.tready && !c0.tvalid ==> s1.r.tready)
  {
    RunInStep(p, mem, rdata, cycles);
  }

  /** After n clocks in which a sample was offered. */
  predicate Busy(s: System, n: nat) { InStep(s.r) && s.r.phase == n % 3 && |s.accepted| == (n + 2) / 3 }

  lemma BusyStep(p: Params, s: System, c: Cycle, n: nat)
    requires Sized(p, s) && c.tvalid && Busy(s, n)
    ensures Busy(Step(p, s, c), n + 1)
  {
  }

  lemma {:induction false} RunBusy(p: Params, mem: seq<nat>, rdata: nat, cycles: seq<Cycle>)
    requires p.bins > 0 && |mem| == p.bins && forall i :: 0 <= i < |cycles| ==> cycles[i].tvalid
    ensures Busy(Run(p, mem, rdata, cycles), |cycles|)
  {
    if cycles != [] {
      var before, last := cycles[..|cycles| - 1], cycles[|cycles| - 1];
      RunBusy(p, mem, rdata, before);
      BusyStep(p, Run(p, mem, rdata, before), last, |before|);
      RunNext(p, mem, rdata, before, last);
      assert cycles == before + [last];
    }
  }

  /** A producer that always offers a sample has one taken in every third clock. */
  lemma {:induction false} OneInThree(p: Params, mem: seq<nat>, rdata: nat, cycles: seq<Cycle>)
    requires p.bins > 0 && |mem| == p.bins && forall i :: 0 <= i < |cycles| ==> cycles[i].tvalid
    ensures |Run(p, mem, rdata, cycles).accepted| == (|cycles| + 2) / 3
    ensures Run(p, mem, rdata, cycles).r.tready <==> |cycles| % 3 == 0
  {
    RunBusy(p, mem, rdata, cycles);
  }

  class Core {
    const p: Params
    var intAddrReg: nat
    var intDataReg: nat
    var intCaseReg: nat
    var intTreadyReg: bool
    var intWeReg: bool

    constructor (p: Params)
      ensures this.p == p && State() == RESET
    {
      this.p := p;
      intAddrReg, intDataReg, intCaseReg, intTreadyReg, intWeReg := 0, 0, 0, true, false;
    }

    function State(): Regs
      reads this
    {
      Regs(intAddrReg, intDataReg, intCaseReg, intTreadyReg, intWeReg)
    }

    method Tick(aresetn: bool, c: Cycle, bBramRdata: nat)
      returns (sAxisTready: bool, bBramEn: bool, bBramWe: bool, bBramAddr: nat, bBramWdata: nat)
      requires p.bins > 0
      modifies this
      ensures var r := old(State());
              && sAxisTready == r.tready && bBramEn == BramEnable(r, c) && bBramWe == r.we
              && bBramAddr == BramAddress(p, r, c) && bBramWdata == r.data
      ensures State() == if aresetn then Next(p, old(State()), c, bBramRdata) else RESET
    {
      sAxisTready, bBramEn, bBramWe := intTreadyReg, intWeReg || c.tvalid, intWeReg;
      bBramAddr := if intWeReg then intAddrReg else c.tdata % p.bins;
      bBramWdata := intDataReg;
      if !aresetn {
        intAddrReg, intDataReg, intCaseReg, intTreadyReg, intWeReg := 0, 0, 0, true, false;
      } else {
        match intCaseReg
        case 0 =>
          if c.tvalid {
            intAddrReg := c.tdata % p.bins;
            intTreadyReg := false;
            intCaseReg := 1;
          }
        case 1 =>
          intDataReg := (bBramRdata + 1) % (p.top + 1);
          intWeReg := bBramRdata != p.top;
          intCaseReg := 2;
        case 2 =>
          intTreadyReg := true;
          intWeReg := false;
          intCaseReg := 0;
        case _ =>
      }
    }
  }
}
