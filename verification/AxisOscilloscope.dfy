/** cores_demin/axis_oscilloscope.v: forwards samples from the start of a recording
    until a set number after the trigger, rounded to blocks of 64. */
module AxisOscilloscope {

  import opened Arithmetic

  /** The two constant settings, and the size of the counter in blocks of 64: it has
      at least the six bits that the core reads from it. */
  datatype Params = Params(blocks: nat, preData: nat, totData: nat) {
    /** 2 to the counter width */
    function Size(): nat { 64 * blocks }

    /** The truncation of a sum of two counter values to the counter width */
    function Truncate(n: nat): nat { if n < Size() then n else n - Size() }
  }

  ghost predicate Sized(p: Params) { p.blocks > 0 && p.preData < p.Size() && p.totData < p.Size() }

  datatype Regs = Regs(addr: nat, cntr: nat, run: bool, pre: bool, trg: bool, tot: bool)

  const RESET := Regs(0, 0, false, false, false, false)

  datatype Cycle = Cycle(runFlag: bool, trgFlag: bool, tvalid: bool)

  /** The sample of this cycle is the one the trigger falls on. */
  function Triggers(r: Regs, c: Cycle): bool { r.run && c.tvalid && !r.tot && r.trg }

  function Next(p: Params, r: Regs, c: Cycle): Regs
    requires Sized(p)
  {
    if r.run then
      Regs(
        if Triggers(r, c) then r.cntr else r.addr,
        if Triggers(r, c) then p.Truncate(p.preData + r.cntr % 64)
        else if c.tvalid then p.Truncate(r.cntr + 1)
        else r.cntr,
        !(c.tvalid && r.tot && r.cntr == p.totData),
        r.pre || (c.tvalid && r.cntr == p.preData),
        r.trg || (r.pre && c.trgFlag),
        r.tot || Triggers(r, c))
    else if c.runFlag then RESET.(run := true)
    else r
  }

  /** The core with the number of samples it forwarded in the current recording, how
      many of them came before the one the trigger fell on, and the clocks of the
      recording. */
  datatype System = System(r: Regs, forwarded: nat, beforeTrigger: nat, clocks: seq<Cycle>)

  function Step(p: Params, s: System, c: Cycle): System
    requires Sized(p)
  {
    System(
      Next(p, s.r, c),
      if s.r.run then (if c.tvalid then s.forwarded + 1 else s.forwarded) else if c.runFlag then 0 else s.forwarded,
      if Triggers(s.r, c) then s.forwarded else s.beforeTrigger,
      if s.r.run then s.clocks + [c] else if c.runFlag then [] else s.clocks)
  }

  function Run(p: Params, cycles: seq<Cycle>): System
    requires Sized(p)
  {
    if cycles == [] then System(RESET, 0, 0, [])
    else Step(p, Run(p, cycles[..|cycles| - 1]), cycles[|cycles| - 1])
  }

  /** How often a counter at `from` counts up before it shows `to`. */
  function Distance(p: Params, from: nat, to: nat): (d: nat)
    requires from < p.Size() && to < p.Size()
    ensures d < p.Size()
  {
    if from <= to then to - from else to + p.Size() - from
  }

  /** The count that stands for the trigger sample, which is number n: the setting
      plus the offset of the sample in its block of 64. */
  function Restart(p: Params, n: nat): (b: nat)
    requires Sized(p)
    ensures b < p.Size()
  {
    p.Truncate(p.preData + n % 64)
  }

  /** Samples from the trigger sample on. */
  function After(p: Params, n: nat): nat
    requires Sized(p)
  {
    Distance(p, Restart(p, n), p.totData) + 2
  }

  ghost predicate Inv(p: Params, s: System)
    requires Sized(p)
  {
    var r := s.r;
    && r.cntr < p.Size() && (!r.tot ==> r.addr == 0)
    && (r.tot ==> s.beforeTrigger >= p.preData + 1 && r.addr == s.beforeTrigger % p.Size())
    && (r.trg && !r.tot && r.run ==> s.forwarded >= p.preData + 1)
    && (r.pre && r.run && !r.tot ==> s.forwarded >= p.preData + 1)
    && (r.run && !r.tot ==> r.cntr == s.forwarded % p.Size())
    && (r.run && r.tot ==>
          s.forwarded + Distance(p, r.cntr, p.totData) + 1 == s.beforeTrigger + After(p, s.beforeTrigger))
    && (!r.run && r.tot ==> s.forwarded == s.beforeTrigger + After(p, s.beforeTrigger))
  }

  lemma {:induction false} BlockOffset(n: nat, blocks: nat)
    requires blocks > 0
    ensures n % (64 * blocks) % 64 == n % 64
    ensures n % (64 * blocks) <= n
  {
    BlockRemainder(n, blocks, n / (64 * blocks), n % (64 * blocks));
  }

  lemma {:induction false} BlockRemainder(n: nat, blocks: nat, q: nat, r: nat)
    requires n == 64 * blocks * q + r
    ensures r % 64 == n % 64 && r <= n
  {
    SameModulo64(n, r, blocks * q);
    assert blocks * q >= 0;
  }

  lemma {:induction false} InvStep(p: Params, s: System, c: Cycle)
    requires Sized(p) && Inv(p, s)
    ensures Inv(p, Step(p, s, c))
  {
    BlockOffset(s.forwarded, p.blocks);
    ModSuccessor(s.forwarded, p.Size());
  }

  lemma {:induction false} RunInv(p: Params, cycles: seq<Cycle>)
    requires Sized(p)
    ensures Inv(p, Run(p, cycles))
  {
    if cycles != [] {
      RunInv(p, cycles[..|cycles| - 1]);
      InvStep(p, Run(p, cycles[..|cycles| - 1]), cycles[|cycles| - 1]);
    }
  }

  lemma TotalModulo64(p: Params, n: nat)
    requires Sized(p)
    ensures (n + After(p, n)) % 64 == (p.totData - p.preData + 2) % 64
  {
    var rest, b := p.totData - p.preData + 2, p.preData + n % 64;
    assert n == 64 * (n / 64) + n % 64;
    var wraps := (if b < p.Size() then 0 else 1) + (if Restart(p, n) <= p.totData then 0 else 1);
    SameModulo64(n + After(p, n), rest, n / 64 + wraps * p.blocks);
  }

  lemma SameModulo64(a: int, b: int, k: int)
    requires a == b + 64 * k
    ensures a % 64 == b % 64
  {
  }

  // ---------- What the inputs of a recording make of it ----------

  datatype Option<T> = None | Some(value: T)

  /** The samples in these clocks. */
  function Samples(cs: seq<Cycle>): nat {
    if cs == [] then 0 else Samples(cs[..|cs| - 1]) + if cs[|cs| - 1].tvalid then 1 else 0
  }

  /** The trigger input was high in a clock before which more than pre_data samples had
      been seen. */
  function Triggered(p: Params, cs: seq<Cycle>): bool {
    cs != [] && (Triggered(p, cs[..|cs| - 1]) || (cs[|cs| - 1].trgFlag && Samples(cs[..|cs| - 1]) > p.preData))
  }

  /** The number of the first sample after the first such clock. */
  function TriggerSample(p: Params, cs: seq<Cycle>): Option<nat> {
    if cs == [] then None
    else
      var before, c := cs[..|cs| - 1], cs[|cs| - 1];
      if TriggerSample(p, before).Some? then TriggerSample(p, before)
      else if c.tvalid && Triggered(p, before) then Some(Samples(before))
      else None
  }

  /** All samples up to the last one after the trigger have been seen. */
  predicate Over(p: Params, cs: seq<Cycle>)
    requires Sized(p)
  {
    var n := TriggerSample(p, cs);
    n.Some? && Samples(cs) >= n.value + After(p, n.value)
  }

  /** The flags and the counts are what the inputs since the start of the recording say. */
  ghost predicate Tracks(p: Params, s: System)
    requires Sized(p)
  {
    var r, cs := s.r, s.clocks;
    && s.forwarded == Samples(cs)
    && TriggerSample(p, cs) == (if r.tot then Some(s.beforeTrigger) else None)
    && (r.run && !r.tot ==> r.trg == Triggered(p, cs) && r.pre == (Samples(cs) > p.preData))
    && (r.run ==> !Over(p, cs))
    && (!r.run ==> if r.tot then Over(p, cs) else cs == [])
  }

  lemma ClocksNext(p: Params, cs: seq<Cycle>, c: Cycle)
    ensures Samples(cs + [c]) == Samples(cs) + if c.tvalid then 1 else 0
    ensures Triggered(p, cs + [c]) == (Triggered(p, cs) || (c.trgFlag && Samples(cs) > p.preData))
    ensures TriggerSample(p, cs + [c]) ==
            if TriggerSample(p, cs).Some? then TriggerSample(p, cs)
            else if c.tvalid && Triggered(p, cs) then Some(Samples(cs)) else None
  {
    assert (cs + [c])[..|cs|] == cs;
  }

  lemma {:induction false} TracksStep(p: Params, s: System, c: Cycle)
    requires Sized(p) && Inv(p, s) && Tracks(p, s) && Inv(p, Step(p, s, c))
    ensures Tracks(p, Step(p, s, c))
  {
    ClocksNext(p, s.clocks, c);
    BlockOffset(s.forwarded, p.blocks);
    if s.forwarded <= p.preData {
      SmallMod(s.forwarded, p.Size());
    }
  }

  lemma {:induction false} RunTracks(p: Params, cycles: seq<Cycle>)
    requires Sized(p)
    ensures Inv(p, Run(p, cycles)) && Tracks(p, Run(p, cycles))
  {
    if cycles != [] {
      var s := Run(p, cycles[..|cycles| - 1]);
      RunTracks(p, cycles[..|cycles| - 1]);
      InvStep(p, s, cycles[|cycles| - 1]);
      TracksStep(p, s, cycles[|cycles| - 1]);
    }
  }

  predicate OverAfter(p: Params, cs: seq<Cycle>, k: nat)
    requires Sized(p) && k <= |cs|
  {
    Over(p, cs[..k])
  }

  /** ... not before the last of these clocks. */
  ghost predicate NotOver(p: Params, cs: seq<Cycle>)
    requires Sized(p)
  {
    forall k: nat :: k < |cs| ==> !OverAfter(p, cs, k)
  }

  lemma RunMore(p: Params, cycles: seq<Cycle>, c: Cycle)
    requires Sized(p)
    ensures Run(p, cycles + [c]) == Step(p, Run(p, cycles), c)
  {
    assert (cycles + [c])[..|cycles|] == cycles;
  }

  lemma Starts(p: Params, before: seq<Cycle>, start: Cycle)
    requires Sized(p) && !Run(p, before).r.run && start.runFlag
    ensures var s := Run(p, before + [start]); s.r.run && s.clocks == []
  {
    RunMore(p, before, start);
  }

  /** The clocks of a recording are those from its start on that it takes to be over. */
  lemma {:induction false} ClocksAre(p: Params, begun: seq<Cycle>, cs: seq<Cycle>)
    requires Sized(p) && Run(p, begun).r.run && Run(p, begun).clocks == [] && NotOver(p, cs)
    ensures var s := Run(p, begun + cs); s.clocks == cs && (s.r.run || s.r.tot)
  {
    if cs == [] {
      assert begun + cs == begun;
    } else {
      var front, last := cs[..|cs| - 1], cs[|cs| - 1];
      FrontNotOver(p, cs, front);
      ClocksAre(p, begun, front);
      RunTracks(p, begun + front);
      ClocksGrow(p, Run(p, begun + front), last);
      RunMore(p, begun + front, last);
      assert begun + cs == begun + front + [last] && cs == front + [last];
    }
  }

  lemma ClocksGrow(p: Params, s: System, c: Cycle)
    requires Sized(p) && Tracks(p, s) && (s.r.run || s.r.tot) && !Over(p, s.clocks)
    ensures var s' := Step(p, s, c); s'.clocks == s.clocks + [c] && (s'.r.run || s'.r.tot)
  {
  }

  lemma FrontNotOver(p: Params, cs: seq<Cycle>, front: seq<Cycle>)
    requires Sized(p) && NotOver(p, cs) && cs != [] && front == cs[..|cs| - 1]
    ensures NotOver(p, front) && !Over(p, front)
  {
    assert !OverAfter(p, cs, |front|);
    forall k: nat | k < |front| ensures !OverAfter(p, front, k) {
      assert front[..k] == cs[..k] && !OverAfter(p, cs, k);
    }
  }

  /** A recording as its inputs make it. It starts at run_flag. The trigger falls on the
      first sample after the first clock with trg_flag high and more than pre_data
      samples seen; without such a clock it goes on. It ends exactly with the last
      sample after the trigger, and the status shows the trigger sample's number. */
  lemma {:induction false} RecordsAsAsked(p: Params, before: seq<Cycle>, start: Cycle, cs: seq<Cycle>)
    requires Sized(p) && !Run(p, before).r.run && start.runFlag && NotOver(p, cs)
    ensures var s, n := Run(p, before + [start] + cs), TriggerSample(p, cs);
            && s.forwarded == Samples(cs)
            && (s.r.run <==> n.None? || Samples(cs) < n.value + After(p, n.value))
            && (s.r.tot <==> n.Some?) && (n.None? ==> s.r.addr == 0)
            && (n.Some? ==> s.beforeTrigger == n.value > p.preData && s.r.addr == n.value % p.Size())
            && (!s.r.run ==> s.forwarded == n.value + After(p, n.value))
  {
    Starts(p, before, start);
    ClocksAre(p, before + [start], cs);
    RunTracks(p, before + [start] + cs);
  }

  /** With the trigger input low throughout a recording never ends. */
  lemma {:induction false} NeverEndsUntriggered(p: Params, before: seq<Cycle>, start: Cycle, cs: seq<Cycle>)
    requires Sized(p) && !Run(p, before).r.run && start.runFlag && forall k :: 0 <= k < |cs| ==> !cs[k].trgFlag
    ensures Run(p, before + [start] + cs).r.run && Run(p, before + [start] + cs).forwarded == Samples(cs)
  {
    forall k: nat | k <= |cs| ensures TriggerSample(p, cs[..k]).None? {
      Untriggered(p, cs[..k]);
    }
    assert cs[..|cs|] == cs;
    RecordsAsAsked(p, before, start, cs);
  }

  lemma {:induction false} Untriggered(p: Params, cs: seq<Cycle>)
    requires forall k :: 0 <= k < |cs| ==> !cs[k].trgFlag
    ensures !Triggered(p, cs) && TriggerSample(p, cs).None?
  {
    if cs != [] {
      Untriggered(p, cs[..|cs| - 1]);
    }
  }

  /** A completed recording, for all settings, trigger times and sample gaps: at
      least pre_data + 1 samples came before the trigger, and the total modulo 64
      does not depend on when it came. */
  lemma {:induction false} Aligned(p: Params, cycles: seq<Cycle>)
    requires Sized(p) && !Run(p, cycles).r.run && Run(p, cycles).r.tot
    ensures var s := Run(p, cycles);
            && TriggerSample(p, s.clocks) == Some(s.beforeTrigger) && s.beforeTrigger >= p.preData + 1
            && s.forwarded == Samples(s.clocks)
            && s.forwarded % 64 == (p.totData - p.preData + 2) % 64
            && s.r.addr == s.beforeTrigger % p.Size()
  {
    RunTracks(p, cycles);
    TotalModulo64(p, Run(p, cycles).beforeTrigger);
  }

  /** With tot_data at least 63 above pre_data a recording has exactly the whole
      blocks of 64 before the trigger and tot_data - pre_data + 2 more samples. */
  lemma {:induction false} RecordsWholeBlocks(p: Params, cycles: seq<Cycle>)
    requires Sized(p) && p.totData >= p.preData + 63
    requires !Run(p, cycles).r.run && Run(p, cycles).r.tot
    ensures var cs := Run(p, cycles).clocks; var n := TriggerSample(p, cs);
            n.Some? && Samples(cs) == 64 * (n.value / 64) + p.totData - p.preData + 2
  {
    RunTracks(p, cycles);
  }

  class Core {
    const p: Params
    var intAddrReg: nat
    var intCntrReg: nat
    var intRunReg: bool
    var intPreReg: bool
    var intTrgReg: bool
    var intTotReg: bool

    constructor (p: Params)
      ensures this.p == p && State() == RESET
    {
      this.p := p;
      intAddrReg, intCntrReg := 0, 0;
      intRunReg, intPreReg, intTrgReg, intTotReg := false, false, false, false;
    }

    function State(): Regs
      reads this
    {
      Regs(intAddrReg, intCntrReg, intRunReg, intPreReg, intTrgReg, intTotReg)
    }

    method Tick(aresetn: bool, c: Cycle) returns (mAxisTvalid: bool)
      requires Sized(p)
      modifies this
      ensures mAxisTvalid == (old(intRunReg) && c.tvalid)
      ensures State() == if aresetn then Next(p, old(State()), c) else RESET
    {
      mAxisTvalid := intRunReg && c.tvalid;
      var cntr, pre, trg, tot := intCntrReg, intPreReg, intTrgReg, intTotReg;
      if !aresetn {
        intAddrReg, intCntrReg := 0, 0;
        intRunReg, intPreReg, intTrgReg, intTotReg := false, false, false, false;
      } else if intRunReg {
        if pre && c.trgFlag {
          intTrgReg := true;
        }
        if c.tvalid {
          intCntrReg := p.Truncate(cntr + 1);
          if cntr == p.preData {
            intPreReg := true;
          }
          if !tot && trg {
            intAddrReg := cntr;
            intCntrReg := p.Truncate(p.preData + cntr % 64);
            intTotReg := true;
          }
          if tot && cntr == p.totData {
            intRunReg := false;
          }
        }
      } else if c.runFlag {
        intAddrReg, intCntrReg := 0, 0;
        intRunReg, intPreReg, intTrgReg, intTotReg := true, false, false, false;
      }
    }
  }
}
