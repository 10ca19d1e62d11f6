/** cores_demin/axi_hub.v: the whole hub, its two channels on the same registers and
    block RAMs, and its stream outputs. */
module AxiHub {
  import opened ByteLanes
  import opened Streams
  import InoutBuffer
  import OutputBuffer
  import Rounding
  import W = AxiHubWrite
  import R = AxiHubRead

  datatype Params = Params(cfgSize: nat, stsSize: nat)

  function WriteParams(p: Params): (q: W.Params)
    ensures p.cfgSize > 0 ==> W.Valid(q)
  {
    W.Params(p.cfgSize, Span(p.cfgSize))
  }

  function ReadParams(p: Params): (q: R.Params)
    ensures R.Valid(q)
  {
    R.Params(Span(p.cfgSize), Span(p.stsSize))
  }

  function Span(size: nat): (span: nat)
    ensures span > 0 && span == Rounding.Pow2(W.Width(size))
  {
    Rounding.Pow2(W.Width(size))
  }

  /** The registers of both channels and mbuf_0 to mbuf_5 */
  datatype Regs = Regs(w: W.Regs, r: R.Regs, m: seq<InoutBuffer.Regs<Word>>)

  datatype Cycle = Cycle(w: W.Cycle, ar: R.Request, arvalid: bool, rready: bool, sts: seq<Word>,
                         tvalid: seq<bool>, tdata: seq<Word>, tready: seq<bool>, undefined: Word, stale: seq<Word>)

  predicate Sized(c: Cycle) { |c.tvalid| == |c.tdata| == |c.tready| == |c.stale| == R.HUB_SIZE }

  /** The cycle as the read channel sees it. */
  function ReadCycle(h: Regs, c: Cycle, mems: seq<seq<Word>>): R.Cycle {
    R.Cycle(c.ar, c.arvalid, c.rready, h.w.cfg, c.sts, c.tvalid, c.tdata, mems,
            W.WriteEnable(h.w, c.w), W.WriteOf(h.w), c.undefined, c.stale)
  }

  /** Every beat applied to its region is offered to a stream output; whether the
      buffer is ready is not looked at. */
  function MasterCycle(h: Regs, c: Cycle, j: nat): InoutBuffer.Cycle<Word>
    requires Sized(c) && j < R.HUB_SIZE
  {
    InoutBuffer.Cycle(InoutBuffer.OutData(h.w.w).data,
                      W.WriteEnable(h.w, c.w) && W.WriteOf(h.w).region == j + 2, c.tready[j])
  }

  function NextMaster(h: Regs, aresetn: bool, c: Cycle): (m: seq<InoutBuffer.Regs<Word>>)
    requires Sized(c) && |h.m| == R.HUB_SIZE
  {
    seq(R.HUB_SIZE, j requires 0 <= j < R.HUB_SIZE => InoutBuffer.Next(h.m[j], aresetn, MasterCycle(h, c, j)))
  }

  function Next(p: Params, h: Regs, aresetn: bool, c: Cycle): Regs
    requires Sized(c) && |h.m| == R.HUB_SIZE
  {
    Regs(W.Next(WriteParams(p), h.w, aresetn, c.w), R.Next(ReadParams(p), h.r, aresetn, ReadCycle(h, c, [])),
         NextMaster(h, aresetn, c))
  }

  /** The hub with its six BRAMs, the logs of both channels, and the words given by the
      stream outputs. */
  datatype System = System(w: W.System, r: R.System, m: seq<InoutBuffer.Regs<Word>>, mems: seq<seq<Word>>,
                           sent: seq<seq<Word>>)

  function RegsOf(s: System): Regs { Regs(s.w.r, s.r.r, s.m) }

  ghost predicate Whole(s: System) {
    && R.Whole(s.r) && |s.m| == |s.mems| == |s.sent| == R.HUB_SIZE
    && forall j :: 0 <= j < R.HUB_SIZE ==> |s.mems[j]| == W.WORDS
  }

  function NextMems(h: Regs, c: Cycle, mems: seq<seq<Word>>): (mems': seq<seq<Word>>)
    requires |mems| == R.HUB_SIZE
    ensures |mems'| == R.HUB_SIZE && forall j :: 0 <= j < R.HUB_SIZE ==> |mems'[j]| == |mems[j]|
  {
    if W.WriteEnable(h.w, c.w)
    then seq(R.HUB_SIZE, j requires 0 <= j < R.HUB_SIZE => Apply(mems[j], j + 2, W.WORDS, W.WriteOf(h.w)))
    else mems
  }

  function NextSent(h: Regs, c: Cycle, sent: seq<seq<Word>>): (sent': seq<seq<Word>>)
    requires Sized(c) && |h.m| == |sent| == R.HUB_SIZE
  {
    seq(R.HUB_SIZE, j requires 0 <= j < R.HUB_SIZE => sent[j] + InoutBuffer.Delivered(h.m[j], MasterCycle(h, c, j)))
  }

  function Step(p: Params, s: System, c: Cycle): (s': System)
    requires Sized(c) && Whole(s)
    ensures Whole(s')
  {
    var h := RegsOf(s);
    System(
      W.Step(WriteParams(p), s.w, c.w),
      R.Step(ReadParams(p), s.r, ReadCycle(h, c, s.mems)),
      NextMaster(h, true, c),
      NextMems(h, c, s.mems),
      NextSent(h, c, s.sent))
  }

  /** What the read channel registers depends on the BRAMs only in the next cycle. */
  lemma NextWithoutMems(q: R.Params, h: Regs, c: Cycle, mems: seq<seq<Word>>)
    requires R.Valid(q) && Sized(c)
    ensures R.Next(q, h.r, true, ReadCycle(h, c, mems)) == R.Next(q, h.r, true, ReadCycle(h, c, []))
  {
    assert R.BramSelect(h.r, ReadCycle(h, c, mems)) == R.BramSelect(h.r, ReadCycle(h, c, []));
  }

  lemma StepsRegs(p: Params, s: System, c: Cycle)
    requires Sized(c) && Whole(s)
    ensures RegsOf(Step(p, s, c)) == Next(p, RegsOf(s), true, c)
  {
    NextWithoutMems(ReadParams(p), RegsOf(s), c, s.mems);
  }

  ghost predicate AllSized(cycles: seq<Cycle>) { forall i :: 0 <= i < |cycles| ==> Sized(cycles[i]) }

  function Run(p: Params, s0: System, cycles: seq<Cycle>): (s: System)
    requires AllSized(cycles) && Whole(s0)
    ensures Whole(s)
  {
    if cycles == [] then s0 else Step(p, Run(p, s0, cycles[..|cycles| - 1]), cycles[|cycles| - 1])
  }

  /** After a reset; the memories may hold anything. */
  ghost predicate Initial(p: Params, s: System) {
    && p.cfgSize > 0 && Whole(s)
    && W.IsReset(WriteParams(p), s.w.r) && s.w == W.System(s.w.r, [], [], [], [])
    && R.Initial(s.r)
    && forall j :: 0 <= j < R.HUB_SIZE ==> s.sent[j] == InoutBuffer.Stored(s.m[j]) == []
  }

  /** A reset from any state leaves one from which all this holds. */
  lemma {:induction false} ResetResets(p: Params, h: Regs, c: Cycle, bram: seq<Word>, mems: seq<seq<Word>>)
    requires p.cfgSize > 0 && |h.w.cfg| == p.cfgSize && |h.m| == R.HUB_SIZE && Sized(c)
    requires |bram| == |mems| == R.HUB_SIZE && forall j :: 0 <= j < R.HUB_SIZE ==> |mems[j]| == W.WORDS
    ensures var h' := Next(p, h, false, c);
            Initial(p, System(W.System(h'.w, [], [], [], []), R.System(h'.r, bram, [], [], [], [], []), h'.m, mems,
                              seq(R.HUB_SIZE, _ => [])))
  {
    W.ResetResets(WriteParams(p), h.w, c.w);
    R.ResetResets(ReadParams(p), h.r, ReadCycle(h, c, []), bram);
  }

  /** The BRAMs hold what the beats applied so far leave in them. */
  ghost predicate MemoriesHold(writes: seq<Write>, mems0: seq<seq<Word>>, mems: seq<seq<Word>>) {
    && |mems0| == |mems| == R.HUB_SIZE
    && forall j :: 0 <= j < R.HUB_SIZE ==> Holds(writes, j + 2, W.WORDS, mems0[j], mems[j])
  }

  ghost predicate Memories(s0: System, s: System)
    requires Whole(s0) && Whole(s)
  {
    MemoriesHold(s.w.writes, s0.mems, s.mems)
  }

  lemma MemoriesNext(h: Regs, c: Cycle, writes: seq<Write>, mems0: seq<seq<Word>>, mems: seq<seq<Word>>)
    requires MemoriesHold(writes, mems0, mems)
    ensures MemoriesHold(writes + Moved(W.WriteEnable(h.w, c.w), W.WriteOf(h.w)), mems0, NextMems(h, c, mems))
  {
    if W.WriteEnable(h.w, c.w) {
      forall j | 0 <= j < R.HUB_SIZE
        ensures Holds(writes + [W.WriteOf(h.w)], j + 2, W.WORDS, mems0[j], NextMems(h, c, mems)[j])
      {
        HoldsNext(writes, j + 2, W.WORDS, mems0[j], mems[j], W.WriteOf(h.w));
      }
    } else {
      assert writes + [] == writes;
    }
  }

  lemma MemoriesStep(p: Params, s0: System, s: System, c: Cycle)
    requires Sized(c) && Whole(s0) && Whole(s) && Memories(s0, s)
    ensures Memories(s0, Step(p, s, c))
  {
    MemoriesNext(RegsOf(s), c, s.w.writes, s0.mems, s.mems);
  }

  ghost predicate Inv(p: Params, s0: System, s: System)
    requires Whole(s0) && Whole(s)
  {
    W.Inv(WriteParams(p), s.w) && R.Inv(s.r) && Memories(s0, s)
  }

  lemma InvStep(p: Params, s0: System, s: System, c: Cycle)
    requires Sized(c) && Whole(s0) && Whole(s) && Inv(p, s0, s)
    ensures Inv(p, s0, Step(p, s, c))
  {
    W.InvStep(WriteParams(p), s.w, c.w);
    R.InvStep(ReadParams(p), s.r, ReadCycle(RegsOf(s), c, s.mems));
    MemoriesStep(p, s0, s, c);
  }

  lemma {:induction false} RunInv(p: Params, s0: System, cycles: seq<Cycle>)
    requires AllSized(cycles) && Initial(p, s0)
    ensures Inv(p, s0, Run(p, s0, cycles))
  {
    if cycles != [] {
      RunInv(p, s0, cycles[..|cycles| - 1]);
      InvStep(p, s0, Run(p, s0, cycles[..|cycles| - 1]), cycles[|cycles| - 1]);
    } else {
      R.InitialInv(s0.r);
      W.RunInv(WriteParams(p), s0.w.r, []);
    }
  }

  /** In every run of the whole hub both channels keep their promises, and the BRAMs
      hold what the beats applied leave in them. */
  lemma {:induction false} HubKeepsPromises(p: Params, s0: System, cycles: seq<Cycle>)
    requires AllSized(cycles) && Initial(p, s0)
    ensures var s := Run(p, s0, cycles);
            W.AsAsked(WriteParams(p), s.w) && R.InOrder(s.r) && Memories(s0, s)
  {
    RunInv(p, s0, cycles);
    W.InvAsAsked(WriteParams(p), Run(p, s0, cycles).w);
    R.InvInOrder(Run(p, s0, cycles).r);
  }

  /** The hub's own write beats are what could disturb its reads. */
  ghost predicate NeverDisturbed(p: Params, s0: System, cycles: seq<Cycle>)
    requires AllSized(cycles) && Whole(s0)
  {
    cycles != [] ==>
      var s, c := Run(p, s0, cycles[..|cycles| - 1]), cycles[|cycles| - 1];
      && NeverDisturbed(p, s0, cycles[..|cycles| - 1])
      && R.Undisturbed(s.r, ReadCycle(RegsOf(s), c, s.mems))
  }

  /** Then every word given is the one meant, in order. */
  lemma {:induction false} HubReadsCorrectly(p: Params, s0: System, cycles: seq<Cycle>)
    requires AllSized(cycles) && Initial(p, s0) && NeverDisturbed(p, s0, cycles)
    ensures R.Correct(Run(p, s0, cycles).r)
  {
    if cycles != [] {
      HubReadsCorrectly(p, s0, cycles[..|cycles| - 1]);
      var s := Run(p, s0, cycles[..|cycles| - 1]);
      R.CorrectStep(ReadParams(p), s.r, ReadCycle(RegsOf(s), cycles[|cycles| - 1], s.mems));
    }
  }

  /** The data are right at every moment of a run. */
  ghost predicate AlwaysCorrect(p: Params, s0: System, cycles: seq<Cycle>)
    requires AllSized(cycles) && Whole(s0)
  {
    R.Correct(Run(p, s0, cycles).r) && (cycles != [] ==> AlwaysCorrect(p, s0, cycles[..|cycles| - 1]))
  }

  ghost predicate NeverHarmed(p: Params, s0: System, cycles: seq<Cycle>)
    requires AllSized(cycles) && Whole(s0)
  {
    cycles != [] ==>
      var s, c := Run(p, s0, cycles[..|cycles| - 1]), cycles[|cycles| - 1];
      && NeverHarmed(p, s0, cycles[..|cycles| - 1])
      && R.Harmless(s.r, ReadCycle(RegsOf(s), c, s.mems))
  }

  lemma {:induction false} RunShowing(p: Params, s0: System, cycles: seq<Cycle>)
    requires AllSized(cycles) && Initial(p, s0)
    ensures R.Showing(Run(p, s0, cycles).r)
  {
    if cycles != [] {
      RunShowing(p, s0, cycles[..|cycles| - 1]);
      var s := Run(p, s0, cycles[..|cycles| - 1]);
      R.ShowingStep(ReadParams(p), s.r, ReadCycle(RegsOf(s), cycles[|cycles| - 1], s.mems));
    }
  }

  /** The condition is exact: the data are right throughout a run of the hub if and only
      if its own write beats were harmless in every clock of it. */
  lemma {:induction false} HubReadsExactly(p: Params, s0: System, cycles: seq<Cycle>)
    requires AllSized(cycles) && Initial(p, s0)
    ensures AlwaysCorrect(p, s0, cycles) <==> NeverHarmed(p, s0, cycles)
  {
    if cycles != [] {
      var before := cycles[..|cycles| - 1];
      HubReadsExactly(p, s0, before);
      RunShowing(p, s0, before);
      var s := Run(p, s0, before);
      if R.Correct(s.r) {
        R.CorrectStepExactly(ReadParams(p), s.r, ReadCycle(RegsOf(s), cycles[|cycles| - 1], s.mems));
      }
    }
  }

  /** A beat that reads the configuration gets what the write channel has last put
      there, lane by lane. */
  lemma {:induction false} ReadsConfig(p: Params, s0: System, cycles: seq<Cycle>, c: Cycle, k: nat)
    requires AllSized(cycles) && Initial(p, s0) && Sized(c) && k < 4
    requires R.ReadRegion(Run(p, s0, cycles).r.r) == 0
    requires R.ReadAddress(Run(p, s0, cycles).r.r) % Span(p.cfgSize) < p.cfgSize
    ensures var s := Run(p, s0, cycles);
            Lane(R.Wanted(ReadParams(p), s.r.r, ReadCycle(RegsOf(s), c, s.mems)), k)
            == Latest(s.w.writes, 0, Span(p.cfgSize), R.ReadAddress(s.r.r) % Span(p.cfgSize), k, 0)
  {
    RunInv(p, s0, cycles);
    ConfigWord(p, Run(p, s0, cycles), c, k);
  }

  lemma ConfigWord(p: Params, s: System, c: Cycle, k: nat)
    requires Sized(c) && Whole(s) && k < 4
    requires Holds(s.w.writes, 0, Span(p.cfgSize), seq(p.cfgSize, _ => ZERO), s.w.r.cfg)
    requires R.ReadRegion(s.r.r) == 0 && R.ReadAddress(s.r.r) % Span(p.cfgSize) < p.cfgSize
    ensures Lane(R.Wanted(ReadParams(p), s.r.r, ReadCycle(RegsOf(s), c, s.mems)), k)
            == Latest(s.w.writes, 0, Span(p.cfgSize), R.ReadAddress(s.r.r) % Span(p.cfgSize), k, 0)
  {
    assert R.Wanted(ReadParams(p), s.r.r, ReadCycle(RegsOf(s), c, s.mems))
           == s.w.r.cfg[R.ReadAddress(s.r.r) % Span(p.cfgSize)];
  }

  /** A beat that reads the status is answered with the status word of the clock in which
      it is issued, whatever is written and whatever the BRAMs show meanwhile. */
  lemma {:induction false} ReadsStatus(p: Params, s: System, c: Cycle, bram: seq<Word>)
    requires Sized(c) && Whole(s) && |c.sts| == p.stsSize && |bram| == R.HUB_SIZE
    requires R.ReadEnable(s.r.r, ReadCycle(RegsOf(s), c, s.mems)) && R.ReadRegion(s.r.r) == 1
    requires R.ReadAddress(s.r.r) % Span(p.stsSize) < p.stsSize
    ensures var s' := Step(p, s, c);
            && s'.r.r.r.valid && s'.r.issues == s.r.issues + [s'.r.issues[|s.r.issues|]]
            && s'.r.issues[|s.r.issues|].word == R.ReadData(s'.r.r.r.data, bram)
            && R.ReadData(s'.r.r.r.data, bram) == c.sts[R.ReadAddress(s.r.r) % Span(p.stsSize)]
  {
    var h := Step(p, s, c).r.r.r.data;
    assert forall j :: 0 <= j < R.HUB_SIZE ==> !h.bsel[j];
    R.GatheredNone(h.bsel, bram);
    OrZero(h.data);
  }

  /** A beat that reads a BRAM is meant to get what the write channel has last put
      there, or what was there at first. */
  lemma {:induction false} ReadsBram(p: Params, s0: System, cycles: seq<Cycle>, c: Cycle, k: nat)
    requires AllSized(cycles) && Initial(p, s0) && Sized(c) && k < 4
    ensures var s := Run(p, s0, cycles);
            var rc, addr, region := ReadCycle(RegsOf(s), c, s.mems), R.ReadAddress(s.r.r), R.ReadRegion(s.r.r);
            R.FromBram(s.r.r, rc) ==>
              Lane(R.Wanted(ReadParams(p), s.r.r, rc), k)
              == Latest(s.w.writes, region, W.WORDS, addr, k, Lane(s0.mems[region - 2][addr], k))
  {
    RunInv(p, s0, cycles);
  }

  /** The words of the beats for one stream output. */
  function WordsFor(writes: seq<Write>, j: nat): seq<Word> {
    if writes == [] then []
    else WordsFor(writes[..|writes| - 1], j) + Moved(writes[|writes| - 1].region == j + 2, writes[|writes| - 1].data)
  }

  /** The output never met a beat while its buffer was full. */
  ghost predicate NeverFull(p: Params, s0: System, cycles: seq<Cycle>, j: nat)
    requires AllSized(cycles) && Whole(s0) && j < R.HUB_SIZE
  {
    cycles != [] ==>
      var s, c := Run(p, s0, cycles[..|cycles| - 1]), cycles[|cycles| - 1];
      && NeverFull(p, s0, cycles[..|cycles| - 1], j)
      && (MasterCycle(RegsOf(s), c, j).inValid ==> InoutBuffer.InReady(s.m[j]))
  }

  ghost predicate Sends(s: System, j: nat)
    requires Whole(s) && j < R.HUB_SIZE
  {
    s.sent[j] + InoutBuffer.Stored(s.m[j]) == WordsFor(s.w.writes, j)
  }

  lemma {:induction false} SendsStep(p: Params, s: System, c: Cycle, j: nat)
    requires Sized(c) && Whole(s) && j < R.HUB_SIZE && Sends(s, j)
    ensures Sends(Step(p, s, c), j) <==>
            (MasterCycle(RegsOf(s), c, j).inValid ==> InoutBuffer.InReady(s.m[j]))
  {
    var mc, write := MasterCycle(RegsOf(s), c, j), W.WriteOf(s.w.r);
    InoutBuffer.StepConserves(s.m[j], mc);
    var stored, acc := InoutBuffer.Stored(s.m[j]), InoutBuffer.Accepted(s.m[j], mc);
    var del := InoutBuffer.Delivered(s.m[j], mc);
    Regroup(s.sent[j], del, InoutBuffer.Stored(InoutBuffer.Next(s.m[j], true, mc)));
    Regroup(s.sent[j], stored, acc);
    if W.WriteEnable(s.w.r, c.w) {
      assert (s.w.writes + [write])[..|s.w.writes|] == s.w.writes;
    } else {
      assert s.w.writes + [] == s.w.writes;
    }
  }

  ghost predicate AlwaysSends(p: Params, s0: System, cycles: seq<Cycle>, j: nat)
    requires AllSized(cycles) && Whole(s0) && j < R.HUB_SIZE
  {
    Sends(Run(p, s0, cycles), j) && (cycles != [] ==> AlwaysSends(p, s0, cycles[..|cycles| - 1], j))
  }

  /** A stream output gives the words written to its region, in order, throughout a run
      if and only if no beat of it meets a full buffer; such a beat is lost. */
  lemma {:induction false} StreamsOut(p: Params, s0: System, cycles: seq<Cycle>, j: nat)
    requires AllSized(cycles) && Initial(p, s0) && j < R.HUB_SIZE
    ensures AlwaysSends(p, s0, cycles, j) <==> NeverFull(p, s0, cycles, j)
  {
    if cycles != [] {
      var before := cycles[..|cycles| - 1];
      StreamsOut(p, s0, before, j);
      if Sends(Run(p, s0, before), j) {
        SendsStep(p, Run(p, s0, before), cycles[|cycles| - 1], j);
      }
    }
  }

  // ---------- Both failures happen ----------

  const ALL := Strobe(true, true, true, true)

  /** A clock in which the master offers an address and a beat for it and one request,
      and takes every response; no stream has or takes a word. */
  function Offer(awaddr: nat, last: bool, araddr: nat): (c: Cycle)
    ensures Sized(c)
  {
    Cycle(W.Cycle(W.Address(0, awaddr), true, W.Beat(ALL, last, ZERO), true, true), R.Request(0, 0, araddr), true, true,
          [], seq(R.HUB_SIZE, _ => false), seq(R.HUB_SIZE, _ => ZERO), seq(R.HUB_SIZE, _ => false), ZERO,
          seq(R.HUB_SIZE, _ => ZERO))
  }

  /** The same clock n times. */
  function Repeated(c: Cycle, n: nat): (cycles: seq<Cycle>)
    requires Sized(c)
    ensures AllSized(cycles) && |cycles| == n
  {
    seq(n, _ => c)
  }

  lemma RunNext(p: Params, s0: System, cycles: seq<Cycle>, c: Cycle)
    requires AllSized(cycles) && Sized(c) && Whole(s0)
    ensures AllSized(cycles + [c]) && Run(p, s0, cycles + [c]) == Step(p, Run(p, s0, cycles), c)
  {
    assert (cycles + [c])[..|cycles|] == cycles;
  }

  lemma RunMore(p: Params, s0: System, c: Cycle, n: nat)
    requires Sized(c) && Whole(s0)
    ensures Run(p, s0, Repeated(c, n + 1)) == Step(p, Run(p, s0, Repeated(c, n)), c)
  {
    RunNext(p, s0, Repeated(c, n), c);
    assert Repeated(c, n + 1) == Repeated(c, n) + [c];
  }

  lemma RunOne(p: Params, s0: System, c: Cycle)
    requires Sized(c) && Whole(s0)
    ensures Run(p, s0, Repeated(c, 1)) == Step(p, s0, c)
  {
    RunMore(p, s0, c, 0);
    assert Repeated(c, 0) == [];
  }

  lemma {:induction false} RunTwo(p: Params, s0: System, c: Cycle)
    requires Sized(c) && Whole(s0)
    ensures Run(p, s0, Repeated(c, 2)) == Step(p, Step(p, s0, c), c)
  {
    RunOne(p, s0, c);
    RunMore(p, s0, c, 1);
  }

  ghost predicate Waiting(s: System, c: Cycle)
    requires Sized(c) && Whole(s)
  {
    && W.WriteEnable(s.w.r, c.w)
    && W.WriteOf(s.w.r) == Write(W.Region(c.w.aw.addr), W.WordAddress(c.w.aw.addr, 0), ALL, ZERO)
    && W.Last(s.w.r) == c.w.w.last && s.w.r.w.buf0.ready && !s.w.r.b.valid
    && R.ReadEnable(s.r.r, ReadCycle(RegsOf(s), c, s.mems)) && !s.r.r.r.valid
    && R.ReadRegion(s.r.r) == W.Region(c.ar.addr) && R.ReadAddress(s.r.r) == W.WordAddress(c.ar.addr, 0)
    && R.Showing(s.r) && R.Correct(s.r)
  }

  /** One clock after a reset an address, a beat and a request wait together. */
  lemma {:induction false} OfferWaits(p: Params, s0: System, awaddr: nat, last: bool, araddr: nat)
    requires Initial(p, s0)
    ensures var c := Offer(awaddr, last, araddr); var s := Step(p, s0, c);
            Waiting(s, c) && s.mems == s0.mems && s.m == NextMaster(RegsOf(s0), true, c)
  {
    var c := Offer(awaddr, last, araddr);
    W.FirstClock(WriteParams(p), s0.w.r, c.w);
    R.FirstClock(ReadParams(p), s0.r, ReadCycle(RegsOf(s0), c, s0.mems));
  }

  /** A write of one beat to word 1 of the second BRAM, and a read of word 0 of the
      first one. */
  const CROSSING := Offer(0x300_0004, true, 0x200_0000)

  lemma {:induction false} CrossingIsHarmful(s: System)
    requires Whole(s) && Waiting(s, CROSSING) && s.mems[0][0] != s.mems[0][1]
    ensures !R.Harmless(s.r, ReadCycle(RegsOf(s), CROSSING, s.mems))
  {
  }

  lemma {:induction false} CrossingHarms(p: Params, s: System)
    requires Whole(s) && Waiting(s, CROSSING) && s.mems[0][0] != s.mems[0][1]
    ensures !R.Correct(Step(p, s, CROSSING).r)
  {
    CrossingIsHarmful(s);
    R.CorrectStepExactly(ReadParams(p), s.r, ReadCycle(RegsOf(s), CROSSING, s.mems));
  }

  /** Two clocks after a reset a read of the first BRAM has got the word at the address
      of a write to the second. */
  lemma {:induction false} DisturbedReadHappens(p: Params, s0: System)
    requires Initial(p, s0) && s0.mems[0][0] != s0.mems[0][1]
    ensures !R.Correct(Run(p, s0, Repeated(CROSSING, 2)).r)
  {
    RunTwo(p, s0, CROSSING);
    OfferWaits(p, s0, 0x300_0004, true, 0x200_0000);
    CrossingHarms(p, Step(p, s0, CROSSING));
  }

  /** Beats of a burst to the first stream output, which takes nothing. */
  const FEEDING := Offer(0x200_0000, false, 0)

  ghost predicate Feeds(s: System) {
    && Whole(s) && W.WriteEnable(s.w.r, FEEDING.w) && W.WriteOf(s.w.r).region == 2
    && !W.Last(s.w.r) && s.w.r.w.buf0.ready && !s.w.r.b.valid
  }

  /** ... with n words in the buffer of that output. */
  ghost predicate Filled(s: System, n: nat) {
    Feeds(s) && InoutBuffer.Ordered(s.m[0]) && |InoutBuffer.Stored(s.m[0])| == n && Sends(s, 0)
  }

  lemma {:induction false} FillsAtFirst(p: Params, s0: System)
    requires Initial(p, s0)
    ensures Filled(Step(p, s0, FEEDING), 0)
  {
    OfferWaits(p, s0, 0x200_0000, false, 0);
    SendsStep(p, s0, FEEDING, 0);
    W.FirstClock(WriteParams(p), s0.w.r, FEEDING.w);
    NothingOffered(RegsOf(s0), FEEDING);
  }

  lemma NothingOffered(h: Regs, c: Cycle)
    requires Sized(c) && |h.m| == R.HUB_SIZE && !W.WriteEnable(h.w, c.w) && InoutBuffer.Stored(h.m[0]) == []
    ensures InoutBuffer.Stored(NextMaster(h, true, c)[0]) == []
  {
  }

  lemma {:induction false} FeedsOn(p: Params, s: System)
    requires Feeds(s) && InoutBuffer.Ordered(s.m[0])
    ensures Feeds(Step(p, s, FEEDING))
    ensures var m, n := Step(p, s, FEEDING).m[0], |InoutBuffer.Stored(s.m[0])|;
            InoutBuffer.Ordered(m) && |InoutBuffer.Stored(m)| == if n == 2 then 2 else n + 1
  {
  }

  lemma {:induction false} FillsOn(p: Params, s: System, n: nat)
    requires Filled(s, n)
    ensures n < 2 ==> Filled(Step(p, s, FEEDING), n + 1)
    ensures n == 2 ==> !Sends(Step(p, s, FEEDING), 0)
  {
    FeedsOn(p, s);
    SendsStep(p, s, FEEDING, 0);
  }

  lemma {:induction false} FillsUp(p: Params, s0: System, n: nat)
    requires Initial(p, s0) && n <= 2
    ensures Filled(Run(p, s0, Repeated(FEEDING, n + 1)), n)
  {
    if n == 0 {
      RunOne(p, s0, FEEDING);
      FillsAtFirst(p, s0);
    } else {
      RunMore(p, s0, FEEDING, n);
      FillsUp(p, s0, n - 1);
      FillsOn(p, Run(p, s0, Repeated(FEEDING, n)), n - 1);
    }
  }

  /** Four clocks after a reset the third beat of such a burst has met a full buffer,
      and is lost. */
  lemma {:induction false} FullBufferHappens(p: Params, s0: System)
    requires Initial(p, s0)
    ensures !Sends(Run(p, s0, Repeated(FEEDING, 4)), 0)
  {
    FillsUp(p, s0, 2);
    RunMore(p, s0, FEEDING, 3);
    FillsOn(p, Run(p, s0, Repeated(FEEDING, 3)), 2);
  }

  class Core {
    const p: Params
    var intAwcntrReg: nat
    var intArcntrReg: R.nibble
    var buf0: InoutBuffer.Regs<W.Address>
    var buf1: InoutBuffer.Regs<W.Beat>
    var buf2: OutputBuffer.Regs<nat>
    var buf3: InoutBuffer.Regs<R.Request>
    var buf4: OutputBuffer.Regs<R.Held>
    var mbuf: seq<InoutBuffer.Regs<Word>>
    var cfgData: seq<Word>

    constructor (p: Params, h: Regs)
      ensures this.p == p && State() == h
    {
      this.p := p;
      intAwcntrReg, intArcntrReg, cfgData, mbuf := h.w.cntr, h.r.cntr, h.w.cfg, h.m;
      buf0, buf1, buf2, buf3, buf4 := h.w.aw, h.w.w, h.w.b, h.r.ar, h.r.r;
    }

    function WriteState(): W.Regs
      reads this
    {
      W.Regs(buf0, buf1, buf2, intAwcntrReg, cfgData)
    }

    function ReadState(): R.Regs
      reads this
    {
      R.Regs(buf3, buf4, intArcntrReg)
    }

    function State(): Regs
      reads this
    {
      Regs(WriteState(), ReadState(), mbuf)
    }

    /** The flip-flops of the configuration, each with its own clock enable. */
    method ClockConfig(aresetn: bool, we: bool, write: Write)
      modifies this`cfgData
      ensures cfgData == if !aresetn then seq(|old(cfgData)|, _ => ZERO)
                         else if we then Apply(old(cfgData), 0, Span(p.cfgSize), write) else old(cfgData)
    {
      ghost var before, next := cfgData,
        if !aresetn then seq(|cfgData|, _ => ZERO)
        else if we then Apply(cfgData, 0, Span(p.cfgSize), write) else cfgData;
      for j := 0 to |cfgData|
        invariant |cfgData| == |before| && cfgData == next[..j] + before[j..]
      {
        var ce := we && write.region == 0 && write.addr % Span(p.cfgSize) == j;
        var word := if !aresetn then ZERO else if ce then Merge(cfgData[j], write.strb, write.data) else cfgData[j];
        assert word == next[j];
        Splice(next, before, j);
        cfgData := cfgData[j := word];
      }
    }

    method ClockWrite(aresetn: bool, c: W.Cycle)
      modifies this`buf0, this`buf1, this`buf2, this`intAwcntrReg, this`cfgData
      ensures WriteState() == W.Next(WriteParams(p), old(WriteState()), aresetn, c)
    {
      var bready := OutputBuffer.InReady(buf2, c.bready);
      var awvalid, wvalid := InoutBuffer.OutValid(buf0), InoutBuffer.OutValid(buf1);
      var wlast, id := InoutBuffer.OutData(buf1).last, InoutBuffer.OutData(buf0).id;
      var awready, wready, bvalid := bready && wvalid && wlast, bready && awvalid, awvalid && wvalid && wlast;
      var we := bready && awvalid && wvalid;
      ghost var r := WriteState();
      assert InoutBuffer.Cycle(c.aw, c.awvalid, awready) == W.AwCycle(r, c);
      assert InoutBuffer.Cycle(c.w, c.wvalid, wready) == W.WCycle(r, c);
      assert OutputBuffer.Cycle(id, bvalid, c.bready) == W.BCycle(r, c);
      ClockConfig(aresetn, we, W.WriteOf(WriteState()));
      if !aresetn || (awvalid && awready) {
        intAwcntrReg := 0;
      } else if !wlast && we {
        intAwcntrReg := (intAwcntrReg + 1) % 16;
      }
      ClockWriteBuffers(aresetn, c, awready, wready, id, bvalid);
    }

    method ClockWriteBuffers(aresetn: bool, c: W.Cycle, awready: bool, wready: bool, id: nat, bvalid: bool)
      modifies this`buf0, this`buf1, this`buf2
      ensures buf0 == InoutBuffer.Next(old(buf0), aresetn, InoutBuffer.Cycle(c.aw, c.awvalid, awready))
      ensures buf1 == InoutBuffer.Next(old(buf1), aresetn, InoutBuffer.Cycle(c.w, c.wvalid, wready))
      ensures buf2 == OutputBuffer.Next(old(buf2), aresetn, OutputBuffer.Cycle(id, bvalid, c.bready))
    {
      buf0 := InoutBuffer.Next(buf0, aresetn, InoutBuffer.Cycle(c.aw, c.awvalid, awready));
      buf1 := InoutBuffer.Next(buf1, aresetn, InoutBuffer.Cycle(c.w, c.wvalid, wready));
      buf2 := OutputBuffer.Next(buf2, aresetn, OutputBuffer.Cycle(id, bvalid, c.bready));
    }

    method ClockRead(aresetn: bool, c: R.Cycle)
      requires R.Ports(c)
      modifies this`buf3, this`buf4, this`intArcntrReg
      ensures ReadState() == R.Next(ReadParams(p), old(ReadState()), aresetn, c)
    {
      var rready := OutputBuffer.InReady(buf4, c.rready);
      var arvalid, ar := InoutBuffer.OutValid(buf3), InoutBuffer.OutData(buf3);
      var rlast := intArcntrReg == ar.len;
      var arready, re := rready && rlast, rready && arvalid;
      var held := R.Held(R.BramSelect(ReadState(), c), ar.id, rlast, R.MuxData(ReadParams(p), ReadState(), c));
      if !aresetn || (arvalid && arready) {
        intArcntrReg := 0;
      } else if !rlast && re {
        intArcntrReg := (intArcntrReg + 1) % 16;
      }
      buf3 := InoutBuffer.Next(buf3, aresetn, InoutBuffer.Cycle(c.ar, c.arvalid, arready));
      buf4 := OutputBuffer.Next(buf4, aresetn, OutputBuffer.Cycle(held, arvalid, c.rready));
    }

    method Tick(aresetn: bool, c: Cycle)
      requires Sized(c) && |mbuf| == R.HUB_SIZE
      modifies this
      ensures State() == Next(p, old(State()), aresetn, c)
    {
      mbuf := NextMaster(State(), aresetn, c);
      ClockRead(aresetn, ReadCycle(State(), c, []));
      ClockWrite(aresetn, c.w);
    }

    /** What the hub drives besides the state: the handshakes and data towards the
        master, and the ports of the BRAMs and streams. */
    method Wires(c: Cycle, bramRdata: seq<Word>)
      returns (bid: nat, bvalid: bool, rid: nat, rlast: bool, rdata: Word, rvalid: bool,
               bramEn: seq<bool>, bramWe: seq<Strobe>, bramAddr: nat, sReady: seq<bool>)
      requires Sized(c) && |bramRdata| == R.HUB_SIZE && |buf4.data.bsel| == R.HUB_SIZE
      ensures bid == buf2.data && bvalid == buf2.valid
      ensures rid == buf4.data.id && rlast == buf4.data.last && rvalid == buf4.valid
      ensures rdata == R.ReadData(buf4.data, bramRdata)
      ensures var rc := ReadCycle(State(), c, []);
              && |bramEn| == |bramWe| == |sReady| == R.HUB_SIZE && bramAddr == R.BramAddress(ReadState(), rc)
              && forall j :: 0 <= j < R.HUB_SIZE ==>
                   && sReady[j] == R.Selected(ReadState(), rc, j)
                   && bramEn[j] == (R.Selected(ReadState(), rc, j) || R.WriteSelected(rc, j))
                   && bramWe[j] == if R.WriteSelected(rc, j) then rc.write.strb else NONE
    {
      bid, bvalid, rid, rlast, rvalid := buf2.data, buf2.valid, buf4.data.id, buf4.data.last, buf4.valid;
      rdata := buf4.data.data;
      var bdata := ZERO;
      for j := 0 to R.HUB_SIZE
        invariant bdata == R.Gathered(buf4.data.bsel[..j], bramRdata[..j])
      {
        assert buf4.data.bsel[..j + 1][..j] == buf4.data.bsel[..j] && bramRdata[..j + 1][..j] == bramRdata[..j];
        bdata := Or(bdata, if buf4.data.bsel[j] then bramRdata[j] else ZERO);
      }
      assert buf4.data.bsel[..R.HUB_SIZE] == buf4.data.bsel && bramRdata[..R.HUB_SIZE] == bramRdata;
      rdata := Or(rdata, bdata);
      var re := OutputBuffer.InReady(buf4, c.rready) && InoutBuffer.OutValid(buf3);
      var we := W.WriteEnable(WriteState(), c.w);
      var write := W.WriteOf(WriteState());
      var region := W.Region(InoutBuffer.OutData(buf3).addr);
      bramAddr := if we then write.addr else W.WordAddress(InoutBuffer.OutData(buf3).addr, intArcntrReg);
      sReady := seq(R.HUB_SIZE, j => re && region == j + 2);
      bramEn := seq(R.HUB_SIZE, j => (re && region == j + 2) || (we && write.region == j + 2));
      bramWe := seq(R.HUB_SIZE, j => if we && write.region == j + 2 then write.strb else NONE);
    }
  }
}
