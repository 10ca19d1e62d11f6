/** cores_demin/axis_ram_reader.v: reads a circular buffer in 16-beat AXI bursts,
    one at a time, and only when the FIFO has room for a whole one. */
module AxisRamReader {
  import opened Arithmetic
  import opened BurstRing
  import opened Streams
  import OutputBuffer

  /** The FIFO takes bus words of `writeUnits` units, `depth` of them at most, and
      returns samples of `readUnits` units. */
  datatype Params = Params(ring: Ring, readUnits: nat, writeUnits: nat, depth: nat)

  ghost predicate Sized(p: Params) { p.ring.Valid() && p.readUnits > 0 && p.writeUnits > 0 }

  datatype Regs<U> = Regs(arvalid: bool, rvalid: bool, addr: nat, buf0: OutputBuffer.Regs<nat>, fifo: seq<U>)

  datatype Cycle<U> = Cycle(arready: bool, rvalid: bool, rlast: bool, rdata: seq<U>, tready: bool)

  /** wr_data_count: the bus words in the FIFO, a partly read word included */
  function Count<U>(p: Params, fifo: seq<U>): nat
    requires Sized(p)
  {
    var n := (|fifo| + p.writeUnits - 1) / p.writeUnits;
    CountIsNat(|fifo|, p.writeUnits);
    n
  }

  lemma CountIsNat(n: nat, u: nat)
    requires u > 0
    ensures (n + u - 1) / u >= 0
  {
  }

  /** int_valid_wire: a burst starts */
  function Starts<U>(p: Params, r: Regs<U>): bool
    requires Sized(p)
  {
    Count(p, r.fifo) < p.depth - 15 && !r.rvalid
  }

  function ArValid<U>(p: Params, r: Regs<U>): bool
    requires Sized(p)
  {
    Starts(p, r) || r.arvalid
  }

  function Issues<U>(p: Params, r: Regs<U>, c: Cycle<U>): bool
    requires Sized(p)
  {
    ArValid(p, r) && OutputBuffer.InReady(r.buf0, c.arready)
  }

  function Cycle0<U>(p: Params, r: Regs<U>, c: Cycle<U>): OutputBuffer.Cycle<nat>
    requires Sized(p)
  {
    OutputBuffer.Cycle(p.ring.Address(r.addr), ArValid(p, r), c.arready)
  }

  /** m_axis_tvalid */
  function OutValid<U>(p: Params, r: Regs<U>): bool { |r.fifo| >= p.readUnits }

  /** A bus word has room; the FIFO ignores one that has not. */
  function HasRoom<U>(p: Params, r: Regs<U>): bool { |r.fifo| + p.writeUnits <= p.depth * p.writeUnits }

  function NextFifo<U>(p: Params, r: Regs<U>, c: Cycle<U>): seq<U> {
    (if c.tready && OutValid(p, r) then r.fifo[p.readUnits..] else r.fifo)
    + (if c.rvalid && HasRoom(p, r) then c.rdata else [])
  }

  function Next<U>(p: Params, r: Regs<U>, aresetn: bool, c: Cycle<U>): Regs<U>
    requires Sized(p)
  {
    var buf0 := OutputBuffer.Next(r.buf0, aresetn, Cycle0(p, r, c));
    if aresetn then
      Regs(
        ArValid(p, r) && !Issues(p, r, c),
        (Starts(p, r) || r.rvalid) && !(c.rvalid && c.rlast),
        if Issues(p, r, c) then (if r.addr < p.ring.cfg then r.addr + 1 else 0) else r.addr,
        buf0,
        NextFifo(p, r, c))
    else Regs(false, false, 0, buf0, [])
  }

  /** What a reset leaves behind: only the data in the buffer is arbitrary. */
  ghost predicate IsReset<U>(r: Regs<U>) {
    !r.arvalid && !r.rvalid && r.addr == 0 && !r.buf0.valid && r.fifo == []
  }

  lemma ResetResets<U>(p: Params, r: Regs<U>, c: Cycle<U>)
    requires Sized(p)
    ensures IsReset(Next(p, r, false, c))
  {
  }

  // ---------- Runs ----------

  /** The core with the record of what crossed its interfaces: addresses taken by the
      slave, words it returned, units handed to the consumer. */
  datatype System<U> = System(r: Regs<U>, ars: seq<nat>, words: seq<seq<U>>, out: seq<U>)

  function Step<U>(p: Params, s: System<U>, c: Cycle<U>): System<U>
    requires Sized(p)
  {
    System(
      Next(p, s.r, true, c),
      s.ars + OutputBuffer.Delivered(s.r.buf0, Cycle0(p, s.r, c)),
      s.words + Moved(c.rvalid, c.rdata),
      s.out + if c.tready && OutValid(p, s.r) then s.r.fifo[..p.readUnits] else [])
  }

  function Run<U>(p: Params, r0: Regs<U>, cycles: seq<Cycle<U>>): System<U>
    requires Sized(p)
  {
    if cycles == [] then System(r0, [], [], [])
    else Step(p, Run(p, r0, cycles[..|cycles| - 1]), cycles[|cycles| - 1])
  }

  /** A slave that follows AXI: it returns sixteen bus words for every address it has
      taken, the sixteenth marked last, whatever they are. */
  ghost predicate SlaveObeys<U>(p: Params, s: System<U>, c: Cycle<U>) {
    c.rvalid ==>
      && |s.words| < 16 * |s.ars|
      && (c.rlast <==> |s.words| % 16 == 15)
      && |c.rdata| == p.writeUnits
  }

  ghost predicate SlaveKeepsObeying<U>(p: Params, r0: Regs<U>, cycles: seq<Cycle<U>>)
    requires Sized(p)
  {
    cycles != [] ==>
      && SlaveKeepsObeying(p, r0, cycles[..|cycles| - 1])
      && SlaveObeys(p, Run(p, r0, cycles[..|cycles| - 1]), cycles[|cycles| - 1])
  }

  /** ... and they are the words of a memory, which may change from beat to beat:
      ram(n, a) is the word at address a when beat n is read. */
  ghost predicate SlaveReads<U>(p: Params, ram: (nat, nat) -> seq<U>, s: System<U>, c: Cycle<U>)
    requires Sized(p)
  {
    c.rvalid && |s.words| < 16 * |s.ars| ==> c.rdata == ram(|s.words|, p.ring.BeatAddress(s.ars, |s.words|))
  }

  ghost predicate SlaveKeepsReading<U>(p: Params, ram: (nat, nat) -> seq<U>, r0: Regs<U>, cycles: seq<Cycle<U>>)
    requires Sized(p)
  {
    cycles != [] ==>
      && SlaveKeepsReading(p, ram, r0, cycles[..|cycles| - 1])
      && SlaveReads(p, ram, Run(p, r0, cycles[..|cycles| - 1]), cycles[|cycles| - 1])
  }

  function Issued<U>(s: System<U>): nat { |s.ars| + if s.r.buf0.valid then 1 else 0 }

  /** Beats still to arrive. */
  function Owed<U>(s: System<U>): int { 16 * Issued(s) - |s.words| }

  /** An address is never kept waiting by the core itself: when a burst starts, the
      one before is complete, so the address buffer is empty. At most one burst is
      outstanding, and the FIFO has room for all of it. */
  ghost predicate Control<U>(p: Params, s: System<U>)
    requires Sized(p)
  {
    && !s.r.arvalid
    && (if s.r.rvalid then 1 <= Owed(s) <= 16 else Owed(s) == 0)
    && |s.words| <= 16 * |s.ars|
    && Count(p, s.r.fifo) + Owed(s) <= p.depth
  }

  ghost predicate Addresses<U>(p: Params, s: System<U>)
    requires Sized(p)
  {
    && s.r.addr == Issued(s) % (p.ring.cfg + 1)
    && s.ars + OutputBuffer.Stored(s.r.buf0) == p.ring.BurstAddresses(Issued(s))
  }

  /** Word j of the circular reading of the memory. */
  function RingWord<U>(p: Params, ram: (nat, nat) -> seq<U>, j: nat): seq<U>
    requires Sized(p)
  {
    ram(j, p.ring.SlotAddress(j % p.ring.Size()))
  }

  function RingWords<U>(p: Params, ram: (nat, nat) -> seq<U>, n: nat): seq<seq<U>>
    requires Sized(p)
  {
    seq(n, j requires 0 <= j < n => RingWord(p, ram, j))
  }

  /** Every unit of every word returned is in the output or in the FIFO. */
  ghost predicate Units<U>(p: Params, s: System<U>) {
    && Flatten(s.words) == s.out + s.r.fifo
    && forall k :: 0 <= k < |s.words| ==> |s.words[k]| == p.writeUnits
  }

  lemma {:induction false} CountAfter(n: nat, m: nat, u: nat)
    requires u > 0 && n <= m + u
    ensures (n + u - 1) / u <= (m + u - 1) / u + 1
    ensures n <= m ==> (n + u - 1) / u <= (m + u - 1) / u
  {
    DivMonotone(n + u - 1, m + u - 1 + u, u);
    DivLess(m + u - 1 + u, u);
    if n <= m {
      DivMonotone(n + u - 1, m + u - 1, u);
    }
  }

  /** If the count leaves a word free, so do the units. */
  lemma {:induction false} CountedRoom(n: nat, u: nat, depth: nat)
    requires u > 0 && (n + u - 1) / u + 1 <= depth
    ensures n + u <= depth * u
  {
    var q := (n + u - 1) / u;
    assert n + u - 1 == u * q + (n + u - 1) % u;
    assert n <= q * u;
    Apart(depth, q, u);
  }

  lemma {:induction false} CountStep<U>(p: Params, r: Regs<U>, c: Cycle<U>)
    requires Sized(p) && (c.rvalid ==> |c.rdata| == p.writeUnits)
    ensures Count(p, NextFifo(p, r, c)) <= Count(p, r.fifo) + if c.rvalid then 1 else 0
    ensures Count(p, r.fifo) + 1 <= p.depth ==> HasRoom(p, r)
  {
    CountAfter(|NextFifo(p, r, c)|, |r.fifo|, p.writeUnits);
    if Count(p, r.fifo) + 1 <= p.depth {
      CountedRoom(|r.fifo|, p.writeUnits, p.depth);
    }
  }

  lemma {:induction false} ControlStep<U>(p: Params, s: System<U>, c: Cycle<U>)
    requires Sized(p) && Control(p, s) && SlaveObeys(p, s, c)
    ensures Control(p, Step(p, s, c))
    ensures c.rvalid ==> HasRoom(p, s.r)
  {
    CountStep(p, s.r, c);
  }

  lemma {:induction false} AddressesStep<U>(p: Params, s: System<U>, c: Cycle<U>)
    requires Sized(p) && Addresses(p, s)
    ensures Addresses(p, Step(p, s, c))
  {
    var s' := Step(p, s, c);
    OutputBuffer.StepConserves(s.r.buf0, Cycle0(p, s.r, c));
    ModSuccessor(Issued(s), p.ring.cfg + 1);
    var stored, acc := OutputBuffer.Stored(s.r.buf0), OutputBuffer.Accepted(s.r.buf0, Cycle0(p, s.r, c));
    Regroup(s.ars, OutputBuffer.Delivered(s.r.buf0, Cycle0(p, s.r, c)), OutputBuffer.Stored(s'.r.buf0));
    Regroup(s.ars, stored, acc);
    assert acc == Moved(Issues(p, s.r, c), p.ring.BurstAddress(Issued(s)));
    assert p.ring.BurstAddresses(Issued(s')) == p.ring.BurstAddresses(Issued(s)) + acc;
  }

  lemma {:induction false} RingWordsStep<U>(p: Params, ram: (nat, nat) -> seq<U>, s: System<U>, c: Cycle<U>)
    requires Sized(p) && Addresses(p, s) && s.words == RingWords(p, ram, |s.words|)
    requires SlaveObeys(p, s, c) && SlaveReads(p, ram, s, c)
    ensures Step(p, s, c).words == RingWords(p, ram, |Step(p, s, c).words|)
  {
    var n := |s.words|;
    if c.rvalid {
      assert s.ars[n / 16] == (s.ars + OutputBuffer.Stored(s.r.buf0))[n / 16];
      BeatGoesToSlot(p.ring, s.ars, n);
      assert RingWords(p, ram, n + 1) == RingWords(p, ram, n) + [RingWord(p, ram, n)];
    }
  }

  lemma {:induction false} UnitsStep<U>(p: Params, s: System<U>, c: Cycle<U>)
    requires Sized(p) && Units(p, s) && SlaveObeys(p, s, c) && (c.rvalid ==> HasRoom(p, s.r))
    ensures Units(p, Step(p, s, c))
  {
    var taken := if c.tready && OutValid(p, s.r) then p.readUnits else 0;
    var pushed := if c.rvalid then c.rdata else [];
    MovesFront(s.out, s.r.fifo, pushed, taken);
    FlattenMoved(s.words, c.rvalid, c.rdata);
    assert NextFifo(p, s.r, c) == s.r.fifo[taken..] + pushed;
    assert Step(p, s, c).out == s.out + s.r.fifo[..taken];
  }

  ghost predicate Inv<U>(p: Params, s: System<U>)
    requires Sized(p)
  {
    Control(p, s) && Addresses(p, s) && Units(p, s)
  }

  lemma {:induction false} RunInv<U>(p: Params, r0: Regs<U>, cycles: seq<Cycle<U>>)
    requires Sized(p) && IsReset(r0) && SlaveKeepsObeying(p, r0, cycles)
    ensures Inv(p, Run(p, r0, cycles))
  {
    if cycles == [] {
      assert Flatten<U>([]) == [];
      UniqueDivision(p.writeUnits - 1, p.writeUnits, 0, p.writeUnits - 1);
    } else {
      var before, c := cycles[..|cycles| - 1], cycles[|cycles| - 1];
      RunInv(p, r0, before);
      var s := Run(p, r0, before);
      ControlStep(p, s, c);
      AddressesStep(p, s, c);
      UnitsStep(p, s, c);
    }
  }

  // ---------- Results ----------

  /** Although rready is constantly high no word is ever lost: in every reachable
      state the words in the FIFO and the beats still to arrive fit it, and at most
      one burst is outstanding. */
  lemma {:induction false} NeverOverflows<U>(p: Params, r0: Regs<U>, cycles: seq<Cycle<U>>, c: Cycle<U>)
    requires Sized(p) && IsReset(r0) && SlaveKeepsObeying(p, r0, cycles + [c])
    ensures var s := Run(p, r0, cycles);
            && Count(p, s.r.fifo) + Owed(s) <= p.depth
            && 0 <= Owed(s) <= 16
            && (c.rvalid ==> |s.r.fifo| + p.writeUnits <= p.depth * p.writeUnits)
  {
    assert (cycles + [c])[..|cycles|] == cycles;
    RunInv(p, r0, cycles);
    ControlStep(p, Run(p, r0, cycles), c);
  }

  /** For every schedule of the slave and the consumer, and whatever words come back:
      the addresses are those of the ring in order, and the output is what was
      returned, unit by unit. */
  lemma {:induction false} GivesWhatReturns<U>(p: Params, r0: Regs<U>, cycles: seq<Cycle<U>>)
    requires Sized(p) && IsReset(r0) && SlaveKeepsObeying(p, r0, cycles)
    ensures var s := Run(p, r0, cycles);
            && s.out + s.r.fifo == Flatten(s.words)
            && (forall k :: 0 <= k < |s.ars| ==> s.ars[k] == p.ring.BurstAddress(k))
  {
    RunInv(p, r0, cycles);
    var s := Run(p, r0, cycles);
    forall k | 0 <= k < |s.ars| ensures s.ars[k] == p.ring.BurstAddress(k) {
      assert s.ars[k] == (s.ars + OutputBuffer.Stored(s.r.buf0))[k];
    }
  }

  lemma {:induction false} ReturnsRing<U>(p: Params, ram: (nat, nat) -> seq<U>, r0: Regs<U>, cycles: seq<Cycle<U>>)
    requires Sized(p) && IsReset(r0) && SlaveKeepsObeying(p, r0, cycles) && SlaveKeepsReading(p, ram, r0, cycles)
    ensures var s := Run(p, r0, cycles); s.words == RingWords(p, ram, |s.words|)
  {
    if cycles != [] {
      var before := cycles[..|cycles| - 1];
      ReturnsRing(p, ram, r0, before);
      RunInv(p, r0, before);
      RingWordsStep(p, ram, Run(p, r0, before), cycles[|cycles| - 1]);
    }
  }

  /** So from a memory the output is the ring read round and round from its start, each
      word as it was when its beat was read. */
  lemma {:induction false} ReadsRing<U>(p: Params, ram: (nat, nat) -> seq<U>, r0: Regs<U>, cycles: seq<Cycle<U>>)
    requires Sized(p) && IsReset(r0) && SlaveKeepsObeying(p, r0, cycles) && SlaveKeepsReading(p, ram, r0, cycles)
    ensures var s := Run(p, r0, cycles); s.out + s.r.fifo == Flatten(RingWords(p, ram, |s.words|))
  {
    GivesWhatReturns(p, r0, cycles);
    ReturnsRing(p, ram, r0, cycles);
  }

  // ---------- Progress ----------

  /** The FIFO can hold a burst and, short of that, what the consumer takes at once. */
  ghost predicate Deep(p: Params) {
    Sized(p) && p.depth >= 16 && (p.depth - 16) * p.writeUnits + 1 >= p.readUnits
  }

  /** A clock in which the slave takes an address and gives a beat if it owes one, and
      the consumer takes what there is. */
  predicate Answers<U>(s: System<U>, c: Cycle<U>) {
    c.arready && c.tready && (|s.words| < 16 * |s.ars| ==> c.rvalid)
  }

  function Answered<U>(p: Params, r0: Regs<U>, cycles: seq<Cycle<U>>): nat
    requires Sized(p)
  {
    if cycles == [] then 0
    else
      var before, c := cycles[..|cycles| - 1], cycles[|cycles| - 1];
      Answered(p, r0, before) + if Answers(Run(p, r0, before), c) then 1 else 0
  }

  /** Addresses handed on and taken, beats returned and units given. */
  function Work<U>(s: System<U>): nat { |s.out| + |s.words| + |s.ars| + Issued(s) }

  /** Without room for a burst there is something to give. */
  lemma {:induction false} RoomOrOutput<U>(p: Params, r: Regs<U>)
    requires Deep(p)
    ensures Count(p, r.fifo) >= p.depth - 15 ==> OutValid(p, r)
  {
    if Count(p, r.fifo) >= p.depth - 15 {
      CountedUnits(|r.fifo|, p.writeUnits, p.depth - 15);
      assert (p.depth - 15) * p.writeUnits == (p.depth - 16) * p.writeUnits + p.writeUnits;
    }
  }

  lemma {:induction false} CountedUnits(n: nat, u: nat, words: nat)
    requires u > 0 && (n + u - 1) / u >= words
    ensures n + u - 1 >= words * u
  {
    var q := (n + u - 1) / u;
    assert n + u - 1 == u * q + (n + u - 1) % u;
    assert (q - words) * u >= 0;
  }

  lemma {:induction false} WorkStep<U>(p: Params, s: System<U>, c: Cycle<U>)
    requires Deep(p) && Control(p, s) && SlaveObeys(p, s, c)
    ensures Work(Step(p, s, c)) >= Work(s)
    ensures Answers(s, c) ==> Work(Step(p, s, c)) > Work(s)
  {
    RoomOrOutput(p, s.r);
  }

  /** All this work shows in the output, up to what the FIFO holds. */
  lemma {:induction false} WorkShows<U>(p: Params, s: System<U>)
    requires Sized(p) && Inv(p, s)
    ensures Work(s) <= 4 * |s.out| + 3 * (p.depth * p.writeUnits) + 2
  {
    FlattenLength(s.words, p.writeUnits);
    FifoFits(|s.r.fifo|, p.writeUnits, p.depth);
    WordsShow(|s.words|, p.writeUnits, |s.out|, |s.r.fifo|);
  }

  lemma WordsShow(n: nat, u: nat, out: nat, fifo: nat)
    requires u > 0 && n * u == out + fifo
    ensures n <= out + fifo
  {
    assert n * (u - 1) >= 0;
  }

  lemma {:induction false} FifoFits(n: nat, u: nat, depth: nat)
    requires u > 0 && (n + u - 1) / u <= depth
    ensures n <= depth * u
  {
    var q := (n + u - 1) / u;
    assert n + u - 1 == u * q + (n + u - 1) % u;
    assert (depth - q) * u >= 0;
  }

  /** The core never stops: of every four answered clocks, after those that fill the
      FIFO, at least one unit has come out. */
  lemma {:induction false} KeepsReading<U>(p: Params, r0: Regs<U>, cycles: seq<Cycle<U>>)
    requires Deep(p) && IsReset(r0) && SlaveKeepsObeying(p, r0, cycles)
    ensures Answered(p, r0, cycles) <= 4 * |Run(p, r0, cycles).out| + 3 * (p.depth * p.writeUnits) + 2
  {
    RunInv(p, r0, cycles);
    AnsweredIsWork(p, r0, cycles);
    WorkShows(p, Run(p, r0, cycles));
  }

  /** The slave takes addresses and returns every word that is due, and the consumer
      takes everything. */
  ghost predicate AlwaysAnswers<U>(p: Params, r0: Regs<U>, cycles: seq<Cycle<U>>)
    requires Sized(p)
  {
    cycles != [] ==>
      var s, c := Run(p, r0, cycles[..|cycles| - 1]), cycles[|cycles| - 1];
      && AlwaysAnswers(p, r0, cycles[..|cycles| - 1])
      && c.arready && c.tready && (|s.words| < 16 * |s.ars| ==> c.rvalid)
  }

  lemma {:induction false} AnswersAll<U>(p: Params, r0: Regs<U>, cycles: seq<Cycle<U>>)
    requires Sized(p) && AlwaysAnswers(p, r0, cycles)
    ensures Answered(p, r0, cycles) == |cycles|
  {
    if cycles != [] {
      AnswersAll(p, r0, cycles[..|cycles| - 1]);
    }
  }

  /** Then after n clocks at least a quarter of n units have come out, but for those
      that the FIFO may hold. */
  lemma {:induction false} NeverStops<U>(p: Params, r0: Regs<U>, cycles: seq<Cycle<U>>)
    requires Deep(p) && IsReset(r0) && SlaveKeepsObeying(p, r0, cycles) && AlwaysAnswers(p, r0, cycles)
    ensures |cycles| <= 4 * |Run(p, r0, cycles).out| + 3 * (p.depth * p.writeUnits) + 2
  {
    AnswersAll(p, r0, cycles);
    KeepsReading(p, r0, cycles);
  }

  lemma {:induction false} AnsweredIsWork<U>(p: Params, r0: Regs<U>, cycles: seq<Cycle<U>>)
    requires Deep(p) && IsReset(r0) && SlaveKeepsObeying(p, r0, cycles)
    ensures Answered(p, r0, cycles) <= Work(Run(p, r0, cycles))
  {
    if cycles != [] {
      var before := cycles[..|cycles| - 1];
      RunInv(p, r0, before);
      AnsweredIsWork(p, r0, before);
      WorkStep(p, Run(p, r0, before), cycles[|cycles| - 1]);
    }
  }

  class Core<U> {
    const p: Params
    var intArvalidReg: bool
    var intRvalidReg: bool
    var intAddrReg: nat
    var buf0: OutputBuffer.Regs<nat>
    var fifo: seq<U>

    constructor (p: Params)
      ensures this.p == p && IsReset(State())
    {
      this.p := p;
      intArvalidReg, intRvalidReg, intAddrReg := false, false, 0;
      buf0 := OutputBuffer.Regs(false, 0);
      fifo := [];
    }

    function State(): Regs<U>
      reads this
    {
      Regs(intArvalidReg, intRvalidReg, intAddrReg, buf0, fifo)
    }

    method Tick(aresetn: bool, c: Cycle<U>) returns (mAxisTvalid: bool, stsData: nat)
      requires Sized(p)
      modifies this
      ensures mAxisTvalid == OutValid(p, old(State())) && stsData == old(intAddrReg)
      ensures State() == Next(p, old(State()), aresetn, c)
    {
      mAxisTvalid, stsData := OutValid(p, State()), intAddrReg;
      var intValidWire := Count(p, fifo) < p.depth - 15 && !intRvalidReg;
      var intArvalidWire := intValidWire || intArvalidReg;
      var intArreadyWire := OutputBuffer.InReady(buf0, c.arready);
      var cycle0 := Cycle0(p, State(), c);
      var fifoNext := NextFifo(p, State(), c);
      if !aresetn {
        intArvalidReg, intRvalidReg, intAddrReg, fifo := false, false, 0, [];
      } else {
        fifo := fifoNext;
        if intValidWire {
          intArvalidReg := true;
          intRvalidReg := true;
        }
        if intArvalidWire && intArreadyWire {
          intArvalidReg := false;
          intAddrReg := if intAddrReg < p.ring.cfg then intAddrReg + 1 else 0;
        }
        if c.rvalid && c.rlast {
          intRvalidReg := false;
        }
      }
      buf0 := OutputBuffer.Next(buf0, aresetn, cycle0);
    }
  }
}
