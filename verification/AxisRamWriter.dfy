/** cores_demin/axis_ram_writer.v: packs a stream into 16-beat AXI bursts and
    writes them to a circular buffer in RAM. */
module AxisRamWriter {
  import opened Arithmetic
  import opened BurstRing
  import opened Streams
  import OutputBuffer

  /** The module parameters and the two constant inputs. The FIFO changes the word
      width: it takes samples of `writeUnits` units and returns words of `readUnits`
      units, the first-written unit first. */
  datatype Params = Params(ring: Ring, readUnits: nat, writeUnits: nat, capacity: nat)

  ghost predicate Sized(p: Params) { p.ring.Valid() && p.readUnits > 0 && p.writeUnits > 0 }

  datatype Beat<U> = Beat(last: bool, word: seq<U>)

  datatype Regs<U> = Regs(
    awvalid: bool,
    wvalid: bool,
    cntr: nat,
    addr: nat,
    buf0: OutputBuffer.Regs<nat>,
    buf1: OutputBuffer.Regs<Beat<U>>,
    fifo: seq<U>)

  datatype Cycle<U> = Cycle(sample: seq<U>, tvalid: bool, awready: bool, wready: bool)

  /** rd_data_count: the whole words in the FIFO */
  function Words<U>(p: Params, fifo: seq<U>): nat
    requires Sized(p)
  {
    |fifo| / p.readUnits
  }

  function Full<U>(p: Params, r: Regs<U>): bool { |r.fifo| + p.writeUnits > p.capacity }

  /** int_valid_wire: a burst starts */
  function Starts<U>(p: Params, r: Regs<U>): bool
    requires Sized(p)
  {
    Words(p, r.fifo) > 15 && !r.wvalid
  }

  function AwValid<U>(p: Params, r: Regs<U>): bool
    requires Sized(p)
  {
    Starts(p, r) || r.awvalid
  }

  function WValid<U>(p: Params, r: Regs<U>): bool
    requires Sized(p)
  {
    Starts(p, r) || r.wvalid
  }

  /** An address moves into buf_0; a word moves from the FIFO into buf_1. */
  function Issues<U>(p: Params, r: Regs<U>, c: Cycle<U>): bool
    requires Sized(p)
  {
    AwValid(p, r) && OutputBuffer.InReady(r.buf0, c.awready)
  }

  function Reads<U>(p: Params, r: Regs<U>, c: Cycle<U>): bool
    requires Sized(p)
  {
    WValid(p, r) && OutputBuffer.InReady(r.buf1, c.wready)
  }

  function Pushes<U>(p: Params, r: Regs<U>, c: Cycle<U>): bool { c.tvalid && !Full(p, r) }

  /** int_wdata_wire: the next word of the FIFO, meaningful if there is one */
  function Head<U>(p: Params, r: Regs<U>): seq<U> {
    if p.readUnits <= |r.fifo| then r.fifo[..p.readUnits] else r.fifo
  }

  function Cycle0<U>(p: Params, r: Regs<U>, c: Cycle<U>): OutputBuffer.Cycle<nat>
    requires Sized(p)
  {
    OutputBuffer.Cycle(p.ring.Address(r.addr), AwValid(p, r), c.awready)
  }

  function Cycle1<U>(p: Params, r: Regs<U>, c: Cycle<U>): OutputBuffer.Cycle<Beat<U>>
    requires Sized(p)
  {
    OutputBuffer.Cycle(Beat(r.cntr == 15, Head(p, r)), WValid(p, r), c.wready)
  }

  /** The FIFO after one clock; reading an empty FIFO changes nothing. */
  function NextFifo<U>(p: Params, r: Regs<U>, c: Cycle<U>): seq<U>
    requires Sized(p)
  {
    (if Reads(p, r, c) && p.readUnits <= |r.fifo| then r.fifo[p.readUnits..] else r.fifo)
    + (if Pushes(p, r, c) then c.sample else [])
  }

  function NextAddr<U>(p: Params, r: Regs<U>, c: Cycle<U>): nat
    requires Sized(p)
  {
    if Issues(p, r, c) then (if r.addr < p.ring.cfg then r.addr + 1 else 0) else r.addr
  }

  function Next<U>(p: Params, r: Regs<U>, aresetn: bool, c: Cycle<U>): Regs<U>
    requires Sized(p)
  {
    var buf0 := OutputBuffer.Next(r.buf0, aresetn, Cycle0(p, r, c));
    var buf1 := OutputBuffer.Next(r.buf1, aresetn, Cycle1(p, r, c));
    if aresetn then
      Regs(
        AwValid(p, r) && !Issues(p, r, c),
        WValid(p, r) && !(OutputBuffer.InReady(r.buf1, c.wready) && r.cntr == 15),
        if Reads(p, r, c) then (r.cntr + 1) % 16 else r.cntr,
        NextAddr(p, r, c),
        buf0,
        buf1,
        NextFifo(p, r, c))
    else Regs(false, false, 0, 0, buf0, buf1, [])
  }

  /** What a reset leaves behind: only the data in the buffers is arbitrary. */
  ghost predicate IsReset<U>(r: Regs<U>) {
    !r.awvalid && !r.wvalid && r.cntr == 0 && r.addr == 0 && !r.buf0.valid && !r.buf1.valid && r.fifo == []
  }

  lemma ResetResets<U>(p: Params, r: Regs<U>, c: Cycle<U>)
    requires Sized(p)
    ensures IsReset(Next(p, r, false, c))
  {
  }

  // ---------- Runs ----------

  /** The core with the record of what crossed its interfaces: units taken from the
      stream, words read from the FIFO, addresses and beats taken by the slave. */
  datatype System<U> = System(
    r: Regs<U>,
    accepted: seq<U>,
    words: seq<seq<U>>,
    aws: seq<nat>,
    ws: seq<Beat<U>>)

  function Step<U>(p: Params, s: System<U>, c: Cycle<U>): System<U>
    requires Sized(p)
  {
    System(
      Next(p, s.r, true, c),
      s.accepted + (if Pushes(p, s.r, c) then c.sample else []),
      s.words + Moved(Reads(p, s.r, c), Head(p, s.r)),
      s.aws + OutputBuffer.Delivered(s.r.buf0, Cycle0(p, s.r, c)),
      s.ws + OutputBuffer.Delivered(s.r.buf1, Cycle1(p, s.r, c)))
  }

  /** A system in which nothing has crossed the interfaces yet. */
  function Fresh<U>(r: Regs<U>): System<U> { System(r, [], [], [], []) }

  function Run<U>(p: Params, s: System<U>, cycles: seq<Cycle<U>>): System<U>
    requires Sized(p)
  {
    if cycles == [] then s
    else Step(p, Run(p, s, cycles[..|cycles| - 1]), cycles[|cycles| - 1])
  }

  function BurstBeats<U>(words: seq<seq<U>>): seq<Beat<U>> {
    seq(|words|, k requires 0 <= k < |words| => Beat(k % 16 == 15, words[k]))
  }

  /** Addresses handed to buf_0, and bursts started: one address may still wait in
      the pending flag. */
  function Issued<U>(s: System<U>): nat { |s.aws| + if s.r.buf0.valid then 1 else 0 }
  function Started<U>(s: System<U>): nat { Issued(s) + if s.r.awvalid then 1 else 0 }

  /** Beats of the burst in progress that are still in the FIFO. */
  function Owed<U>(r: Regs<U>): int { if r.wvalid then 16 - r.cntr else 0 }

  ghost predicate Control<U>(p: Params, r: Regs<U>)
    requires Sized(p)
  {
    && r.cntr < 16
    && (!r.wvalid ==> r.cntr == 0)
    && (r.awvalid ==> r.buf0.valid)
    && Words(p, r.fifo) >= Owed(r)
  }

  /** Words are read for whole bursts, and no more addresses are there than bursts. */
  ghost predicate Bursts<U>(s: System<U>) {
    && (|s.words| + Owed(s.r)) % 16 == 0
    && 16 * Started(s) <= |s.words| + Owed(s.r)
    && |s.words| == |s.ws| + if s.r.buf1.valid then 1 else 0
  }

  /** With this many addresses lost. */
  ghost predicate Counts<U>(s: System<U>, lost: nat) { |s.words| + Owed(s.r) == 16 * (Started(s) + lost) }

  ghost predicate Addresses<U>(p: Params, s: System<U>)
    requires Sized(p)
  {
    && s.r.addr == Issued(s) % (p.ring.cfg + 1)
    && s.aws + OutputBuffer.Stored(s.r.buf0) == p.ring.BurstAddresses(Issued(s))
  }

  ghost predicate Beats<U>(p: Params, s: System<U>) {
    && (forall k :: 0 <= k < |s.words| ==> |s.words[k]| == p.readUnits)
    && s.accepted == Flatten(s.words) + s.r.fifo
    && s.ws + OutputBuffer.Stored(s.r.buf1) == BurstBeats(s.words)
  }

  /** What holds whatever the slave does. */
  ghost predicate Safe<U>(p: Params, s: System<U>)
    requires Sized(p)
  {
    Control(p, s.r) && Bursts(s) && Addresses(p, s) && Beats(p, s)
  }

  /** No address has been lost. */
  ghost predicate Inv<U>(p: Params, s: System<U>)
    requires Sized(p)
  {
    Safe(p, s) && Counts(s, 0)
  }

  /** What the core needs of the slave, in the cycles in which a burst starts: it
      has not taken more than 30 beats beyond the bursts whose address it took. */
  ghost predicate SlaveInStep<U>(p: Params, s: System<U>)
    requires Sized(p)
  {
    Starts(p, s.r) ==> |s.ws| <= 16 * |s.aws| + 30
  }

  /** ... in every cycle of a run. */
  ghost predicate SlaveKeepsStep<U>(p: Params, s: System<U>, cycles: seq<Cycle<U>>)
    requires Sized(p)
  {
    cycles != [] ==>
      && SlaveKeepsStep(p, s, cycles[..|cycles| - 1])
      && SlaveInStep(p, Run(p, s, cycles[..|cycles| - 1]))
  }

  lemma {:induction false} WordsAfter<U>(p: Params, fifo: seq<U>, sample: seq<U>)
    requires Sized(p)
    ensures Words(p, fifo + sample) >= Words(p, fifo)
    ensures |fifo| >= p.readUnits <==> Words(p, fifo) >= 1
    ensures |fifo| >= p.readUnits ==> Words(p, fifo[p.readUnits..] + sample) >= Words(p, fifo) - 1
  {
    DivMonotone(|fifo|, |fifo + sample|, p.readUnits);
    DivLess(|fifo|, p.readUnits);
    if |fifo| >= p.readUnits {
      DivMonotone(|fifo[p.readUnits..]|, |fifo[p.readUnits..] + sample|, p.readUnits);
    }
  }

  /** The FIFO is never read empty: every read finds the word that was promised. */
  lemma {:induction false} ControlStep<U>(p: Params, r: Regs<U>, c: Cycle<U>)
    requires Sized(p) && Control(p, r)
    ensures Control(p, Next(p, r, true, c))
    ensures Reads(p, r, c) ==> |r.fifo| >= p.readUnits
  {
    WordsAfter(p, r.fifo, if Pushes(p, r, c) then c.sample else []);
  }

  /** Words read and owed grow by a burst at a time. */
  lemma {:induction false} WordsGrow<U>(p: Params, s: System<U>, c: Cycle<U>)
    requires Sized(p) && Control(p, s.r)
    ensures var s' := Step(p, s, c);
            |s'.words| + Owed(s'.r) == |s.words| + Owed(s.r) + if Starts(p, s.r) then 16 else 0
  {
  }

  lemma {:induction false} StartedGrows<U>(p: Params, s: System<U>, c: Cycle<U>)
    requires Sized(p) && Control(p, s.r)
    ensures Started(Step(p, s, c)) == Started(s) + if Starts(p, s.r) && !s.r.awvalid then 1 else 0
  {
  }

  lemma {:induction false} BurstsStep<U>(p: Params, s: System<U>, c: Cycle<U>)
    requires Sized(p) && Control(p, s.r) && Bursts(s)
    ensures Bursts(Step(p, s, c))
  {
    WordsGrow(p, s, c);
    StartedGrows(p, s, c);
    assert |Step(p, s, c).words| == |Step(p, s, c).ws| + if Step(p, s, c).r.buf1.valid then 1 else 0;
  }

  /** A burst starts while the flag still holds the address of the one before. */
  predicate Overwrites<U>(p: Params, r: Regs<U>)
    requires Sized(p)
  {
    Starts(p, r) && r.awvalid
  }

  lemma CountsStep<U>(p: Params, s: System<U>, c: Cycle<U>, lost: nat)
    requires Sized(p) && Control(p, s.r) && Counts(s, lost)
    ensures Counts(Step(p, s, c), lost + if Overwrites(p, s.r) then 1 else 0)
  {
    WordsGrow(p, s, c);
    StartedGrows(p, s, c);
  }

  lemma {:induction false} AddressesStep<U>(p: Params, s: System<U>, c: Cycle<U>)
    requires Sized(p) && Addresses(p, s)
    ensures Addresses(p, Step(p, s, c))
  {
    var s' := Step(p, s, c);
    OutputBuffer.StepConserves(s.r.buf0, Cycle0(p, s.r, c));
    ModSuccessor(Issued(s), p.ring.cfg + 1);
    var stored, acc := OutputBuffer.Stored(s.r.buf0), OutputBuffer.Accepted(s.r.buf0, Cycle0(p, s.r, c));
    Regroup(s.aws, OutputBuffer.Delivered(s.r.buf0, Cycle0(p, s.r, c)), OutputBuffer.Stored(s'.r.buf0));
    Regroup(s.aws, stored, acc);
    assert acc == Moved(Issues(p, s.r, c), p.ring.BurstAddress(Issued(s)));
    assert p.ring.BurstAddresses(Issued(s')) == p.ring.BurstAddresses(Issued(s)) + acc;
  }

  lemma {:induction false} WordsStep<U>(p: Params, s: System<U>, c: Cycle<U>)
    requires Sized(p) && Control(p, s.r) && Beats(p, s)
    ensures Step(p, s, c).accepted == Flatten(Step(p, s, c).words) + Step(p, s, c).r.fifo
    ensures forall k :: 0 <= k < |Step(p, s, c).words| ==> |Step(p, s, c).words[k]| == p.readUnits
  {
    ControlStep(p, s.r, c);
    var taken := if Reads(p, s.r, c) then p.readUnits else 0;
    var pushed := if Pushes(p, s.r, c) then c.sample else [];
    FlattenMoved(s.words, Reads(p, s.r, c), Head(p, s.r));
    MovesFront(Flatten(s.words), s.r.fifo, pushed, taken);
    assert NextFifo(p, s.r, c) == s.r.fifo[taken..] + pushed;
    assert Reads(p, s.r, c) ==> Head(p, s.r) == s.r.fifo[..taken];
  }

  /** The beat counter is the position in the burst. */
  lemma CounterIsPosition(words: nat, cntr: nat)
    requires cntr < 16 && (words + 16 - cntr) % 16 == 0
    ensures words % 16 == cntr
  {
  }

  lemma BurstBeatsNext<U>(words: seq<seq<U>>, word: seq<U>)
    ensures BurstBeats(words + [word]) == BurstBeats(words) + [Beat(|words| % 16 == 15, word)]
  {
  }

  lemma BeatOfWord<U>(p: Params, s: System<U>, c: Cycle<U>)
    requires Sized(p) && Control(p, s.r) && Bursts(s)
    ensures BurstBeats(Step(p, s, c).words)
            == BurstBeats(s.words) + Moved(Reads(p, s.r, c), Beat(s.r.cntr == 15, Head(p, s.r)))
  {
    if Reads(p, s.r, c) {
      if s.r.wvalid {
        CounterIsPosition(|s.words|, s.r.cntr);
      }
      BurstBeatsNext(s.words, Head(p, s.r));
    } else {
      assert s.words + [] == s.words;
    }
  }

  lemma {:induction false} BeatsStep<U>(p: Params, s: System<U>, c: Cycle<U>)
    requires Sized(p) && Control(p, s.r) && Bursts(s) && Beats(p, s)
    ensures Beats(p, Step(p, s, c))
  {
    WordsStep(p, s, c);
    BeatOfWord(p, s, c);
    var stored, c1 := OutputBuffer.Stored(s.r.buf1), Cycle1(p, s.r, c);
    OutputBuffer.StepConserves(s.r.buf1, c1);
    var delivered, accepted := OutputBuffer.Delivered(s.r.buf1, c1), OutputBuffer.Accepted(s.r.buf1, c1);
    var stored' := OutputBuffer.Stored(OutputBuffer.Next(s.r.buf1, true, c1));
    assert (s.ws + delivered) + stored' == (s.ws + stored) + accepted by {
      assert s.ws + (delivered + stored') == s.ws + (stored + accepted);
    }
  }

  lemma FreshInv<U>(p: Params, r: Regs<U>)
    requires Sized(p) && IsReset(r)
    ensures Inv(p, Fresh(r))
  {
    assert Flatten<U>([]) == [];
  }

  lemma SafeStep<U>(p: Params, s: System<U>, c: Cycle<U>)
    requires Sized(p) && Safe(p, s)
    ensures Safe(p, Step(p, s, c))
  {
    ControlStep(p, s.r, c);
    BurstsStep(p, s, c);
    AddressesStep(p, s, c);
    BeatsStep(p, s, c);
  }

  lemma {:induction false} RunSafe<U>(p: Params, s: System<U>, cycles: seq<Cycle<U>>)
    requires Sized(p) && Safe(p, s)
    ensures Safe(p, Run(p, s, cycles))
  {
    if cycles != [] {
      RunSafe(p, s, cycles[..|cycles| - 1]);
      SafeStep(p, Run(p, s, cycles[..|cycles| - 1]), cycles[|cycles| - 1]);
    }
  }

  /** The flag is overwritten exactly if the slave has taken more than 30 beats beyond
      the bursts whose address it took or never will. */
  lemma OverwritesExactly<U>(p: Params, s: System<U>, lost: nat)
    requires Sized(p) && Safe(p, s) && Counts(s, lost)
    ensures Overwrites(p, s.r) <==> Starts(p, s.r) && |s.ws| > 16 * (|s.aws| + lost) + 30
  {
  }

  lemma InvStep<U>(p: Params, s: System<U>, c: Cycle<U>)
    requires Sized(p) && Inv(p, s) && SlaveInStep(p, s)
    ensures Inv(p, Step(p, s, c))
  {
    SafeStep(p, s, c);
    CountsStep(p, s, c, 0);
    OverwritesExactly(p, s, 0);
  }

  lemma {:induction false} RunInv<U>(p: Params, s: System<U>, cycles: seq<Cycle<U>>)
    requires Sized(p) && Inv(p, s) && SlaveKeepsStep(p, s, cycles)
    ensures Inv(p, Run(p, s, cycles))
  {
    if cycles != [] {
      var before := cycles[..|cycles| - 1];
      RunInv(p, s, before);
      InvStep(p, Run(p, s, before), cycles[|cycles| - 1]);
    }
  }

  // ---------- Results ----------

  /** Word j of a stream: readUnits consecutive units. */
  function StreamWord<U>(p: Params, stream: seq<U>, j: nat): seq<U>
    requires j * p.readUnits <= (j + 1) * p.readUnits <= |stream|
  {
    stream[j * p.readUnits..(j + 1) * p.readUnits]
  }

  lemma {:induction false} WordAt<U>(p: Params, words: seq<seq<U>>, tail: seq<U>, j: nat)
    requires forall k :: 0 <= k < |words| ==> |words[k]| == p.readUnits
    requires j < |words|
    ensures j * p.readUnits <= (j + 1) * p.readUnits <= |Flatten(words) + tail|
    ensures StreamWord(p, Flatten(words) + tail, j) == words[j]
  {
    var n := |words| - 1;
    FlattenLength(words, p.readUnits);
    FlattenLength(words[..n], p.readUnits);
    WordBounds(j, n + 1, p.readUnits);
    Regroup(Flatten(words[..n]), words[n], tail);
    if j < n {
      WordAt(p, words[..n], words[n] + tail, j);
    } else {
      SliceBehind(Flatten(words[..n]), words[n], tail);
    }
  }

  lemma SliceBehind<U>(a: seq<U>, b: seq<U>, c: seq<U>)
    ensures (a + b + c)[|a|..|a| + |b|] == b
  {
  }

  lemma {:induction false} FlatWord<U>(p: Params, words: seq<seq<U>>, tail: seq<U>, j: nat)
    requires forall k :: 0 <= k < |words| ==> |words[k]| == p.readUnits
    ensures |Flatten(words)| == |words| * p.readUnits
    ensures j < |words| ==>
              && j * p.readUnits <= (j + 1) * p.readUnits <= |Flatten(words) + tail|
              && StreamWord(p, Flatten(words) + tail, j) == words[j]
  {
    FlattenLength(words, p.readUnits);
    if j < |words| {
      WordAt(p, words, tail, j);
    }
  }

  /** Beat j of the write channel carries word j of the accepted stream, and is
      marked last exactly if it is a sixteenth beat. */
  ghost predicate CarriesWord<U>(p: Params, accepted: seq<U>, j: nat, beat: Beat<U>) {
    && (beat.last <==> j % 16 == 15)
    && j * p.readUnits <= (j + 1) * p.readUnits <= |accepted|
    && beat.word == StreamWord(p, accepted, j)
  }

  lemma BeatCarriesWord<U>(p: Params, s: System<U>, j: nat)
    requires Beats(p, s) && j < |s.ws|
    ensures CarriesWord(p, s.accepted, j, s.ws[j])
  {
    assert s.ws[j] == (s.ws + OutputBuffer.Stored(s.r.buf1))[j] == BurstBeats(s.words)[j];
    FlatWord(p, s.words, s.r.fifo, j);
  }

  lemma AddressInOrder<U>(p: Params, s: System<U>, k: nat)
    requires Sized(p) && Addresses(p, s) && k < |s.aws|
    ensures s.aws[k] == p.ring.BurstAddress(k)
  {
    assert s.aws[k] == (s.aws + OutputBuffer.Stored(s.r.buf0))[k];
  }

  /** For every schedule of samples and slave readiness the core hands the slave the
      ring addresses in order, and beats that carry the accepted stream, word for
      word, in bursts whose every sixteenth beat is marked last. */
  lemma {:induction false} WritesStream<U>(p: Params, r: Regs<U>, cycles: seq<Cycle<U>>)
    requires Sized(p) && IsReset(r)
    ensures var s := Run(p, Fresh(r), cycles);
            && (forall k :: 0 <= k < |s.aws| ==> s.aws[k] == p.ring.BurstAddress(k))
            && (forall j :: 0 <= j < |s.ws| ==> CarriesWord(p, s.accepted, j, s.ws[j]))
  {
    var s := Run(p, Fresh(r), cycles);
    FreshInv(p, r);
    RunSafe(p, Fresh(r), cycles);
    forall k | 0 <= k < |s.aws| ensures s.aws[k] == p.ring.BurstAddress(k) {
      AddressInOrder(p, s, k);
    }
    forall j | 0 <= j < |s.ws| ensures CarriesWord(p, s.accepted, j, s.ws[j]) {
      BeatCarriesWord(p, s, j);
    }
  }

  /** The FIFO never underflows, and a nonzero beat counter means that a burst is in
      progress whose remaining beats are all in the FIFO; in every run. */
  lemma {:induction false} NeverUnderflows<U>(p: Params, r: Regs<U>, cycles: seq<Cycle<U>>, c: Cycle<U>)
    requires Sized(p) && IsReset(r)
    ensures var now := Run(p, Fresh(r), cycles).r;
            && (Reads(p, now, c) ==> |now.fifo| >= p.readUnits)
            && (now.cntr != 0 ==> now.wvalid)
            && (now.wvalid ==> Words(p, now.fifo) >= 16 - now.cntr)
  {
    FreshInv(p, r);
    RunSafe(p, Fresh(r), cycles);
    ControlStep(p, Run(p, Fresh(r), cycles).r, c);
  }

  /** The addresses lost in a run. */
  function Losses<U>(p: Params, s: System<U>, cycles: seq<Cycle<U>>): nat
    requires Sized(p)
  {
    if cycles == [] then 0
    else
      var before := cycles[..|cycles| - 1];
      Losses(p, s, before) + if Overwrites(p, Run(p, s, before).r) then 1 else 0
  }

  /** In every run the bursts begun are those whose address is there and those that
      overwrote one: exactly so many addresses are missing. */
  lemma {:induction false} LossesCount<U>(p: Params, r: Regs<U>, cycles: seq<Cycle<U>>)
    requires Sized(p) && IsReset(r)
    ensures Counts(Run(p, Fresh(r), cycles), Losses(p, Fresh(r), cycles))
  {
    if cycles == [] {
      FreshInv(p, r);
    } else {
      var before := cycles[..|cycles| - 1];
      LossesCount(p, r, before);
      FreshInv(p, r);
      RunSafe(p, Fresh(r), before);
      CountsStep(p, Run(p, Fresh(r), before), cycles[|cycles| - 1], Losses(p, Fresh(r), before));
    }
  }

  /** The condition on the slave is exact: no address is lost in a run if and only if
      the slave was in step whenever a burst started. */
  lemma {:induction false} AddressIsLostExactly<U>(p: Params, r: Regs<U>, cycles: seq<Cycle<U>>)
    requires Sized(p) && IsReset(r)
    ensures Losses(p, Fresh(r), cycles) == 0 <==> SlaveKeepsStep(p, Fresh(r), cycles)
  {
    if cycles != [] {
      var before := cycles[..|cycles| - 1];
      AddressIsLostExactly(p, r, before);
      LossesCount(p, r, before);
      FreshInv(p, r);
      RunSafe(p, Fresh(r), before);
      OverwritesExactly(p, Run(p, Fresh(r), before), Losses(p, Fresh(r), before));
    }
  }

  /** With a slave in step no more than two bursts are ahead of their addresses. */
  lemma {:induction false} DataNearAddresses<U>(p: Params, r: Regs<U>, cycles: seq<Cycle<U>>)
    requires Sized(p) && IsReset(r) && SlaveKeepsStep(p, Fresh(r), cycles)
    ensures |Run(p, Fresh(r), cycles).ws| <= 16 * (|Run(p, Fresh(r), cycles).aws| + 2)
  {
    FreshInv(p, r);
    RunInv(p, Fresh(r), cycles);
  }

  /** A slave takes the address of burst k before any beat of burst k + 1. */
  ghost predicate AddressFirst<U>(s: System<U>) {
    forall k: nat :: BeatsBeyond(s, k) ==> |s.aws| > k
  }

  predicate BeatsBeyond<U>(s: System<U>, k: nat) { |s.ws| > 16 * (k + 1) }

  /** In numbers: the data taken are at most one burst ahead of the addresses taken. */
  lemma {:induction false} AddressFirstExactly<U>(s: System<U>)
    ensures AddressFirst(s) <==> |s.ws| <= 16 * (|s.aws| + 1)
  {
    assert BeatsBeyond(s, |s.aws|) <==> |s.ws| > 16 * (|s.aws| + 1);
  }

  ghost predicate AddressAlwaysFirst<U>(p: Params, s: System<U>, cycles: seq<Cycle<U>>)
    requires Sized(p)
  {
    cycles != [] ==>
      && AddressAlwaysFirst(p, s, cycles[..|cycles| - 1])
      && AddressFirst(Run(p, s, cycles[..|cycles| - 1]))
  }

  /** Such a slave keeps in step. */
  lemma {:induction false} AddressFirstKeepsStep<U>(p: Params, s: System<U>, cycles: seq<Cycle<U>>)
    requires Sized(p) && AddressAlwaysFirst(p, s, cycles)
    ensures SlaveKeepsStep(p, s, cycles)
  {
    if cycles != [] {
      var before := Run(p, s, cycles[..|cycles| - 1]);
      AddressFirstKeepsStep(p, s, cycles[..|cycles| - 1]);
      assert !BeatsBeyond(before, |before.aws|);
    }
  }

  class Core<U> {
    const p: Params
    var intAwvalidReg: bool
    var intWvalidReg: bool
    var intCntrReg: nat
    var intAddrReg: nat
    var buf0: OutputBuffer.Regs<nat>
    var buf1: OutputBuffer.Regs<Beat<U>>
    var fifo: seq<U>

    constructor (p: Params)
      ensures this.p == p && IsReset(State())
    {
      this.p := p;
      intAwvalidReg, intWvalidReg, intCntrReg, intAddrReg := false, false, 0, 0;
      buf0 := OutputBuffer.Regs(false, 0);
      buf1 := OutputBuffer.Regs(false, Beat(false, []));
      fifo := [];
    }

    function State(): Regs<U>
      reads this
    {
      Regs(intAwvalidReg, intWvalidReg, intCntrReg, intAddrReg, buf0, buf1, fifo)
    }

    /** The clocked block of the core itself. The later assignments override the
        earlier ones: an address taken at once is never pending, and the last beat
        ends the burst. */
    method Clock(intValidWire: bool, intAwreadyWire: bool, intWreadyWire: bool)
      requires Sized(p) && intValidWire == Starts(p, State())
      modifies this`intAwvalidReg, this`intWvalidReg, this`intCntrReg, this`intAddrReg
      ensures var r := old(State());
              && intAwvalidReg == (AwValid(p, r) && !(AwValid(p, r) && intAwreadyWire))
              && intWvalidReg == (WValid(p, r) && !(intWreadyWire && r.cntr == 15))
              && intCntrReg == (if WValid(p, r) && intWreadyWire then (r.cntr + 1) % 16 else r.cntr)
              && intAddrReg == (if !(AwValid(p, r) && intAwreadyWire) then r.addr
                                else if r.addr < p.ring.cfg then r.addr + 1 else 0)
    {
      var intAwvalidWire := intValidWire || intAwvalidReg;
      var intWvalidWire := intValidWire || intWvalidReg;
      var intRdenWire := intWvalidWire && intWreadyWire;
      var intWlastWire := intCntrReg == 15;
      if intValidWire {
        intAwvalidReg := true;
        intWvalidReg := true;
      }
      if intAwvalidWire && intAwreadyWire {
        intAwvalidReg := false;
        intAddrReg := if intAddrReg < p.ring.cfg then intAddrReg + 1 else 0;
      }
      if intRdenWire {
        intCntrReg := (intCntrReg + 1) % 16;
      }
      if intWreadyWire && intWlastWire {
        intWvalidReg := false;
      }
    }

    method Tick(aresetn: bool, c: Cycle<U>) returns (sAxisTready: bool, stsData: nat)
      requires Sized(p)
      modifies this
      ensures sAxisTready == !Full(p, old(State())) && stsData == old(intAddrReg)
      ensures State() == Next(p, old(State()), aresetn, c)
    {
      ghost var r := State();
      sAxisTready, stsData := !Full(p, State()), intAddrReg;
      var intValidWire := |fifo| / p.readUnits > 15 && !intWvalidReg;
      var intAwreadyWire := OutputBuffer.InReady(buf0, c.awready);
      var intWreadyWire := OutputBuffer.InReady(buf1, c.wready);
      var cycle0 := Cycle0(p, State(), c);
      var cycle1 := Cycle1(p, State(), c);
      var fifoNext := NextFifo(p, State(), c);
      if !aresetn {
        intAwvalidReg, intWvalidReg, intCntrReg, intAddrReg, fifo := false, false, 0, 0, [];
      } else {
        Clock(intValidWire, intAwreadyWire, intWreadyWire);
        fifo := fifoNext;
      }
      buf0 := OutputBuffer.Next(buf0, aresetn, cycle0);
      buf1 := OutputBuffer.Next(buf1, aresetn, cycle1);
    }
  }
}
