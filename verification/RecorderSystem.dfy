/** A counter or a packetizer that stops after limit + 1 samples, feeding the burst
    writer (projects/writer_test and projects/adc_recorder): the recording completes,
    and stays inside the memory set aside for it. */
module RecorderSystem {
  import opened Arithmetic
  import opened AxisRamWriter
  import opened RamImage
  import Sequencer

  /** Both cores fire when they are enabled, have a sample and the writer is ready.
      A packetizer is given its samples; a counter always has one, its own count. */
  datatype Recorder<U> = Recorder(q: Sequencer.Regs, w: System<U>)

  function Offered<U>(s: Recorder<U>, c: Cycle<U>): Cycle<U> { c.(tvalid := s.q.enbl && c.tvalid) }

  function Advance<U>(p: Params, limit: nat, s: Recorder<U>, c: Cycle<U>): Recorder<U>
    requires Sized(p)
  {
    Recorder(Sequencer.Next(false, limit, s.q, c.tvalid && !Full(p, s.w.r)), Step(p, s.w, Offered(s, c)))
  }

  function Record<U>(p: Params, limit: nat, r: Regs<U>, cycles: seq<Cycle<U>>): Recorder<U>
    requires Sized(p)
  {
    if cycles == [] then Recorder(Sequencer.RESET, Fresh(r))
    else Advance(p, limit, Record(p, limit, r, cycles[..|cycles| - 1]), cycles[|cycles| - 1])
  }

  ghost predicate SlaveKeepsStepHere<U>(p: Params, limit: nat, r: Regs<U>, cycles: seq<Cycle<U>>)
    requires Sized(p)
  {
    cycles != [] ==>
      && SlaveKeepsStepHere(p, limit, r, cycles[..|cycles| - 1])
      && SlaveInStep(p, Record(p, limit, r, cycles[..|cycles| - 1]).w)
  }

  /** One 32-bit sample is one unit of the FIFO, and the FIFO holds a whole burst. */
  ghost predicate Fits<U>(p: Params, cycles: seq<Cycle<U>>) {
    && Sized(p) && p.writeUnits == 1 && p.capacity >= 16 * p.readUnits + 1
    && (forall k :: 0 <= k < |cycles| ==> |cycles[k].sample| == 1)
  }

  /** What holds in every recording, whatever the slave does. */
  ghost predicate RecInv<U>(p: Params, limit: nat, cycles: nat, s: Recorder<U>)
    requires Sized(p)
  {
    Safe(p, s.w) && Sequencer.Phase(false, limit, cycles, |s.w.accepted|, s.q)
  }

  lemma {:induction false} RecordInv<U>(p: Params, limit: nat, r: Regs<U>, cycles: seq<Cycle<U>>)
    requires Fits(p, cycles) && IsReset(r)
    ensures RecInv(p, limit, |cycles|, Record(p, limit, r, cycles))
  {
    if cycles == [] {
      FreshInv(p, r);
    } else {
      var before, c := cycles[..|cycles| - 1], cycles[|cycles| - 1];
      RecordInv(p, limit, r, before);
      var s := Record(p, limit, r, before);
      SafeStep(p, s.w, Offered(s, c));
      Sequencer.PhaseStep(false, limit, |before|, |s.w.accepted|, s.q, c.tvalid && !Full(p, s.w.r));
    }
  }

  lemma {:induction false} RecordBounded<U>(p: Params, limit: nat, r: Regs<U>, cycles: seq<Cycle<U>>)
    requires Fits(p, cycles) && IsReset(r)
    ensures Safe(p, Record(p, limit, r, cycles).w)
    ensures |Record(p, limit, r, cycles).w.accepted| <= limit + 1
  {
    RecordInv(p, limit, r, cycles);
  }

  /** With a slave in step no address is lost. */
  lemma {:induction false} RecordInStep<U>(p: Params, limit: nat, r: Regs<U>, cycles: seq<Cycle<U>>)
    requires Fits(p, cycles) && IsReset(r) && SlaveKeepsStepHere(p, limit, r, cycles)
    ensures Inv(p, Record(p, limit, r, cycles).w)
  {
    if cycles == [] {
      FreshInv(p, r);
    } else {
      var before, c := cycles[..|cycles| - 1], cycles[|cycles| - 1];
      RecordInStep(p, limit, r, before);
      var s := Record(p, limit, r, before);
      InvStep(p, s.w, Offered(s, c));
    }
  }

  // ---------- The recording completes ----------

  /** The words that a stream of `total` samples fills whole bursts with. */
  function BurstWords(p: Params, total: nat): nat
    requires Sized(p)
  {
    16 * Bursts(total, 16 * p.readUnits)
  }

  function Bursts(total: nat, burst: nat): nat
    requires burst > 0
  {
    total / burst
  }

  /** No burst starts before all its words have arrived. */
  lemma WordsBounded<U>(p: Params, s: System<U>, total: nat)
    requires Sized(p) && Safe(p, s) && |s.accepted| <= total
    ensures |s.words| <= BurstWords(p, total)
    ensures 16 * Started(s) <= BurstWords(p, total)
    ensures WValid(p, s.r) ==> |s.words| < BurstWords(p, total)
  {
    var inFifo := Words(p, s.r.fifo);
    FlatWord(p, s.words, s.r.fifo, 0);
    InWords(|s.r.fifo|, p.readUnits);
    var bursts := (|s.words| + Owed(s.r)) / 16 + if Starts(p, s.r) then 1 else 0;
    BurstsFit(|s.words|, inFifo, bursts, p.readUnits, total);
    assert WValid(p, s.r) ==> |s.words| < 16 * bursts;
  }

  lemma InWords(units: nat, u: nat)
    requires u > 0
    ensures u * (units / u) <= units
  {
  }

  lemma {:induction false} BurstsFit(words: nat, inFifo: nat, bursts: nat, u: nat, total: nat)
    requires u > 0 && words * u + u * inFifo <= total && 16 * bursts <= words + inFifo
    ensures bursts <= total / (16 * u)
  {
    assert (words + inFifo - 16 * bursts) * u >= 0;
    assert bursts * (16 * u) == 16 * bursts * u <= total;
    DivMonotone(bursts * (16 * u), total, 16 * u);
    UniqueDivision(bursts * (16 * u), 16 * u, bursts, 0);
  }

  /** Willing cycles still needed. */
  function ToDo<U>(p: Params, total: nat, s: System<U>): int
    requires Sized(p)
  {
    if |s.accepted| < total || |s.words| < BurstWords(p, total)
    then total - |s.accepted| + BurstWords(p, total) - |s.words| + 2
    else Left(p, s.r)
  }

  /** The slave is willing, and the source has a sample unless it has finished. */
  predicate Helps<U>(total: nat, s: System<U>, c: Cycle<U>) {
    c.awready && c.wready && (c.tvalid || |s.accepted| == total)
  }

  lemma ToDoStep<U>(p: Params, total: nat, s: System<U>, c: Cycle<U>)
    requires Sized(p) && p.writeUnits == 1 && p.capacity >= 16 * p.readUnits + 1 && |c.sample| == 1
    requires Safe(p, s) && |Step(p, s, c).accepted| <= total
    ensures 0 <= ToDo(p, total, Step(p, s, c)) <= ToDo(p, total, s)
    ensures Helps(total, s, c) && ToDo(p, total, s) > 0 ==> ToDo(p, total, Step(p, s, c)) < ToDo(p, total, s)
  {
    var s' := Step(p, s, c);
    SafeStep(p, s, c);
    WordsBounded(p, s, total);
    WordsBounded(p, s', total);
    if |s.accepted| < total {
      if Full(p, s.r) {
        DivMonotone(16 * p.readUnits, |s.r.fifo|, p.readUnits);
        UniqueDivision(16 * p.readUnits, p.readUnits, 16, 0);
        assert WValid(p, s.r);
      }
    } else if |s.words| < BurstWords(p, total) {
      if !WValid(p, s.r) {
        NothingWaits(p, s, total);
      }
    } else {
      LeftStep(p, s.r, c.(tvalid := false));
      assert !Pushes(p, s.r, c);
      assert Next(p, s.r, true, c) == Next(p, s.r, true, c.(tvalid := false));
    }
  }

  /** With the input complete, a core that starts no burst has sent them all. */
  lemma NothingWaits<U>(p: Params, s: System<U>, total: nat)
    requires Sized(p) && Safe(p, s) && |s.accepted| == total && !WValid(p, s.r)
    ensures |s.words| == BurstWords(p, total)
  {
    FlatWord(p, s.words, s.r.fifo, 0);
    WholeBursts(|s.words| / 16, p.readUnits, |s.r.fifo|);
  }

  /** The cycles of a recording that help, after the two that start the source. */
  function HelpfulCycles<U>(p: Params, limit: nat, r: Regs<U>, cycles: seq<Cycle<U>>): nat
    requires Sized(p)
  {
    if |cycles| <= 2 then 0
    else
      var before, c := cycles[..|cycles| - 1], cycles[|cycles| - 1];
      HelpfulCycles(p, limit, r, before)
      + if Helps(limit + 1, Record(p, limit, r, before).w, c) then 1 else 0
  }

  lemma {:induction false} Progress<U>(p: Params, limit: nat, r: Regs<U>, cycles: seq<Cycle<U>>)
    requires Fits(p, cycles) && IsReset(r) && limit >= 1
    ensures var todo := ToDo(p, limit + 1, Record(p, limit, r, cycles).w);
            && 0 <= todo
            && (todo == 0
                || todo + HelpfulCycles(p, limit, r, cycles) <= limit + 3 + BurstWords(p, limit + 1))
  {
    if cycles != [] {
      var before := cycles[..|cycles| - 1];
      Progress(p, limit, r, before);
      RecordInv(p, limit, r, before);
      ProgressStep(p, limit, |before|, Record(p, limit, r, before), cycles[|cycles| - 1]);
    }
  }

  lemma {:induction false} ProgressStep<U>(p: Params, limit: nat, cycles: nat, s: Recorder<U>, c: Cycle<U>)
    requires Fits(p, [c]) && RecInv(p, limit, cycles, s) && limit >= 1
    ensures var w, w' := s.w, Advance(p, limit, s, c).w;
            && 0 <= ToDo(p, limit + 1, w') <= ToDo(p, limit + 1, w)
            && (cycles >= 2 && Helps(limit + 1, w, c) && ToDo(p, limit + 1, w) > 0 ==>
                  ToDo(p, limit + 1, w') < ToDo(p, limit + 1, w))
  {
    assert |[c][0].sample| == 1;
    Sequencer.PhaseStep(false, limit, cycles, |s.w.accepted|, s.q, c.tvalid && !Full(p, s.w.r));
    assert cycles >= 2 && Helps(limit + 1, s.w, c) ==> Helps(limit + 1, s.w, Offered(s, c));
    ToDoStep(p, limit + 1, s.w, Offered(s, c));
  }

  lemma {:induction false} RecordingEnds<U>(p: Params, limit: nat, r: Regs<U>, cycles: seq<Cycle<U>>)
    requires Fits(p, cycles) && IsReset(r) && limit >= 1
    requires HelpfulCycles(p, limit, r, cycles) >= limit + 3 + BurstWords(p, limit + 1)
    ensures Exhausted(p, limit + 1, Record(p, limit, r, cycles).w)
  {
    Progress(p, limit, r, cycles);
    RecordBounded(p, limit, r, cycles);
  }

  ghost predicate Exhausted<U>(p: Params, total: nat, w: System<U>) {
    Sized(p) && Safe(p, w) && |w.accepted| <= total && ToDo(p, total, w) == 0
  }

  /** All samples are accepted and the data of every whole burst sent. */
  ghost predicate DataComplete<U>(p: Params, total: nat, w: System<U>)
    requires Sized(p)
  {
    && |w.accepted| == total
    && |w.ws| == 16 * (total / (16 * p.readUnits))
    && |w.aws| <= total / (16 * p.readUnits)
    && w.r.addr == |w.aws| % (p.ring.cfg + 1)
    && |w.r.fifo| == total % (16 * p.readUnits)
  }

  ghost predicate Complete<U>(p: Params, total: nat, w: System<U>)
    requires Sized(p)
  {
    DataComplete(p, total, w) && |w.aws| == total / (16 * p.readUnits)
  }

  lemma NothingToDo<U>(p: Params, total: nat, w: System<U>)
    requires Exhausted(p, total, w)
    ensures DataComplete(p, total, w) && Left(p, w.r) == 0
  {
    WordsBounded(p, w, total);
    DataSettled(p, w);
  }

  /** A recording completes after a bounded number of willing cycles, however they
      are interrupted and in whatever order the slave takes data and addresses: all
      limit + 1 samples are accepted and the data of every whole burst has been taken. */
  lemma {:induction false} DataCompletes<U>(p: Params, limit: nat, r: Regs<U>, cycles: seq<Cycle<U>>)
    requires Fits(p, cycles) && IsReset(r) && limit >= 1
    requires HelpfulCycles(p, limit, r, cycles) >= limit + 3 + BurstWords(p, limit + 1)
    ensures DataComplete(p, limit + 1, Record(p, limit, r, cycles).w) && Left(p, Record(p, limit, r, cycles).w.r) == 0
  {
    RecordingEnds(p, limit, r, cycles);
    NothingToDo(p, limit + 1, Record(p, limit, r, cycles).w);
  }

  ghost predicate Steady<U>(cycles: seq<Cycle<U>>) {
    forall k :: 0 <= k < |cycles| ==> cycles[k].awready && cycles[k].wready && cycles[k].tvalid
  }

  lemma {:induction false} HelpfulAll<U>(p: Params, limit: nat, r: Regs<U>, cycles: seq<Cycle<U>>)
    requires Sized(p) && Steady(cycles)
    ensures HelpfulCycles(p, limit, r, cycles) == if |cycles| <= 2 then 0 else |cycles| - 2
  {
    if |cycles| > 2 {
      HelpfulAll(p, limit, r, cycles[..|cycles| - 1]);
    }
  }

  /** Without interruptions a clock for each sample, one for each bus word and four more
      are enough. */
  lemma {:induction false} CompletesInTime<U>(p: Params, limit: nat, r: Regs<U>, cycles: seq<Cycle<U>>)
    requires Fits(p, cycles) && IsReset(r) && limit >= 1 && Steady(cycles)
    requires |cycles| >= limit + 5 + 16 * ((limit + 1) / (16 * p.readUnits))
    ensures DataComplete(p, limit + 1, Record(p, limit, r, cycles).w)
  {
    HelpfulAll(p, limit, r, cycles);
    DataCompletes(p, limit, r, cycles);
  }

  /** With a slave in step every address has been taken too, and sts_data is the number
      of bursts modulo the ring. */
  lemma {:induction false} RecordingCompletes<U>(p: Params, limit: nat, r: Regs<U>, cycles: seq<Cycle<U>>)
    requires Fits(p, cycles) && IsReset(r) && SlaveKeepsStepHere(p, limit, r, cycles) && limit >= 1
    requires HelpfulCycles(p, limit, r, cycles) >= limit + 3 + BurstWords(p, limit + 1)
    ensures Complete(p, limit + 1, Record(p, limit, r, cycles).w)
  {
    DataCompletes(p, limit, r, cycles);
    RecordInStep(p, limit, r, cycles);
    Settled(p, Record(p, limit, r, cycles).w);
  }

  // ---------- projects/writer_test ----------

  /** The samples are those of the counter: in every cycle its current count. */
  ghost predicate Counting(p: Params, limit: nat, r: Regs<nat>, cycles: seq<Cycle<nat>>)
    requires Sized(p)
  {
    cycles != [] ==>
      && Counting(p, limit, r, cycles[..|cycles| - 1])
      && cycles[|cycles| - 1].tvalid
      && cycles[|cycles| - 1].sample == [Record(p, limit, r, cycles[..|cycles| - 1]).q.cntr]
  }

  /** The accepted stream counts 0, 1, 2, ... */
  lemma {:induction false} CounterStream(p: Params, limit: nat, r: Regs<nat>, cycles: seq<Cycle<nat>>)
    requires Fits(p, cycles) && IsReset(r) && Counting(p, limit, r, cycles)
    ensures var a := Record(p, limit, r, cycles).w.accepted;
            && |a| <= limit + 1
            && (forall i :: 0 <= i < |a| ==> a[i] == i)
  {
    RecordBounded(p, limit, r, cycles);
    if cycles != [] {
      var before := cycles[..|cycles| - 1];
      CounterStream(p, limit, r, before);
      RecordInv(p, limit, r, before);
      CounterStep(p, limit, |before|, Record(p, limit, r, before), cycles[|cycles| - 1]);
    }
  }

  lemma CounterStep(p: Params, limit: nat, cycles: nat, s: Recorder<nat>, c: Cycle<nat>)
    requires Sized(p) && RecInv(p, limit, cycles, s) && c.sample == [s.q.cntr]
    ensures Advance(p, limit, s, c).w.accepted == s.w.accepted
            || Advance(p, limit, s, c).w.accepted == s.w.accepted + [|s.w.accepted|]
  {
  }

  /** The position the test program waits for: 2097216 counts fill 65538 bursts of a
      ring of 65536. */
  lemma TestWaitsForTwo(p: Params, r: Regs<nat>, cycles: seq<Cycle<nat>>)
    requires Fits(p, cycles) && IsReset(r) && p.ring.cfg == 65535 && p.readUnits == 2
    requires SlaveKeepsStepHere(p, 2097151 + 64, r, cycles)
    requires HelpfulCycles(p, 2097151 + 64, r, cycles) >= 2097218 + 1048608
    ensures Record(p, 2097151 + 64, r, cycles).w.r.addr == 2
  {
    assert BurstWords(p, 2097151 + 64 + 1) == 1048608;
    RecordingCompletes(p, 2097151 + 64, r, cycles);
    assert (2097151 + 64 + 1) / (16 * p.readUnits) == 65538;
  }

  // ---------- projects/adc_recorder ----------

  /** With N samples of 4 bytes, N a multiple of 32 and a page-aligned buffer of 4 N
      bytes below the address limit, every burst the writer ever asks for lies inside
      the buffer and inside one page. */
  lemma StaysInBuffer<U>(p: Params, limit: nat, r: Regs<U>, cycles: seq<Cycle<U>>, k: nat)
    requires Fits(p, cycles) && IsReset(r)
    requires p.readUnits == 2 && p.ring.wordBytes == 8
    requires (limit + 1) % 32 == 0 && p.ring.minAddr % 4096 == 0 && p.ring.minAddr + 4 * (limit + 1) <= p.ring.space
    requires k < |Record(p, limit, r, cycles).w.aws|
    ensures var a := Record(p, limit, r, cycles).w.aws[k];
            && p.ring.minAddr <= a && a + 16 * 8 <= p.ring.minAddr + 4 * (limit + 1)
            && a / 4096 == (a + 16 * 8 - 1) / 4096
  {
    RecordBounded(p, limit, r, cycles);
    BurstStays(p, limit, Record(p, limit, r, cycles).w, k);
  }

  lemma BurstStays<U>(p: Params, limit: nat, w: System<U>, k: nat)
    requires Sized(p) && Safe(p, w) && |w.accepted| <= limit + 1 && k < |w.aws|
    requires p.readUnits == 2 && p.ring.wordBytes == 8
    requires (limit + 1) % 32 == 0 && p.ring.minAddr % 4096 == 0 && p.ring.minAddr + 4 * (limit + 1) <= p.ring.space
    ensures p.ring.minAddr <= w.aws[k] && w.aws[k] + 128 <= p.ring.minAddr + 4 * (limit + 1)
    ensures w.aws[k] / 4096 == (w.aws[k] + 127) / 4096
  {
    WordsBounded(p, w, limit + 1);
    AddressInOrder(p, w, k);
    ModAtMost(k, p.ring.cfg + 1);
    BurstInBuffer(p, limit, k % (p.ring.cfg + 1));
  }

  lemma ModAtMost(k: nat, m: nat)
    requires m > 0
    ensures k % m <= k
  {
    assert k == m * (k / m) + k % m;
  }

  lemma {:induction false} BurstInBuffer(p: Params, limit: nat, q: nat)
    requires Sized(p) && p.ring.wordBytes == 8 && q < (limit + 1) / 32
    requires p.ring.minAddr % 4096 == 0 && p.ring.minAddr + 4 * (limit + 1) <= p.ring.space
    ensures p.ring.Address(q) == p.ring.minAddr + q * 128
    ensures (p.ring.minAddr + q * 128) / 4096 == (p.ring.minAddr + q * 128 + 127) / 4096
    ensures p.ring.minAddr + q * 128 + 128 <= p.ring.minAddr + 4 * (limit + 1)
  {
    assert q * 16 * p.ring.wordBytes == q * 128;
    assert (q + 1) * 32 <= limit + 1;
    SmallMod(p.ring.minAddr + q * 128, p.ring.space);
    InOnePage(p.ring.minAddr, q);
  }

  lemma InOnePage(base: nat, q: nat)
    requires base % 4096 == 0
    ensures (base + q * 128) / 4096 == (base + q * 128 + 127) / 4096
  {
    var k, r := q / 32, q % 32;
    var page := base / 4096 + k;
    assert base + q * 128 == page * 4096 + r * 128;
    UniqueDivision(base + q * 128, 4096, page, r * 128);
    UniqueDivision(base + q * 128 + 127, 4096, page, r * 128 + 127);
  }

  /** And once it is complete nothing is left behind in the FIFO. */
  lemma {:induction false} NothingLeftBehind<U>(p: Params, limit: nat, r: Regs<U>, cycles: seq<Cycle<U>>)
    requires Fits(p, cycles) && IsReset(r) && limit >= 1
    requires p.readUnits == 2 && (limit + 1) % 32 == 0
    requires HelpfulCycles(p, limit, r, cycles) >= limit + 3 + BurstWords(p, limit + 1)
    ensures var w := Record(p, limit, r, cycles).w; w.r.fifo == [] && |w.ws| * 2 == limit + 1
  {
    DataCompletes(p, limit, r, cycles);
  }
}
