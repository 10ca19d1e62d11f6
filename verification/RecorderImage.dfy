/** What a complete recording leaves in RAM (projects/writer_test and
    projects/adc_recorder): the latest samples mapped to every word of the ring. */
module RecorderImage {
  import opened Arithmetic
  import opened AxisRamWriter
  import opened BurstRing
  import opened RamImage
  import opened RecorderSystem
  import Sequencer

  ghost predicate RingFits(p: Params) { Sized(p) && p.ring.Size() * p.ring.wordBytes <= p.ring.space }

  /** RAM after all beats of a recording. */
  function RamOf<U>(p: Params, w: System<U>): map<nat, seq<U>>
    requires Sized(p) && |w.ws| <= 16 * |w.aws|
  {
    Ram(p, w.aws, w.ws, |w.ws|)
  }

  /** The slot of word j of the stream, unless a later word of the stream replaces it,
      holds this. */
  ghost predicate SlotHolds<U>(p: Params, w: System<U>, j: nat, word: seq<U>)
    requires Sized(p) && |w.ws| <= 16 * |w.aws|
  {
    var slot := p.ring.SlotAddress(j % p.ring.Size());
    slot in RamOf(p, w) && RamOf(p, w)[slot] == word
  }

  lemma {:induction false} LatestInRam<U>(p: Params, w: System<U>, j: nat)
    requires RingFits(p) && Safe(p, w) && |w.ws| <= 16 * |w.aws|
    requires j < |w.ws| <= j + p.ring.Size()
    ensures CarriesWord(p, w.accepted, j, w.ws[j])
    ensures SlotHolds(p, w, j, StreamWord(p, w.accepted, j))
  {
    forall k | 0 <= k < |w.aws| ensures w.aws[k] == p.ring.BurstAddress(k) {
      AddressInOrder(p, w, k);
    }
    forall i | j < i < |w.ws| ensures i % p.ring.Size() != j % p.ring.Size() {
      DistinctMod(j, i, p.ring.Size());
    }
    RingHoldsLatest(p, w.aws, w.ws, |w.ws|);
    BeatCarriesWord(p, w, j);
  }

  /** The recording is complete, and these are the samples of word j. */
  ghost predicate RecordedInRam<U>(p: Params, w: System<U>, j: nat)
    requires Sized(p)
  {
    && |w.ws| == 16 * |w.aws|
    && (j < |w.ws| <= j + p.ring.Size() ==>
          && j * p.readUnits <= (j + 1) * p.readUnits <= |w.accepted|
          && SlotHolds(p, w, j, StreamWord(p, w.accepted, j)))
  }

  /** After a recording every slot of the ring holds the latest word of the accepted
      samples that is mapped to it. */
  lemma {:induction false} RecordingInRam<U>(p: Params, limit: nat, r: Regs<U>, cycles: seq<Cycle<U>>, j: nat)
    requires Fits(p, cycles) && IsReset(r) && SlaveKeepsStepHere(p, limit, r, cycles) && limit >= 1 && RingFits(p)
    requires HelpfulCycles(p, limit, r, cycles) >= limit + 3 + BurstWords(p, limit + 1)
    ensures RecordedInRam(p, Record(p, limit, r, cycles).w, j)
  {
    var w := Record(p, limit, r, cycles).w;
    RecordingCompletes(p, limit, r, cycles);
    RecordBounded(p, limit, r, cycles);
    if j < |w.ws| <= j + p.ring.Size() {
      LatestInRam(p, w, j);
    }
  }

  // ---------- The counter of projects/writer_test ----------

  function CountsFrom(first: nat, n: nat): seq<nat> { seq(n, t requires 0 <= t < n => first + t) }

  lemma CountsOfWord(p: Params, accepted: seq<nat>, j: nat)
    requires forall i :: 0 <= i < |accepted| ==> accepted[i] == i
    requires j * p.readUnits <= (j + 1) * p.readUnits <= |accepted|
    ensures StreamWord(p, accepted, j) == CountsFrom(j * p.readUnits, p.readUnits)
  {
    assert (j + 1) * p.readUnits == j * p.readUnits + p.readUnits;
  }

  /** Unit t of the word in the slot of word j is the count j * readUnits + t. */
  lemma {:induction false} CountsInRam(p: Params, limit: nat, r: Regs<nat>, cycles: seq<Cycle<nat>>, j: nat)
    requires Fits(p, cycles) && IsReset(r) && SlaveKeepsStepHere(p, limit, r, cycles) && limit >= 1 && RingFits(p)
    requires HelpfulCycles(p, limit, r, cycles) >= limit + 3 + BurstWords(p, limit + 1)
    requires Counting(p, limit, r, cycles)
    ensures var w := Record(p, limit, r, cycles).w;
            && |w.ws| == 16 * |w.aws| == BurstWords(p, limit + 1)
            && (j < |w.ws| <= j + p.ring.Size() ==>
                  SlotHolds(p, w, j, CountsFrom(j * p.readUnits, p.readUnits)))
  {
    var w := Record(p, limit, r, cycles).w;
    RecordingInRam(p, limit, r, cycles, j);
    RecordingCompletes(p, limit, r, cycles);
    CounterStream(p, limit, r, cycles);
    if j < |w.ws| <= j + p.ring.Size() {
      CountsOfWord(p, w.accepted, j);
    }
  }

  /** The latest word mapped to the slot of index i. */
  function WordOfIndex(i: nat): nat { if i < 64 then i / 2 + 1048576 else i / 2 }

  lemma SlotOfIndex(i: nat)
    requires i < 2097152
    ensures WordOfIndex(i) % 1048576 == i / 2 && WordOfIndex(i) < 1048608 <= WordOfIndex(i) + 1048576
    ensures WordOfIndex(i) * 2 + i % 2 == if i < 64 then 2097152 + i else i
  {
  }

  /** What the test program prints in the end: the 32-bit value at index i of the ring
      of 2097152 is i, and for the first 64 the second round, 2097152 + i. */
  lemma {:induction false} TestPrints(p: Params, r: Regs<nat>, cycles: seq<Cycle<nat>>, i: nat)
    requires Fits(p, cycles) && IsReset(r) && p.ring.cfg == 65535 && p.readUnits == 2 && p.ring.wordBytes == 8
    requires p.ring.minAddr + 0x80_0000 <= p.ring.space
    requires SlaveKeepsStepHere(p, 2097151 + 64, r, cycles) && Counting(p, 2097151 + 64, r, cycles)
    requires HelpfulCycles(p, 2097151 + 64, r, cycles) >= 2097218 + 1048608
    requires i < 2097152
    ensures var w := Record(p, 2097151 + 64, r, cycles).w;
            && |w.ws| <= 16 * |w.aws|
            && var address := p.ring.minAddr + i / 2 * 8;
               && address in RamOf(p, w) && |RamOf(p, w)[address]| == 2
               && RamOf(p, w)[address][i % 2] == if i < 64 then 2097152 + i else i
  {
    var j := WordOfIndex(i);
    SlotOfIndex(i);
    assert BurstWords(p, 2097151 + 64 + 1) == 1048608;
    CountsInRam(p, 2097151 + 64, r, cycles, j);
    SmallMod(p.ring.minAddr + i / 2 * 8, p.ring.space);
    assert p.ring.SlotAddress(j % p.ring.Size()) == p.ring.minAddr + i / 2 * 8;
  }

  // ---------- The packetizer of projects/adc_recorder ----------

  /** The samples that meet a ready writer after the two start-up cycles. */
  function Met<U>(p: Params, limit: nat, r: Regs<U>, cycles: seq<Cycle<U>>): seq<U>
    requires Sized(p)
  {
    if |cycles| <= 2 then []
    else
      var before, c := cycles[..|cycles| - 1], cycles[|cycles| - 1];
      Met(p, limit, r, before)
      + if c.tvalid && !Full(p, Record(p, limit, r, before).w.r) then c.sample else []
  }

  ghost predicate FirstOf<U>(total: nat, accepted: seq<U>, met: seq<U>) {
    |accepted| == Min(total, |met|) && accepted == met[..|accepted|]
  }

  lemma FirstOfMore<U>(total: nat, accepted: seq<U>, met: seq<U>, sample: seq<U>)
    requires FirstOf(total, accepted, met) && |sample| == 1
    ensures |accepted| < total ==> FirstOf(total, accepted + sample, met + sample)
    ensures |accepted| == total ==> FirstOf(total, accepted, met + sample)
  {
  }

  lemma AcceptsNext<U>(p: Params, limit: nat, cycles: nat, s: Recorder<U>, c: Cycle<U>, met: seq<U>)
    requires Sized(p) && RecInv(p, limit, cycles, s) && limit >= 1 && |c.sample| == 1
    requires FirstOf(limit + 1, s.w.accepted, met) && (cycles < 2 ==> met == [])
    ensures FirstOf(limit + 1, Advance(p, limit, s, c).w.accepted,
                    met + if cycles >= 2 && c.tvalid && !Full(p, s.w.r) then c.sample else [])
  {
    FirstOfMore(limit + 1, s.w.accepted, met, c.sample);
    assert met + [] == met && s.w.accepted + [] == s.w.accepted;
  }

  /** The writer accepts the first limit + 1 of them. */
  lemma {:induction false} AcceptsFirst<U>(p: Params, limit: nat, r: Regs<U>, cycles: seq<Cycle<U>>)
    requires Fits(p, cycles) && IsReset(r) && limit >= 1
    ensures FirstOf(limit + 1, Record(p, limit, r, cycles).w.accepted, Met(p, limit, r, cycles))
  {
    if cycles != [] {
      var before, c := cycles[..|cycles| - 1], cycles[|cycles| - 1];
      AcceptsFirst(p, limit, r, before);
      RecordInv(p, limit, r, before);
      AcceptsNext(p, limit, |before|, Record(p, limit, r, before), c, Met(p, limit, r, before));
    }
  }

  /** Every slot of the ring holds the latest of the first limit + 1 samples mapped to
      it, in the order in which they met the writer. */
  lemma {:induction false} SamplesInRam<U>(p: Params, limit: nat, r: Regs<U>, cycles: seq<Cycle<U>>, j: nat)
    requires Fits(p, cycles) && IsReset(r) && SlaveKeepsStepHere(p, limit, r, cycles) && limit >= 1 && RingFits(p)
    requires HelpfulCycles(p, limit, r, cycles) >= limit + 3 + BurstWords(p, limit + 1)
    ensures ImageOf(p, limit, Record(p, limit, r, cycles).w, Met(p, limit, r, cycles), j)
  {
    RecordingInRam(p, limit, r, cycles, j);
    RecordingCompletes(p, limit, r, cycles);
    AcceptsFirst(p, limit, r, cycles);
    SamplesOfWord(p, limit, Record(p, limit, r, cycles).w, Met(p, limit, r, cycles), j);
  }

  ghost predicate ImageOf<U>(p: Params, limit: nat, w: System<U>, met: seq<U>, j: nat)
    requires Sized(p)
  {
    && |met| >= limit + 1 && |w.ws| == 16 * |w.aws| == BurstWords(p, limit + 1)
    && (j < |w.ws| <= j + p.ring.Size() ==> SlotHoldsSamples(p, w, met[..limit + 1], j))
  }

  ghost predicate SlotHoldsSamples<U>(p: Params, w: System<U>, samples: seq<U>, j: nat)
    requires Sized(p) && |w.ws| <= 16 * |w.aws|
  {
    j * p.readUnits <= (j + 1) * p.readUnits <= |samples| && SlotHolds(p, w, j, StreamWord(p, samples, j))
  }

  lemma {:induction false} SamplesOfWord<U>(p: Params, limit: nat, w: System<U>, met: seq<U>, j: nat)
    requires Sized(p) && RecordedInRam(p, w, j) && Complete(p, limit + 1, w) && FirstOf(limit + 1, w.accepted, met)
    ensures ImageOf(p, limit, w, met, j)
  {
    assert w.accepted == met[..limit + 1];
  }
}
