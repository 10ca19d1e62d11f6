/** What the burst writer of axis_ram_writer.v leaves in RAM, and when it is done. */
module RamImage {
  import opened Arithmetic
  import opened AxisRamWriter
  import opened BurstRing

  /** RAM once the first n beats have been written. */
  function Ram<U>(p: Params, aws: seq<nat>, ws: seq<Beat<U>>, n: nat): map<nat, seq<U>>
    requires Sized(p) && n <= |ws| && n <= 16 * |aws|
  {
    if n == 0 then map[]
    else Ram(p, aws, ws, n - 1)[p.ring.BeatAddress(aws, n - 1) := ws[n - 1].word]
  }

  /** RAM is a circular image of the stream: every slot of the ring holds the latest
      word mapped to it, and nothing is written anywhere else. */
  lemma {:induction false} RingHoldsLatest<U>(p: Params, aws: seq<nat>, ws: seq<Beat<U>>, n: nat)
    requires Sized(p) && p.ring.Size() * p.ring.wordBytes <= p.ring.space
    requires n <= |ws| && n <= 16 * |aws|
    requires forall k :: 0 <= k < |aws| ==> aws[k] == p.ring.BurstAddress(k)
    ensures forall j :: 0 <= j < n && (forall i :: j < i < n ==> i % p.ring.Size() != j % p.ring.Size()) ==>
              && p.ring.SlotAddress(j % p.ring.Size()) in Ram(p, aws, ws, n)
              && Ram(p, aws, ws, n)[p.ring.SlotAddress(j % p.ring.Size())] == ws[j].word
    ensures forall a :: a in Ram(p, aws, ws, n) ==> exists i :: 0 <= i < p.ring.Size() && a == p.ring.SlotAddress(i)
  {
    if n > 0 {
      RingHoldsLatest(p, aws, ws, n - 1);
      BeatGoesToSlot(p.ring, aws, n - 1);
      var last := (n - 1) % p.ring.Size();
      forall j | 0 <= j < n && (forall i :: j < i < n ==> i % p.ring.Size() != j % p.ring.Size())
        ensures p.ring.SlotAddress(j % p.ring.Size()) in Ram(p, aws, ws, n)
        ensures Ram(p, aws, ws, n)[p.ring.SlotAddress(j % p.ring.Size())] == ws[j].word
      {
        if j < n - 1 {
          assert j % p.ring.Size() != last;
          var slot := j % p.ring.Size();
          SlotsDiffer(p.ring, if slot < last then slot else last, if slot < last then last else slot);
        }
      }
    }
  }

  /** The same over whole runs: for every schedule, slot j mod ring of the RAM holds
      word j of the accepted stream until word j + ring replaces it, for all beats
      whose address the slave has taken. */
  lemma {:induction false} RamIsCircularImage<U>(p: Params, r: Regs<U>, cycles: seq<Cycle<U>>, n: nat)
    requires Sized(p) && IsReset(r)
    requires p.ring.Size() * p.ring.wordBytes <= p.ring.space
    requires n <= |Run(p, Fresh(r), cycles).ws| && n <= 16 * |Run(p, Fresh(r), cycles).aws|
    ensures var s := Run(p, Fresh(r), cycles);
            forall j :: 0 <= j < n && (forall i :: j < i < n ==> i % p.ring.Size() != j % p.ring.Size()) ==>
              && p.ring.SlotAddress(j % p.ring.Size()) in Ram(p, s.aws, s.ws, n)
              && CarriesWord(p, s.accepted, j, s.ws[j])
              && Ram(p, s.aws, s.ws, n)[p.ring.SlotAddress(j % p.ring.Size())] == StreamWord(p, s.accepted, j)
  {
    WritesStream(p, r, cycles);
    var s := Run(p, Fresh(r), cycles);
    RingHoldsLatest(p, s.aws, s.ws, n);
  }

  // ---------- Draining ----------

  /** Cycles with a willing slave that are still needed to empty the core of whole
      bursts once the input has stopped. */
  function Left<U>(p: Params, r: Regs<U>): nat
    requires Sized(p)
  {
    if WValid(p, r) then Words(p, r.fifo) + 2
    else if r.awvalid then 2
    else if r.buf0.valid || r.buf1.valid then 1
    else 0
  }

  function Willing<U>(cycles: seq<Cycle<U>>): nat {
    if cycles == [] then 0
    else
      var c := cycles[|cycles| - 1];
      Willing(cycles[..|cycles| - 1]) + if c.awready && c.wready then 1 else 0
  }

  lemma LeftStep<U>(p: Params, r: Regs<U>, c: Cycle<U>)
    requires Sized(p) && Control(p, r) && !c.tvalid
    ensures Left(p, Next(p, r, true, c)) <= Left(p, r)
    ensures c.awready && c.wready && Left(p, r) > 0 ==> Left(p, Next(p, r, true, c)) < Left(p, r)
  {
    ControlStep(p, r, c);
    var r' := Next(p, r, true, c);
    if Reads(p, r, c) {
      assert r'.fifo == r.fifo[p.readUnits..];
      DivLess(|r.fifo|, p.readUnits);
    } else {
      assert r'.fifo == r.fifo;
    }
  }

  /** Stalls do not matter: whatever cycles lie between them, enough willing cycles
      leave no burst in progress and fewer than sixteen words in the FIFO. */
  lemma {:induction false} Drains<U>(p: Params, s: System<U>, cycles: seq<Cycle<U>>)
    requires Sized(p) && Control(p, s.r)
    requires forall k :: 0 <= k < |cycles| ==> !cycles[k].tvalid
    ensures var s' := Run(p, s, cycles);
            && Control(p, s'.r)
            && s'.accepted == s.accepted
            && (Left(p, s'.r) == 0 || Left(p, s'.r) + Willing(cycles) <= Left(p, s.r))
  {
    if cycles != [] {
      var before, c := cycles[..|cycles| - 1], cycles[|cycles| - 1];
      Drains(p, s, before);
      var mid := Run(p, s, before);
      LeftStep(p, mid.r, c);
      ControlStep(p, mid.r, c);
    }
  }

  ghost predicate AllWilling<U>(cycles: seq<Cycle<U>>) {
    forall k :: 0 <= k < |cycles| ==> cycles[k].awready && cycles[k].wready
  }

  lemma {:induction false} WillingAll<U>(cycles: seq<Cycle<U>>)
    requires AllWilling(cycles)
    ensures Willing(cycles) == |cycles|
  {
    if cycles != [] {
      WillingAll(cycles[..|cycles| - 1]);
    }
  }

  /** Without interruptions a clock for each word in the FIFO and two more are enough: no
      burst is in progress, no address or word waits, and the accepted words stay. */
  lemma {:induction false} DrainsInTime<U>(p: Params, s: System<U>, cycles: seq<Cycle<U>>)
    requires Sized(p) && Control(p, s.r) && AllWilling(cycles)
    requires forall k :: 0 <= k < |cycles| ==> !cycles[k].tvalid
    requires |cycles| >= |s.r.fifo| / p.readUnits + 2
    ensures var s' := Run(p, s, cycles);
            !WValid(p, s'.r) && !s'.r.awvalid && !s'.r.buf0.valid && !s'.r.buf1.valid && s'.accepted == s.accepted
  {
    WillingAll(cycles);
    Drains(p, s, cycles);
  }

  /** When nothing is left the data of every whole burst of the accepted stream has
      been taken by the slave, and addresses of no more bursts. */
  lemma {:induction false} DataSettled<U>(p: Params, s: System<U>)
    requires Sized(p) && Safe(p, s) && Left(p, s.r) == 0
    ensures |s.ws| == 16 * (|s.accepted| / (16 * p.readUnits))
    ensures |s.aws| <= |s.accepted| / (16 * p.readUnits)
    ensures s.r.addr == |s.aws| % (p.ring.cfg + 1)
    ensures |s.r.fifo| == |s.accepted| % (16 * p.readUnits)
  {
    FlatWord(p, s.words, s.r.fifo, 0);
    WholeBursts(|s.words| / 16, p.readUnits, |s.r.fifo|);
  }

  /** With a slave in step every address has been taken too. */
  lemma {:induction false} Settled<U>(p: Params, s: System<U>)
    requires Sized(p) && Inv(p, s) && Left(p, s.r) == 0
    ensures |s.aws| == |s.accepted| / (16 * p.readUnits)
    ensures |s.ws| == 16 * |s.aws|
    ensures s.r.addr == |s.aws| % (p.ring.cfg + 1)
    ensures |s.r.fifo| == |s.accepted| % (16 * p.readUnits)
  {
    DataSettled(p, s);
  }

  lemma {:induction false} WholeBursts(bursts: nat, u: nat, rest: nat)
    requires u > 0 && rest / u <= 15
    ensures ((16 * bursts) * u + rest) / (16 * u) == bursts
    ensures ((16 * bursts) * u + rest) % (16 * u) == rest
  {
    assert rest == u * (rest / u) + rest % u;
    assert u * (rest / u) <= u * 15;
    assert (16 * bursts) * u == bursts * (16 * u);
    UniqueDivision((16 * bursts) * u + rest, 16 * u, bursts, rest);
  }
}
