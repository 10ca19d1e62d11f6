/** cores_demin/axis_ram_writer.v with a slave that takes data and no address: the
    pending flag is overwritten, and the address of a burst is lost. */
module LostAddress {
  import opened Arithmetic
  import opened AxisRamWriter

  /** A clock with a sample and a slave that takes a beat and no address. */
  ghost predicate DataOnly<U>(p: Params, c: Cycle<U>) {
    c.tvalid && c.wready && !c.awready && |c.sample| == p.writeUnits
  }

  /** The FIFO takes samples until it holds sixteen words. */
  ghost predicate HoldsBurst(p: Params) { Sized(p) && p.capacity >= 16 * p.readUnits + p.writeUnits - 1 }

  function Repeated<U>(c: Cycle<U>, n: nat): seq<Cycle<U>> { seq(n, _ => c) }

  lemma RepeatedNext<U>(c: Cycle<U>, n: nat)
    ensures Repeated(c, n + 1)[..n] == Repeated(c, n)
  {
  }

  /** Every such clock takes a sample or sends a word. */
  lemma {:induction false} Moves<U>(p: Params, s: System<U>, c: Cycle<U>)
    requires HoldsBurst(p) && Inv(p, s) && DataOnly(p, c)
    ensures var s' := Step(p, s, c);
            && |s'.accepted| + |s'.words| > |s.accepted| + |s.words|
            && (|s.r.fifo| <= p.capacity ==> |s'.r.fifo| <= p.capacity)
            && s'.aws == s.aws
  {
    if Full(p, s.r) {
      DivMonotone(16 * p.readUnits, |s.r.fifo|, p.readUnits);
      UniqueDivision(16 * p.readUnits, p.readUnits, 16, 0);
      assert WValid(p, s.r);
    }
  }

  ghost predicate Ahead<U>(p: Params, s: System<U>, n: nat) {
    Sized(p) && Inv(p, s) && s.aws == [] && |s.r.fifo| <= p.capacity && |s.accepted| + |s.words| >= n
  }

  lemma {:induction false} GetsAhead<U>(p: Params, r: Regs<U>, c: Cycle<U>, n: nat)
    requires HoldsBurst(p) && IsReset(r) && DataOnly(p, c)
    requires SlaveKeepsStep(p, Fresh(r), Repeated(c, n))
    ensures Ahead(p, Run(p, Fresh(r), Repeated(c, n)), n)
  {
    if n == 0 {
      FreshInv(p, r);
    } else {
      RepeatedNext(c, n - 1);
      GetsAhead(p, r, c, n - 1);
      Moves(p, Run(p, Fresh(r), Repeated(c, n - 1)), c);
      InvStep(p, Run(p, Fresh(r), Repeated(c, n - 1)), c);
    }
  }

  /** Without an address taken no more than two bursts can be sent. */
  lemma {:induction false} NotFarAhead<U>(p: Params, s: System<U>, n: nat)
    requires Ahead(p, s, n)
    ensures n <= 32 + 32 * p.readUnits + p.capacity
  {
    FlatWord(p, s.words, s.r.fifo, 0);
    AtMost32(|s.words|, p.readUnits);
  }

  lemma AtMost32(words: nat, u: nat)
    requires words <= 32
    ensures words * u <= 32 * u
  {
    assert (32 - words) * u >= 0;
  }

  /** After n clocks, so far in step, a burst starts while the slave is too far ahead. */
  ghost predicate LosesAt<U>(p: Params, r: Regs<U>, c: Cycle<U>, n: nat)
    requires Sized(p)
  {
    var s := Run(p, Fresh(r), Repeated(c, n));
    SlaveKeepsStep(p, Fresh(r), Repeated(c, n)) && Starts(p, s.r) && |s.ws| > 16 * |s.aws| + 30
  }

  lemma {:induction false} FirstLoss<U>(p: Params, r: Regs<U>, c: Cycle<U>, n: nat) returns (k: nat)
    requires Sized(p) && !SlaveKeepsStep(p, Fresh(r), Repeated(c, n))
    ensures LosesAt(p, r, c, k)
  {
    RepeatedNext(c, n - 1);
    if SlaveKeepsStep(p, Fresh(r), Repeated(c, n - 1)) {
      k := n - 1;
    } else {
      k := FirstLoss(p, r, c, n - 1);
    }
  }

  /** With samples always there, data always taken and no address ever taken, some run
      from reset loses the address of a burst: its beats are sent, and one address less
      than bursts. */
  lemma {:induction false} AddressGetsLost<U>(p: Params, r: Regs<U>, c: Cycle<U>) returns (n: nat)
    requires HoldsBurst(p) && IsReset(r) && DataOnly(p, c)
    ensures LosesAt(p, r, c, n)
    ensures var s := Run(p, Fresh(r), Repeated(c, n + 1));
            |s.words| + Owed(s.r) == 16 * (Started(s) + 1)
  {
    var most := 33 + 32 * p.readUnits + p.capacity;
    if SlaveKeepsStep(p, Fresh(r), Repeated(c, most)) {
      GetsAhead(p, r, c, most);
      NotFarAhead(p, Run(p, Fresh(r), Repeated(c, most)), most);
      assert false;
    }
    n := FirstLoss(p, r, c, most);
    GetsAhead(p, r, c, n);
    OverwritesExactly(p, Run(p, Fresh(r), Repeated(c, n)), 0);
    CountsStep(p, Run(p, Fresh(r), Repeated(c, n)), c, 0);
    RepeatedNext(c, n);
  }
}
