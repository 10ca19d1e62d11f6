/** cores_demin/axis_packetizer.v: passes cfg_data + 1 beats and stops, or marks
    the last beat of every packet of cfg_data + 1 beats. */
module AxisPacketizer {
  import opened Arithmetic
  import Sequencer

  datatype Cycle<T> = Cycle(tdata: T, tvalid: bool, mready: bool)

  datatype Beat<T> = Beat(data: T, last: bool)

  function Accepts<T>(cycles: seq<Cycle<T>>): seq<bool> {
    seq(|cycles|, i requires 0 <= i < |cycles| => cycles[i].tvalid && cycles[i].mready)
  }

  /** The registers after a run from reset. */
  function After<T>(continuous: bool, cfg: nat, cycles: seq<Cycle<T>>): Sequencer.Regs {
    Sequencer.Run(continuous, cfg, Accepts(cycles))
  }

  /** s_axis_tready */
  function InReady<T>(alwaysReady: bool, r: Sequencer.Regs, c: Cycle<T>): bool { alwaysReady || (r.enbl && c.mready) }

  /** Samples taken from the producer. */
  function Taken<T>(continuous: bool, alwaysReady: bool, cfg: nat, cycles: seq<Cycle<T>>): seq<T> {
    if cycles == [] then []
    else
      var before, c := cycles[..|cycles| - 1], cycles[|cycles| - 1];
      Taken(continuous, alwaysReady, cfg, before)
      + if c.tvalid && InReady(alwaysReady, After(continuous, cfg, before), c) then [c.tdata] else []
  }

  /** Beats handed to the consumer, with the m_axis_tlast flag. */
  function Passed<T>(continuous: bool, cfg: nat, cycles: seq<Cycle<T>>): seq<Beat<T>> {
    if cycles == [] then []
    else
      var before, c := cycles[..|cycles| - 1], cycles[|cycles| - 1];
      var r := After(continuous, cfg, before);
      Passed(continuous, cfg, before)
      + if r.enbl && c.tvalid && c.mready then [Beat(c.tdata, r.enbl && !Sequencer.Comp(r))] else []
  }

  /** The samples that meet a ready consumer after the two start-up cycles. */
  function Meetings<T>(cycles: seq<Cycle<T>>): seq<T> {
    if |cycles| <= 2 then []
    else
      var c := cycles[|cycles| - 1];
      Meetings(cycles[..|cycles| - 1]) + if c.tvalid && c.mready then [c.tdata] else []
  }

  lemma {:induction false} MeetingsCount<T>(cycles: seq<Cycle<T>>)
    ensures |Meetings(cycles)| == Sequencer.Count(Accepts(cycles), 2)
  {
    if |cycles| > 2 {
      MeetingsCount(cycles[..|cycles| - 1]);
      assert Accepts(cycles)[..|cycles| - 1] == Accepts(cycles[..|cycles| - 1]);
    }
  }

  /** The accepting cycles, without the last. */
  lemma AcceptsBefore<T>(cycles: seq<Cycle<T>>)
    requires cycles != []
    ensures Accepts(cycles)[..|cycles| - 1] == Accepts(cycles[..|cycles| - 1])
  {
  }

  lemma {:induction false} PassesCount<T>(continuous: bool, cfg: nat, cycles: seq<Cycle<T>>)
    ensures |Passed(continuous, cfg, cycles)| == Sequencer.Transfers(continuous, cfg, Accepts(cycles))
    ensures |Passed(continuous, cfg, cycles)| <= |Meetings(cycles)|
  {
    MeetingsCount(cycles);
    if cycles != [] {
      PassesCount(continuous, cfg, cycles[..|cycles| - 1]);
      AcceptsBefore(cycles);
      Sequencer.RunPhase(continuous, cfg, Accepts(cycles[..|cycles| - 1]));
    }
  }

  /** The first samples that meet the core, each packet's last one marked. */
  ghost predicate Packets<T>(cfg: nat, met: seq<T>, passed: seq<Beat<T>>) {
    |passed| <= |met| && forall i :: 0 <= i < |passed| ==> passed[i] == Beat(met[i], i % (cfg + 1) == cfg)
  }

  /** The core marks the beat that completes a packet. */
  lemma {:induction false} MarksLast(continuous: bool, cfg: nat, cycles: nat, n: nat, r: Sequencer.Regs)
    requires Sequencer.Phase(continuous, cfg, cycles, n, r) && r.enbl
    ensures !Sequencer.Comp(r) <==> n % (cfg + 1) == cfg
  {
    if !continuous {
      SmallMod(n, cfg + 1);
    }
  }

  lemma {:induction false} PassesBeats<T>(continuous: bool, cfg: nat, cycles: seq<Cycle<T>>)
    ensures Packets(cfg, Meetings(cycles), Passed(continuous, cfg, cycles))
  {
    PassesCount(continuous, cfg, cycles);
    if cycles != [] {
      var before := cycles[..|cycles| - 1];
      PassesBeats(continuous, cfg, before);
      PassesCount(continuous, cfg, before);
      MeetingsCount(before);
      Sequencer.RunPhase(continuous, cfg, Accepts(before));
      if After(continuous, cfg, before).enbl {
        MarksLast(continuous, cfg, |before|, |Passed(continuous, cfg, before)|, After(continuous, cfg, before));
      }
    }
  }

  lemma {:induction false} TakesPassed<T>(continuous: bool, cfg: nat, cycles: seq<Cycle<T>>)
    ensures var taken, passed := Taken(continuous, false, cfg, cycles), Passed(continuous, cfg, cycles);
            |taken| == |passed| && forall i :: 0 <= i < |passed| ==> taken[i] == passed[i].data
  {
    if cycles != [] {
      TakesPassed(continuous, cfg, cycles[..|cycles| - 1]);
    }
  }

  /** The samples the producer offers. */
  function Offered<T>(cycles: seq<Cycle<T>>): seq<T> {
    if cycles == [] then []
    else Offered(cycles[..|cycles| - 1]) + if cycles[|cycles| - 1].tvalid then [cycles[|cycles| - 1].tdata] else []
  }

  lemma {:induction false} TakesOffered<T>(continuous: bool, cfg: nat, cycles: seq<Cycle<T>>)
    ensures Taken(continuous, true, cfg, cycles) == Offered(cycles)
  {
    if cycles != [] {
      TakesOffered(continuous, cfg, cycles[..|cycles| - 1]);
    }
  }

  /** For any stalls on either side: exactly the first cfg_data + 1 samples pass
      when the core stops, all of them when it does not, and none if cfg_data is zero;
      m_axis_tlast marks exactly the last beat of every cfg_data + 1; and unless
      ALWAYS_READY is set every sample taken from the producer passes. With it every
      sample offered is taken. */
  lemma {:induction false} PassesPackets<T>(continuous: bool, alwaysReady: bool, cfg: nat, cycles: seq<Cycle<T>>)
    ensures var passed := Passed(continuous, cfg, cycles);
            && |passed| == Sequencer.Transfers(continuous, cfg, Accepts(cycles)) <= |Meetings(cycles)|
            && (forall i :: 0 <= i < |passed| ==>
                  passed[i] == Beat(Meetings(cycles)[i], i % (cfg + 1) == cfg))
            && (!alwaysReady ==>
                  && |Taken(continuous, alwaysReady, cfg, cycles)| == |passed|
                  && forall i :: 0 <= i < |passed| ==>
                       Taken(continuous, alwaysReady, cfg, cycles)[i] == passed[i].data)
            && (alwaysReady ==> Taken(continuous, alwaysReady, cfg, cycles) == Offered(cycles))
  {
    PassesCount(continuous, cfg, cycles);
    PassesBeats(continuous, cfg, cycles);
    TakesPassed(continuous, cfg, cycles);
    TakesOffered(continuous, cfg, cycles);
  }

  class Core<T> {
    const continuous: bool
    const alwaysReady: bool
    var intCntrReg: nat
    var intDataReg: nat
    var intEnblReg: bool

    constructor (continuous: bool, alwaysReady: bool)
      ensures this.continuous == continuous && this.alwaysReady == alwaysReady && State() == Sequencer.RESET
    {
      this.continuous, this.alwaysReady := continuous, alwaysReady;
      intCntrReg, intDataReg, intEnblReg := 0, 0, false;
    }

    function State(): Sequencer.Regs
      reads this
    {
      Sequencer.Regs(intCntrReg, intDataReg, intEnblReg)
    }

    method Tick(aresetn: bool, cfgData: nat, c: Cycle<T>)
      returns (sAxisTready: bool, mAxisTdata: T, mAxisTvalid: bool, mAxisTlast: bool)
      modifies this
      ensures sAxisTready == InReady(alwaysReady, old(State()), c)
      ensures mAxisTdata == c.tdata && mAxisTvalid == (old(intEnblReg) && c.tvalid)
      ensures mAxisTlast == (old(intEnblReg) && !Sequencer.Comp(old(State())))
      ensures State() == if aresetn then Sequencer.Next(continuous, cfgData, old(State()), c.tvalid && c.mready)
                         else Sequencer.RESET
    {
      var intCompWire := intCntrReg < intDataReg;
      var intTvalidWire := intEnblReg && c.tvalid;
      var intTlastWire := !intCompWire;
      sAxisTready := alwaysReady || (intEnblReg && c.mready);
      mAxisTdata, mAxisTvalid, mAxisTlast := c.tdata, intTvalidWire, intEnblReg && intTlastWire;
      var intCntrNext, intEnblNext := intCntrReg, intEnblReg;
      if !intEnblReg && intCompWire {
        intEnblNext := true;
      }
      if c.mready && intTvalidWire && intCompWire {
        intCntrNext := intCntrReg + 1;
      }
      if c.mready && intTvalidWire && intTlastWire {
        if continuous {
          intCntrNext := 0;
        } else {
          intEnblNext := false;
        }
      }
      if !aresetn {
        intCntrReg, intDataReg, intEnblReg := 0, 0, false;
      } else {
        intCntrReg, intDataReg, intEnblReg := intCntrNext, cfgData, intEnblNext;
      }
    }
  }
}
