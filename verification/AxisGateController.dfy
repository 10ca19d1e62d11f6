/** cores_demin/axis_gate_controller.v: plays pulse entries as gate, level and phase,
    each for as many cycles as its countdown says. */
module AxisGateController {
  import opened Arithmetic
  import opened PulseEntries
  import opened Streams

  /** int_cntr_reg, the 49 bits of int_data_reg, and the output registers */
  datatype Regs = Regs(cntr: nat, data: nat, out: Output)

  datatype Output = Output(dout: bool, level: nat, poff: nat)

  const RESET := Regs(0, 0, Output(false, 0, 0))

  /** The fields of s_axis_tdata[112:64] */
  function Fields(s: Slot): nat { s.fields % 0x2_0000_0000_0000 }

  function OutputOf(data: nat): Output {
    Output(data / 0x1_0000_0000_0000 % 2 == 1, data / 0x1_0000_0000 % 0x1_0000, data % 0x1_0000_0000)
  }

  /** What an entry shows, in the bits of its fields: the gate is bit 48, the level bits 47
      to 32 and the phase bits 31 to 0; the upper bits do not matter. */
  lemma {:induction false} ShowsBits(s: Slot)
    ensures OutputOf(Fields(s)) == Output(s.fields / 0x1_0000_0000_0000 % 2 == 1,
                                          s.fields / 0x1_0000_0000 % 0x1_0000, s.fields % 0x1_0000_0000)
  {
    var q, r := s.fields / 0x2_0000_0000_0000, s.fields % 0x2_0000_0000_0000;
    UniqueDivision(s.fields, 0x1_0000_0000, q * 0x2_0000 + r / 0x1_0000_0000, r % 0x1_0000_0000);
    UniqueDivision(s.fields, 0x1_0000_0000_0000, q * 2 + r / 0x1_0000_0000_0000, r % 0x1_0000_0000_0000);
    UniqueDivision(q * 0x2_0000 + r / 0x1_0000_0000, 0x1_0000, q * 2 + r / 0x1_0000_0000_0000,
                   r / 0x1_0000_0000 % 0x1_0000);
  }

  /** int_enbl_wire, and the cycles that play an entry */
  function Enabled(r: Regs): bool { r.cntr != 0 }
  function Plays(r: Regs, tvalid: bool): bool { Enabled(r) || tvalid }

  /** s_axis_tready with aresetn high */
  function InReady(r: Regs): bool { !Enabled(r) }

  /** One clock; `tdata` is meaningful only if it is valid. */
  function Next(r: Regs, aresetn: bool, tvalid: bool, tdata: Slot): Regs {
    if !aresetn then RESET
    else
      var shown := OutputOf(if Enabled(r) then r.data else Fields(tdata));
      Regs(
        if Enabled(r) then r.cntr - 1 else if tvalid then tdata.count else r.cntr,
        if !Enabled(r) && tvalid then Fields(tdata) else r.data,
        shown.(dout := shown.dout && Plays(r, tvalid)))
  }

  /** The core fed from a FIFO that offers its first entry in the cycles `offers`
      says, and what the output registers showed after each cycle. */
  datatype Player = Player(r: Regs, queue: seq<Slot>, played: seq<Output>, idle: seq<Output>)

  function Advance(s: Player, offer: bool): Player {
    var tvalid := offer && s.queue != [];
    var r' := Next(s.r, true, tvalid, if s.queue != [] then s.queue[0] else Slot(0, 0));
    Player(
      r',
      if tvalid && InReady(s.r) then s.queue[1..] else s.queue,
      s.played + Moved(Plays(s.r, tvalid), r'.out),
      s.idle + Moved(!Plays(s.r, tvalid), r'.out))
  }

  function Play(slots: seq<Slot>, offers: seq<bool>): Player {
    if offers == [] then Player(RESET, slots, [], [])
    else Advance(Play(slots, offers[..|offers| - 1]), offers[|offers| - 1])
  }

  function Repeat<T>(n: nat, x: T): seq<T> { seq(n, _ => x) }

  /** The waveform a list of entries stands for. */
  function Expand(slots: seq<Slot>): seq<Output> {
    if slots == [] then []
    else Repeat(slots[0].count + 1, OutputOf(Fields(slots[0]))) + Expand(slots[1..])
  }

  /** What is still to be played. */
  function ToPlay(s: Player): seq<Output> { Repeat(s.r.cntr, OutputOf(s.r.data)) + Expand(s.queue) }

  lemma Peel<T>(n: nat, x: T, rest: seq<T>)
    ensures Repeat(n + 1, x) + rest == [x] + (Repeat(n, x) + rest)
  {
    assert Repeat(n + 1, x) == [x] + Repeat(n, x);
  }

  /** Every playing cycle takes the next element off the waveform that remains. */
  lemma AdvanceConserves(s: Player, offer: bool)
    ensures var s' := Advance(s, offer);
            ToPlay(s) == Moved(Plays(s.r, offer && s.queue != []), s'.r.out) + ToPlay(s')
    ensures !Plays(s.r, offer && s.queue != []) ==> !Advance(s, offer).r.out.dout
  {
    var s' := Advance(s, offer);
    if Enabled(s.r) {
      Peel(s.r.cntr - 1, OutputOf(s.r.data), Expand(s.queue));
    } else if offer && s.queue != [] {
      var e := s.queue[0];
      Peel(e.count, OutputOf(Fields(e)), Expand(s.queue[1..]));
      assert ToPlay(s) == Expand(s.queue);
    }
  }

  /** After n cycles: what was played and what remains are the waveform of the
      entries, and the gate was closed in all other cycles. */
  ghost predicate Faithful(slots: seq<Slot>, n: nat, s: Player) {
    && s.played + ToPlay(s) == Expand(slots)
    && |s.played| + |s.idle| == n
    && forall i :: 0 <= i < |s.idle| ==> !s.idle[i].dout
  }

  lemma FaithfulStep(slots: seq<Slot>, n: nat, s: Player, offer: bool)
    requires Faithful(slots, n, s)
    ensures Faithful(slots, n + 1, Advance(s, offer))
  {
    var s' := Advance(s, offer);
    var moved := Moved(Plays(s.r, offer && s.queue != []), s'.r.out);
    AdvanceConserves(s, offer);
    Regroup(s.played, moved, ToPlay(s'));
  }

  /** For every pattern of offers the playing cycles show the waveform of the entries
      from the start, each value for exactly count + 1 cycles with its level and
      phase, and in all other cycles the gate is closed. */
  lemma {:induction false} PlaysWaveform(slots: seq<Slot>, offers: seq<bool>)
    ensures Faithful(slots, |offers|, Play(slots, offers))
  {
    if offers == [] {
      assert Repeat(0, OutputOf(0)) == [];
    } else {
      var before := offers[..|offers| - 1];
      PlaysWaveform(slots, before);
      FaithfulStep(slots, |before|, Play(slots, before), offers[|offers| - 1]);
    }
  }

  /** The FIFO has an entry whenever the core asks for one. */
  ghost predicate Supplied(slots: seq<Slot>, offers: seq<bool>) {
    offers != [] ==>
      && Supplied(slots, offers[..|offers| - 1])
      && (InReady(Play(slots, offers[..|offers| - 1]).r) ==> offers[|offers| - 1])
  }

  /** In n clocks as much of the waveform has been played as there is, up to n. */
  ghost predicate Gapless(slots: seq<Slot>, n: nat, s: Player) {
    && (n <= |Expand(slots)| ==> s.played == Expand(slots)[..n])
    && (n > |Expand(slots)| ==> s.played == Expand(slots))
  }

  lemma NothingLeft(s: Player)
    ensures ToPlay(s) == [] <==> !Enabled(s.r) && s.queue == []
  {
    if s.queue != [] {
      assert |Expand(s.queue)| > 0;
    }
  }

  lemma {:induction false} GaplessStep(slots: seq<Slot>, n: nat, s: Player, offer: bool)
    requires Faithful(slots, n, s) && Gapless(slots, n, s) && (InReady(s.r) ==> offer)
    ensures Gapless(slots, n + 1, Advance(s, offer))
  {
    var s' := Advance(s, offer);
    FaithfulStep(slots, n, s, offer);
    NothingLeft(s);
    assert s'.played == Expand(slots)[..|s'.played|];
  }

  /** Then there is no gap: the waveform is played in consecutive cycles from the
      first, and the core is idle only after its end. */
  lemma {:induction false} NoGaps(slots: seq<Slot>, offers: seq<bool>)
    requires Supplied(slots, offers)
    ensures Gapless(slots, |offers|, Play(slots, offers))
  {
    if offers != [] {
      var before := offers[..|offers| - 1];
      NoGaps(slots, before);
      PlaysWaveform(slots, before);
      GaplessStep(slots, |before|, Play(slots, before), offers[|offers| - 1]);
    }
  }

  // ---------- Reset ----------

  datatype Clock = Clock(aresetn: bool, tvalid: bool, tdata: Slot)

  /** s_axis_tready and a valid entry */
  predicate Takes(r: Regs, c: Clock) { c.aresetn && InReady(r) && c.tvalid }

  function RunFrom(r: Regs, clocks: seq<Clock>): Regs {
    if clocks == [] then r
    else
      var c := clocks[|clocks| - 1];
      Next(RunFrom(r, clocks[..|clocks| - 1]), c.aresetn, c.tvalid, c.tdata)
  }

  /** An entry has been taken since the last clock with aresetn low. */
  predicate TookSinceReset(r: Regs, clocks: seq<Clock>) {
    clocks != [] && clocks[|clocks| - 1].aresetn
    && (TookSinceReset(r, clocks[..|clocks| - 1]) || Takes(RunFrom(r, clocks[..|clocks| - 1]), clocks[|clocks| - 1]))
  }

  /** From any state at all: once there has been a clock with aresetn low the gate is
      closed, during the reset and after it, until an entry is taken. */
  lemma {:induction false} ClosedUntilEntry(r: Regs, clocks: seq<Clock>)
    requires (exists i :: 0 <= i < |clocks| && !clocks[i].aresetn) && !TookSinceReset(r, clocks)
    ensures !RunFrom(r, clocks).out.dout && InReady(RunFrom(r, clocks))
    ensures !clocks[|clocks| - 1].aresetn ==> RunFrom(r, clocks).out == Output(false, 0, 0)
  {
    var i :| 0 <= i < |clocks| && !clocks[i].aresetn;
    if clocks[|clocks| - 1].aresetn {
      assert !clocks[..|clocks| - 1][i].aresetn;
      ClosedUntilEntry(r, clocks[..|clocks| - 1]);
    }
  }

  class Core {
    var intCntrReg: nat
    var intDataReg: nat
    var intPoffReg: nat
    var intLevelReg: nat
    var intDoutReg: bool

    constructor ()
      ensures State() == RESET
    {
      intCntrReg, intDataReg, intPoffReg, intLevelReg, intDoutReg := 0, 0, 0, 0, false;
    }

    function State(): Regs
      reads this
    {
      Regs(intCntrReg, intDataReg, Output(intDoutReg, intLevelReg, intPoffReg))
    }

    method Tick(aresetn: bool, sAxisTdata: Slot, sAxisTvalid: bool) returns (sAxisTready: bool)
      modifies this
      ensures sAxisTready == (InReady(old(State())) && aresetn)
      ensures State() == Next(old(State()), aresetn, sAxisTvalid, sAxisTdata)
    {
      var intEnblWire := intCntrReg != 0;
      var intDataWire := if intEnblWire then intDataReg else Fields(sAxisTdata);
      sAxisTready := !intEnblWire && aresetn;
      if !aresetn {
        intCntrReg, intDataReg, intPoffReg, intLevelReg, intDoutReg := 0, 0, 0, 0, false;
      } else {
        if intEnblWire {
          intCntrReg := intCntrReg - 1;
        } else if sAxisTvalid {
          intCntrReg := sAxisTdata.count;
          intDataReg := Fields(sAxisTdata);
        }
        intPoffReg := intDataWire % 0x1_0000_0000;
        intLevelReg := intDataWire / 0x1_0000_0000 % 0x1_0000;
        intDoutReg := intDataWire / 0x1_0000_0000_0000 % 2 == 1 && (intEnblWire || sAxisTvalid);
      }
    }
  }
}
