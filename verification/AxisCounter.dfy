/** cores_demin/axis_counter.v: a stream source that counts from zero to cfg_data. */
module AxisCounter {
  import Sequencer
  import opened Arithmetic

  /** The words taken by a consumer that is ready in the cycles `readies` says. */
  function Emitted(continuous: bool, cfg: nat, readies: seq<bool>): seq<nat> {
    if readies == [] then []
    else
      var before := readies[..|readies| - 1];
      var r := Sequencer.Run(continuous, cfg, before);
      Emitted(continuous, cfg, before) + if r.enbl && readies[|readies| - 1] then [r.cntr] else []
  }

  /** The counter sends 0, 1, ..., cfg_data in order, once (or forever, modulo
      cfg_data + 1), and one word in every ready cycle after the first two. */
  lemma {:induction false} CountsInOrder(continuous: bool, cfg: nat, readies: seq<bool>)
    ensures |Emitted(continuous, cfg, readies)| == Sequencer.Transfers(continuous, cfg, readies)
    ensures forall i :: 0 <= i < |Emitted(continuous, cfg, readies)| ==>
              Emitted(continuous, cfg, readies)[i] == i % (cfg + 1)
  {
    if readies != [] {
      var before := readies[..|readies| - 1];
      CountsInOrder(continuous, cfg, before);
      Sequencer.RunPhase(continuous, cfg, before);
      if cfg > 0 && !continuous {
        var n := Sequencer.Transfers(continuous, cfg, before);
        if n <= cfg {
          UniqueDivision(n, cfg + 1, 0, n);
        }
      }
    }
  }

  class Core {
    const continuous: bool
    var intCntrReg: nat
    var intDataReg: nat
    var intEnblReg: bool

    constructor (continuous: bool)
      ensures this.continuous == continuous && State() == Sequencer.RESET
    {
      this.continuous := continuous;
      intCntrReg, intDataReg, intEnblReg := 0, 0, false;
    }

    function State(): Sequencer.Regs
      reads this
    {
      Sequencer.Regs(intCntrReg, intDataReg, intEnblReg)
    }

    method Tick(aresetn: bool, cfgData: nat, mAxisTready: bool) returns (mAxisTdata: nat, mAxisTvalid: bool)
      modifies this
      ensures mAxisTdata == old(intCntrReg) && mAxisTvalid == old(intEnblReg)
      ensures State() == if aresetn then Sequencer.Next(continuous, cfgData, old(State()), mAxisTready)
                         else Sequencer.RESET
    {
      mAxisTdata, mAxisTvalid := intCntrReg, intEnblReg;
      var intCompWire := intCntrReg < intDataReg;
      var intLastWire := !intCompWire;
      var intCntrNext, intEnblNext := intCntrReg, intEnblReg;
      if !intEnblReg && intCompWire {
        intEnblNext := true;
      }
      if mAxisTready && intEnblReg && intCompWire {
        intCntrNext := intCntrReg + 1;
      }
      if mAxisTready && intEnblReg && intLastWire {
        if continuous {
          intCntrNext := 0;
        } else {
          intEnblNext := false;
        }
      }
      if !aresetn {
        intCntrReg, intDataReg, intEnblReg := 0, 0, false;
      } else {
        intCntrReg, intDataReg, intEnblReg := intCntrNext, cfgData, intEnblNext;
      }
    }
  }
}
