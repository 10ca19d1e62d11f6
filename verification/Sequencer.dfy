/** The enable/count/limit registers that axis_counter.v, axis_packetizer.v and
    axis_bram_reader.v share: count to the limit, then stop or start again. */
module Sequencer {
  import opened Arithmetic

  /** int_cntr_reg (or int_addr_reg), int_data_reg and int_enbl_reg */
  datatype Regs = Regs(cntr: nat, limit: nat, enbl: bool)

  const RESET := Regs(0, 0, false)

  /** int_comp_wire */
  function Comp(r: Regs): bool { r.cntr < r.limit }

  /** One clock with aresetn high; `accept` is the transfer condition of the
      enclosing core with the enable flag taken out. */
  function Next(continuous: bool, cfg: nat, r: Regs, accept: bool): Regs {
    var fires := accept && r.enbl;
    Regs(
      if fires && Comp(r) then r.cntr + 1 else if fires && continuous then 0 else r.cntr,
      cfg,
      if !r.enbl && Comp(r) then true else if fires && !Comp(r) && !continuous then false else r.enbl)
  }

  function Run(continuous: bool, cfg: nat, accepts: seq<bool>): Regs {
    if accepts == [] then RESET
    else Next(continuous, cfg, Run(continuous, cfg, accepts[..|accepts| - 1]), accepts[|accepts| - 1])
  }

  /** Number of true entries from index `from` on. */
  function Count(accepts: seq<bool>, from: nat): nat {
    if |accepts| <= from then 0
    else Count(accepts[..|accepts| - 1], from) + if accepts[|accepts| - 1] then 1 else 0
  }

  /** Transfers a run of |accepts| cycles has completed: two cycles load the limit
      and raise the enable flag, then every accepting cycle moves one word, up to
      cfg + 1 words when the core stops. A zero limit never enables it. */
  function Transfers(continuous: bool, cfg: nat, accepts: seq<bool>): nat {
    if cfg == 0 then 0
    else if continuous then Count(accepts, 2)
    else Min(cfg + 1, Count(accepts, 2))
  }

  /** The registers are determined by the number n of transfers so far. */
  ghost predicate Phase(continuous: bool, cfg: nat, cycles: nat, n: nat, r: Regs) {
    if cycles == 0 then r == RESET && n == 0
    else if cfg == 0 then r == RESET && n == 0
    else if cycles == 1 then r == Regs(0, cfg, false) && n == 0
    else if continuous then r == Regs(n % (cfg + 1), cfg, true)
    else if n <= cfg then r == Regs(n, cfg, true)
    else n == cfg + 1 && r == Regs(cfg, cfg, false)
  }

  lemma {:induction false} PhaseStep(continuous: bool, cfg: nat, cycles: nat, n: nat, r: Regs, accept: bool)
    requires Phase(continuous, cfg, cycles, n, r)
    ensures Phase(continuous, cfg, cycles + 1, n + (if accept && r.enbl then 1 else 0),
                  Next(continuous, cfg, r, accept))
  {
    ModSuccessor(n, cfg + 1);
  }

  /** After any run from reset with a constant limit the registers are those of
      the transfer count, and the count follows from the accepting cycles alone. */
  lemma {:induction false} RunPhase(continuous: bool, cfg: nat, accepts: seq<bool>)
    ensures Phase(continuous, cfg, |accepts|, Transfers(continuous, cfg, accepts), Run(continuous, cfg, accepts))
  {
    if accepts != [] {
      var before := accepts[..|accepts| - 1];
      RunPhase(continuous, cfg, before);
      PhaseStep(continuous, cfg, |before|, Transfers(continuous, cfg, before), Run(continuous, cfg, before),
                accepts[|accepts| - 1]);
    }
  }
}
