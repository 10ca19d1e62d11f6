/** cores_demin/axi_hub.v, the write channel: address, data and response buffers, the
    burst counter and the configuration registers. */
module AxiHubWrite {
  import opened Arithmetic
  import opened ByteLanes
  import opened Streams
  import InoutBuffer
  import OutputBuffer
  import Rounding

  datatype Address = Address(id: nat, addr: nat)

  datatype Beat = Beat(strb: Strobe, last: bool, data: Word)

  /** The configuration has `size` words, decoded modulo `span`, a power of two. */
  datatype Params = Params(size: nat, span: nat)

  /** CFG_WIDTH and STS_WIDTH: the address bits for this many words. */
  function Width(size: nat): (w: nat)
    ensures w >= 1 && size <= Rounding.Pow2(w)
    ensures w > 1 ==> size > Rounding.Pow2(w - 1)
  {
    if size <= 2 then 1 else 1 + Width((size + 1) / 2)
  }

  predicate Valid(p: Params) { p.size > 0 && p.span == Rounding.Pow2(Width(p.size)) && p.span > 0 }

  /** buf_0, buf_1, buf_2, int_awcntr_reg and the flip-flops of the configuration */
  datatype Regs = Regs(aw: InoutBuffer.Regs<Address>, w: InoutBuffer.Regs<Beat>, b: OutputBuffer.Regs<nat>,
                       cntr: nat, cfg: seq<Word>)

  datatype Cycle = Cycle(aw: Address, awvalid: bool, w: Beat, wvalid: bool, bready: bool)

  const WORDS: nat := 0x40_0000

  function Region(addr: nat): nat { addr / 0x100_0000 % 16 }

  /** The word address of a beat of a burst, in its region. */
  function WordAddress(addr: nat, beat: nat): nat { (addr / 4 % WORDS + beat) % WORDS }

  /** Beat i of a burst in bytes: bits 27 to 24 of the address are the region, and the
      word begins i words after the address, cut to whole words, modulo 2^24. */
  ghost predicate InBytes(addr: nat, i: nat, region: nat, word: nat) {
    && region < 16 && addr % 0x1000_0000 == region * 0x100_0000 + addr % 0x100_0000
    && word < 0x40_0000 && 4 * word == (addr - addr % 4 + 4 * i) % 0x100_0000
  }

  lemma {:induction false} DecodesBytes(addr: nat, i: nat)
    ensures InBytes(addr, i, Region(addr), WordAddress(addr, i))
  {
    var words := addr / 4;
    assert (words % 0x40_0000 + i) % 0x40_0000 == (words + i) % 0x40_0000;
    var q := (words + i) / 0x40_0000;
    UniqueDivision(4 * words + 4 * i, 0x100_0000, q, 4 * ((words + i) % 0x40_0000));
  }

  function AwValid(r: Regs): bool { InoutBuffer.OutValid(r.aw) }
  function WValid(r: Regs): bool { InoutBuffer.OutValid(r.w) }
  function Last(r: Regs): bool { InoutBuffer.OutData(r.w).last }
  function BReady(r: Regs, c: Cycle): bool { OutputBuffer.InReady(r.b, c.bready) }

  /** int_we_wire: a beat is applied. */
  function WriteEnable(r: Regs, c: Cycle): bool { BReady(r, c) && AwValid(r) && WValid(r) }

  function WriteOf(r: Regs): Write {
    var a, w := InoutBuffer.OutData(r.aw), InoutBuffer.OutData(r.w);
    Write(Region(a.addr), WordAddress(a.addr, r.cntr), w.strb, w.data)
  }

  function AwCycle(r: Regs, c: Cycle): InoutBuffer.Cycle<Address> {
    InoutBuffer.Cycle(c.aw, c.awvalid, BReady(r, c) && WValid(r) && Last(r))
  }

  function WCycle(r: Regs, c: Cycle): InoutBuffer.Cycle<Beat> {
    InoutBuffer.Cycle(c.w, c.wvalid, BReady(r, c) && AwValid(r))
  }

  function BCycle(r: Regs, c: Cycle): OutputBuffer.Cycle<nat> {
    OutputBuffer.Cycle(InoutBuffer.OutData(r.aw).id, AwValid(r) && WValid(r) && Last(r), c.bready)
  }

  function NextCounter(r: Regs, c: Cycle): nat {
    if AwValid(r) && AwCycle(r, c).outReady then 0
    else if !Last(r) && WriteEnable(r, c) then (r.cntr + 1) % 16
    else r.cntr
  }

  function NextConfig(p: Params, r: Regs, c: Cycle): seq<Word>
    requires p.span > 0
  {
    if WriteEnable(r, c) then Apply(r.cfg, 0, p.span, WriteOf(r)) else r.cfg
  }

  function Next(p: Params, r: Regs, aresetn: bool, c: Cycle): Regs
    requires p.span > 0
  {
    Regs(
      InoutBuffer.Next(r.aw, aresetn, AwCycle(r, c)),
      InoutBuffer.Next(r.w, aresetn, WCycle(r, c)),
      OutputBuffer.Next(r.b, aresetn, BCycle(r, c)),
      if aresetn then NextCounter(r, c) else 0,
      if aresetn then NextConfig(p, r, c) else seq(|r.cfg|, _ => ZERO))
  }

  /** The registers after a reset that lasted at least one clock. */
  ghost predicate IsReset(p: Params, r: Regs) {
    && r.aw.buf0.ready && !r.aw.buf1.valid && r.w.buf0.ready && !r.w.buf1.valid && !r.b.valid
    && r.cntr == 0 && r.cfg == seq(p.size, _ => ZERO)
  }

  lemma ResetResets(p: Params, r: Regs, c: Cycle)
    requires Valid(p) && |r.cfg| == p.size
    ensures IsReset(p, Next(p, r, false, c))
  {
  }

  /** The hub with what went through its interfaces: addresses and data beats taken,
      responses given; and the beats applied. */
  datatype System = System(r: Regs, aws: seq<Address>, ws: seq<Beat>, bs: seq<nat>, writes: seq<Write>)

  function Step(p: Params, s: System, c: Cycle): System
    requires p.span > 0
  {
    System(
      Next(p, s.r, true, c),
      s.aws + InoutBuffer.Accepted(s.r.aw, AwCycle(s.r, c)),
      s.ws + InoutBuffer.Accepted(s.r.w, WCycle(s.r, c)),
      s.bs + OutputBuffer.Delivered(s.r.b, BCycle(s.r, c)),
      s.writes + Moved(WriteEnable(s.r, c), WriteOf(s.r)))
  }

  function Run(p: Params, r0: Regs, cycles: seq<Cycle>): System
    requires p.span > 0
  {
    if cycles == [] then System(r0, [], [], [], [])
    else Step(p, Run(p, r0, cycles[..|cycles| - 1]), cycles[|cycles| - 1])
  }

  lemma RunNext(p: Params, r0: Regs, cycles: seq<Cycle>, c: Cycle)
    requires p.span > 0
    ensures Run(p, r0, cycles + [c]) == Step(p, Run(p, r0, cycles), c)
  {
    assert (cycles + [c])[..|cycles|] == cycles;
  }

  /** The number of bursts that these beats complete, and of beats after the last one. */
  function Bursts(ws: seq<Beat>): nat {
    if ws == [] then 0 else Bursts(ws[..|ws| - 1]) + if ws[|ws| - 1].last then 1 else 0
  }

  function Position(ws: seq<Beat>): nat {
    if ws == [] || ws[|ws| - 1].last then 0 else Position(ws[..|ws| - 1]) + 1
  }

  /** Where the data beat with this number goes: its burst's address, advanced by its
      position in the burst; the counter has four bits. */
  function Target(aws: seq<Address>, ws: seq<Beat>, n: nat): Write
    requires n < |ws| && Bursts(ws[..n]) < |aws|
  {
    var a := aws[Bursts(ws[..n])];
    Write(Region(a.addr), WordAddress(a.addr, Position(ws[..n]) % 16), ws[n].strb, ws[n].data)
  }

  /** Beat after beat was applied, each exactly once and at its place. */
  ghost predicate Applied(aws: seq<Address>, ws: seq<Beat>, writes: seq<Write>) {
    && |writes| <= |ws|
    && forall n :: 0 <= n < |writes| ==> AppliedAt(aws, ws, writes, n)
  }

  ghost predicate AppliedAt(aws: seq<Address>, ws: seq<Beat>, writes: seq<Write>, n: nat) {
    n < |writes| && n < |ws| && Bursts(ws[..n]) < |aws| && writes[n] == Target(aws, ws, n)
  }

  /** Where a beat went, in bytes: to its burst's address and on from there. */
  ghost predicate WrittenAt(aws: seq<Address>, ws: seq<Beat>, writes: seq<Write>, n: nat) {
    && n < |writes| && n < |ws| && Bursts(ws[..n]) < |aws|
    && writes[n].strb == ws[n].strb && writes[n].data == ws[n].data
    && InBytes(aws[Bursts(ws[..n])].addr, Position(ws[..n]) % 16, writes[n].region, writes[n].addr)
  }

  ghost predicate WrittenInBytes(aws: seq<Address>, ws: seq<Beat>, writes: seq<Write>) {
    |writes| <= |ws| && forall n: nat :: n < |writes| ==> WrittenAt(aws, ws, writes, n)
  }

  lemma AppliedInBytes(aws: seq<Address>, ws: seq<Beat>, writes: seq<Write>)
    requires Applied(aws, ws, writes)
    ensures WrittenInBytes(aws, ws, writes)
  {
    forall n: nat | n < |writes| ensures WrittenAt(aws, ws, writes, n) {
      assert AppliedAt(aws, ws, writes, n);
      DecodesBytes(aws[Bursts(ws[..n])].addr, Position(ws[..n]) % 16);
    }
  }

  function Ids(aws: seq<Address>): seq<nat> {
    if aws == [] then [] else Ids(aws[..|aws| - 1]) + [aws[|aws| - 1].id]
  }

  /** The bursts whose beats have all been applied. */
  function Done(s: System): nat
    requires |s.writes| <= |s.ws|
  {
    Bursts(s.ws[..|s.writes|])
  }

  /** Both buffers hold exactly what has been taken and not yet used. */
  ghost predicate DataQueue(s: System) {
    && |s.writes| <= |s.ws| && s.ws[|s.writes|..] == InoutBuffer.Stored(s.r.w) && InoutBuffer.Ordered(s.r.w)
  }

  ghost predicate AddressQueue(s: System)
    requires |s.writes| <= |s.ws|
  {
    && Done(s) <= |s.aws| && s.aws[Done(s)..] == InoutBuffer.Stored(s.r.aw) && InoutBuffer.Ordered(s.r.aw)
  }

  ghost predicate Queues(s: System) { DataQueue(s) && AddressQueue(s) }

  ghost predicate Counter(s: System)
    requires |s.writes| <= |s.ws|
  {
    s.r.cntr == Position(s.ws[..|s.writes|]) % 16
  }

  /** The responses given and the one waiting are the ids of the completed bursts. */
  ghost predicate Responses(s: System)
    requires |s.writes| <= |s.ws| && Done(s) <= |s.aws|
  {
    s.bs + OutputBuffer.Stored(s.r.b) == Ids(s.aws[..Done(s)])
  }

  ghost predicate Config(p: Params, s: System)
    requires p.span > 0
  {
    Holds(s.writes, 0, p.span, seq(p.size, _ => ZERO), s.r.cfg)
  }

  ghost predicate Inv(p: Params, s: System)
    requires p.span > 0
  {
    Queues(s) && Counter(s) && Applied(s.aws, s.ws, s.writes) && Responses(s) && Config(p, s)
  }

  /** What a queue's log gains at one end and loses at the other. */
  lemma QueueStep<T>(log: seq<T>, m: nat, stored: seq<T>, acc: seq<T>, del: seq<T>, stored': seq<T>)
    requires m <= |log| && log[m..] == stored && stored + acc == del + stored'
    ensures m + |del| <= |log + acc| && (log + acc)[m + |del|..] == stored'
    ensures |del| == 1 ==> del[0] == (log + acc)[m]
  {
    assert (log + acc)[m..] == stored + acc;
    assert (log + acc)[m + |del|..] == (log + acc)[m..][|del|..];
  }

  lemma PrefixKept<T>(log: seq<T>, more: seq<T>, n: nat)
    requires n <= |log|
    ensures (log + more)[..n] == log[..n]
  {
  }

  lemma BurstsNext(ws: seq<Beat>, n: nat)
    requires n < |ws|
    ensures Bursts(ws[..n + 1]) == Bursts(ws[..n]) + if ws[n].last then 1 else 0
    ensures Position(ws[..n + 1]) == if ws[n].last then 0 else Position(ws[..n]) + 1
  {
    assert ws[..n + 1][..n] == ws[..n];
  }

  lemma IdsNext(aws: seq<Address>, n: nat)
    requires n < |aws|
    ensures Ids(aws[..n + 1]) == Ids(aws[..n]) + [aws[n].id]
  {
    assert aws[..n + 1][..n] == aws[..n];
  }

  /** The beat at the head of the buffers is the next one, with its address. */
  lemma Head(s: System, c: Cycle)
    requires Queues(s) && WriteEnable(s.r, c)
    ensures |s.writes| < |s.ws| && s.ws[|s.writes|] == InoutBuffer.OutData(s.r.w)
    ensures Done(s) < |s.aws| && s.aws[Done(s)] == InoutBuffer.OutData(s.r.aw)
  {
    assert s.ws[|s.writes|..][0] == s.ws[|s.writes|];
    assert s.aws[Done(s)..][0] == s.aws[Done(s)];
  }

  lemma DataQueueStep(p: Params, s: System, c: Cycle)
    requires p.span > 0 && DataQueue(s)
    ensures DataQueue(Step(p, s, c))
    ensures Step(p, s, c).ws[..|s.writes|] == s.ws[..|s.writes|]
  {
    InoutBuffer.StepConserves(s.r.w, WCycle(s.r, c));
    var acc, del := InoutBuffer.Accepted(s.r.w, WCycle(s.r, c)), InoutBuffer.Delivered(s.r.w, WCycle(s.r, c));
    assert |del| == |Moved(WriteEnable(s.r, c), WriteOf(s.r))|;
    QueueStep(s.ws, |s.writes|, InoutBuffer.Stored(s.r.w), acc, del, InoutBuffer.Stored(Step(p, s, c).r.w));
    PrefixKept(s.ws, acc, |s.writes|);
  }

  /** One more burst is done in the cycle in which its last beat is applied. */
  lemma Advance(p: Params, s: System, c: Cycle)
    requires p.span > 0 && Queues(s) && DataQueue(Step(p, s, c))
    requires Step(p, s, c).ws[..|s.writes|] == s.ws[..|s.writes|]
    ensures var s' := Step(p, s, c);
            && Done(s') == Done(s) + (if WriteEnable(s.r, c) && Last(s.r) then 1 else 0)
            && Position(s'.ws[..|s'.writes|]) ==
               if !WriteEnable(s.r, c) then Position(s.ws[..|s.writes|])
               else if Last(s.r) then 0 else Position(s.ws[..|s.writes|]) + 1
  {
    if WriteEnable(s.r, c) {
      Head(s, c);
      BurstsNext(Step(p, s, c).ws, |s.writes|);
    }
  }

  lemma AddressQueueStep(p: Params, s: System, c: Cycle)
    requires p.span > 0 && Queues(s) && DataQueue(Step(p, s, c))
    requires Done(Step(p, s, c)) == Done(s) + if WriteEnable(s.r, c) && Last(s.r) then 1 else 0
    ensures AddressQueue(Step(p, s, c))
  {
    InoutBuffer.StepConserves(s.r.aw, AwCycle(s.r, c));
    var acc, del := InoutBuffer.Accepted(s.r.aw, AwCycle(s.r, c)), InoutBuffer.Delivered(s.r.aw, AwCycle(s.r, c));
    assert |del| == if WriteEnable(s.r, c) && Last(s.r) then 1 else 0;
    QueueStep(s.aws, Done(s), InoutBuffer.Stored(s.r.aw), acc, del, InoutBuffer.Stored(Step(p, s, c).r.aw));
  }

  lemma AppliedBeat(p: Params, s: System, c: Cycle, n: nat)
    requires p.span > 0 && Applied(s.aws, s.ws, s.writes) && n < |s.writes|
    ensures var s' := Step(p, s, c); AppliedAt(s'.aws, s'.ws, s'.writes, n)
  {
    assert AppliedAt(s.aws, s.ws, s.writes, n);
    PrefixKept(s.ws, InoutBuffer.Accepted(s.r.w, WCycle(s.r, c)), n);
  }

  lemma AppliedHead(p: Params, s: System, c: Cycle)
    requires p.span > 0 && Queues(s) && Counter(s) && WriteEnable(s.r, c)
    ensures var s' := Step(p, s, c); AppliedAt(s'.aws, s'.ws, s'.writes, |s.writes|)
  {
    PrefixKept(s.ws, InoutBuffer.Accepted(s.r.w, WCycle(s.r, c)), |s.writes|);
    Head(s, c);
  }

  lemma AppliedStep(p: Params, s: System, c: Cycle)
    requires p.span > 0 && Queues(s) && Counter(s) && Applied(s.aws, s.ws, s.writes)
    requires DataQueue(Step(p, s, c))
    ensures var s' := Step(p, s, c); Applied(s'.aws, s'.ws, s'.writes)
  {
    var s' := Step(p, s, c);
    forall n | 0 <= n < |s'.writes| ensures AppliedAt(s'.aws, s'.ws, s'.writes, n) {
      if n < |s.writes| {
        AppliedBeat(p, s, c, n);
      } else {
        AppliedHead(p, s, c);
      }
    }
  }

  lemma ResponsesStep(p: Params, s: System, c: Cycle)
    requires p.span > 0 && Queues(s) && Responses(s) && Queues(Step(p, s, c))
    requires Done(Step(p, s, c)) == Done(s) + if WriteEnable(s.r, c) && Last(s.r) then 1 else 0
    ensures Responses(Step(p, s, c))
  {
    var s' := Step(p, s, c);
    OutputBuffer.StepConserves(s.r.b, BCycle(s.r, c));
    PrefixKept(s.aws, InoutBuffer.Accepted(s.r.aw, AwCycle(s.r, c)), Done(s));
    var stored, acc := OutputBuffer.Stored(s.r.b), OutputBuffer.Accepted(s.r.b, BCycle(s.r, c));
    var del := OutputBuffer.Delivered(s.r.b, BCycle(s.r, c));
    Regroup(s.bs, stored, acc);
    Regroup(s.bs, del, OutputBuffer.Stored(s'.r.b));
    if WriteEnable(s.r, c) && Last(s.r) {
      Head(s, c);
      IdsNext(s'.aws, Done(s));
    }
  }

  lemma CounterStep(p: Params, s: System, c: Cycle)
    requires p.span > 0 && Queues(s) && Counter(s)
    requires Queues(Step(p, s, c)) && Step(p, s, c).ws[..|s.writes|] == s.ws[..|s.writes|]
    ensures Counter(Step(p, s, c))
  {
    Advance(p, s, c);
    Modulo16(Position(s.ws[..|s.writes|]));
  }

  lemma Modulo16(n: nat)
    ensures (n % 16 + 1) % 16 == (n + 1) % 16
  {
  }

  lemma ConfigStep(p: Params, s: System, c: Cycle)
    requires p.span > 0 && Config(p, s)
    ensures Config(p, Step(p, s, c))
  {
    if WriteEnable(s.r, c) {
      HoldsNext(s.writes, 0, p.span, seq(p.size, _ => ZERO), s.r.cfg, WriteOf(s.r));
    } else {
      assert s.writes + [] == s.writes;
    }
  }

  lemma InvStep(p: Params, s: System, c: Cycle)
    requires p.span > 0 && Inv(p, s)
    ensures Inv(p, Step(p, s, c))
  {
    DataQueueStep(p, s, c);
    Advance(p, s, c);
    AddressQueueStep(p, s, c);
    CounterStep(p, s, c);
    AppliedStep(p, s, c);
    ResponsesStep(p, s, c);
    ConfigStep(p, s, c);
  }

  lemma {:induction false} RunInv(p: Params, r0: Regs, cycles: seq<Cycle>)
    requires Valid(p) && IsReset(p, r0)
    ensures Inv(p, Run(p, r0, cycles))
  {
    if cycles != [] {
      RunInv(p, r0, cycles[..|cycles| - 1]);
      InvStep(p, Run(p, r0, cycles[..|cycles| - 1]), cycles[|cycles| - 1]);
    }
  }

  lemma {:induction false} IdsAt(aws: seq<Address>, k: nat)
    ensures |Ids(aws)| == |aws|
    ensures k < |aws| ==> Ids(aws)[k] == aws[k].id
  {
    if aws != [] {
      IdsAt(aws[..|aws| - 1], k);
    }
  }

  /** The beats taken are applied in order, each once; every response carries the id of
      its burst, in the order of the addresses, and none comes before the last beat of
      its burst was applied; the registers are what the beats so far leave in them. */
  ghost predicate AsAsked(p: Params, s: System)
    requires p.span > 0
  {
    && WrittenInBytes(s.aws, s.ws, s.writes)
    && |s.bs| <= Done(s) <= |s.aws|
    && (forall k :: 0 <= k < |s.bs| ==> s.bs[k] == s.aws[k].id)
    && Holds(s.writes, 0, p.span, seq(p.size, _ => ZERO), s.r.cfg)
  }

  lemma InvAsAsked(p: Params, s: System)
    requires p.span > 0 && Inv(p, s)
    ensures AsAsked(p, s)
  {
    AppliedInBytes(s.aws, s.ws, s.writes);
    IdsAt(s.aws[..Done(s)], 0);
    forall k | 0 <= k < |s.bs| ensures s.bs[k] == s.aws[k].id {
      IdsAt(s.aws[..Done(s)], k);
    }
  }

  /** In every run from reset. */
  lemma WritesBursts(p: Params, r0: Regs, cycles: seq<Cycle>)
    requires Valid(p) && IsReset(p, r0)
    ensures AsAsked(p, Run(p, r0, cycles))
  {
    RunInv(p, r0, cycles);
    InvAsAsked(p, Run(p, r0, cycles));
  }

  lemma NextInBytes(addr: nat, i: nat, region: nat, word: nat, region': nat, word': nat)
    requires InBytes(addr, i, region, word) && InBytes(addr, i + 1, region', word')
    ensures region' == region && word' == if word == 0x3f_ffff then 0 else word + 1
  {
    NextByte(addr - addr % 4, i, word, word');
    SameRegion(addr % 0x1000_0000, addr % 0x100_0000, region, region');
  }

  lemma NextByte(base: int, i: nat, word: nat, word': nat)
    requires word < 0x40_0000 && 4 * word == (base + 4 * i) % 0x100_0000
    requires word' < 0x40_0000 && 4 * word' == (base + 4 * (i + 1)) % 0x100_0000
    ensures word' == if word == 0x3f_ffff then 0 else word + 1
  {
    NextModulo(base + 4 * i, word);
    assert base + 4 * (i + 1) == base + 4 * i + 4;
  }

  lemma SameRegion(a: nat, b: nat, region: nat, region': nat)
    requires a == region * 0x100_0000 + b && a == region' * 0x100_0000 + b
    ensures region == region'
  {
  }

  lemma {:induction false} NextModulo(n: int, word: nat)
    requires word < 0x40_0000 && n % 0x100_0000 == 4 * word
    ensures (n + 4) % 0x100_0000 == if word == 0x3f_ffff then 0 else 4 * word + 4
  {
    var q := n / 0x100_0000;
    if word == 0x3f_ffff {
      UniqueDivision(n + 4, 0x100_0000, q + 1, 0);
    } else {
      UniqueDivision(n + 4, 0x100_0000, q, 4 * word + 4);
    }
  }

  /** A burst begins at the word of its address. */
  ghost predicate BeginsAt(aws: seq<Address>, ws: seq<Beat>, writes: seq<Write>, n: nat) {
    n < |writes| && n <= |ws| && (n == 0 || ws[n - 1].last) ==>
      Bursts(ws[..n]) < |aws| && writes[n].addr == aws[Bursts(ws[..n])].addr / 4 % 0x40_0000
  }

  /** ... and goes on with the next word, for sixteen beats at a time. */
  ghost predicate GoesOn(ws: seq<Beat>, writes: seq<Write>, n: nat) {
    0 < n < |writes| && n <= |ws| && !ws[n - 1].last && Position(ws[..n]) % 16 != 0 ==>
      && writes[n].region == writes[n - 1].region
      && writes[n].addr == if writes[n - 1].addr == 0x3f_ffff then 0 else writes[n - 1].addr + 1
  }

  lemma {:induction false} FirstWord(aws: seq<Address>, ws: seq<Beat>, writes: seq<Write>, n: nat)
    requires n < |writes| ==> WrittenAt(aws, ws, writes, n)
    ensures BeginsAt(aws, ws, writes, n)
  {
    if n < |writes| && (n == 0 || ws[n - 1].last) {
      BeginsInBytes(aws[Bursts(ws[..n])].addr, writes[n].region, writes[n].addr);
    }
  }

  lemma {:induction false} BeginsInBytes(addr: nat, region: nat, word: nat)
    requires InBytes(addr, 0, region, word)
    ensures word == addr / 4 % 0x40_0000
  {
    var q, r := addr / 4 / 0x40_0000, addr / 4 % 0x40_0000;
    UniqueDivision(4 * (addr / 4), 0x100_0000, q, 4 * r);
  }

  lemma {:induction false} NextWord(aws: seq<Address>, ws: seq<Beat>, writes: seq<Write>, n: nat)
    requires 0 < n < |writes| ==> WrittenAt(aws, ws, writes, n - 1) && WrittenAt(aws, ws, writes, n)
    ensures GoesOn(ws, writes, n)
  {
    if 0 < n < |writes| && !ws[n - 1].last && Position(ws[..n]) % 16 != 0 {
      BurstsNext(ws, n - 1);
      Carries(Position(ws[..n - 1]));
      NextInBytes(aws[Bursts(ws[..n])].addr, Position(ws[..n - 1]) % 16, writes[n - 1].region, writes[n - 1].addr,
                  writes[n].region, writes[n].addr);
    }
  }

  lemma Carries(n: nat)
    requires (n + 1) % 16 != 0
    ensures (n + 1) % 16 == n % 16 + 1
  {
  }

  /** In every run from reset. */
  lemma {:induction false} ConsecutiveWords(p: Params, r0: Regs, cycles: seq<Cycle>, n: nat)
    requires Valid(p) && IsReset(p, r0)
    ensures var s := Run(p, r0, cycles); BeginsAt(s.aws, s.ws, s.writes, n) && GoesOn(s.ws, s.writes, n)
  {
    var s := Run(p, r0, cycles);
    WritesBursts(p, r0, cycles);
    FirstWord(s.aws, s.ws, s.writes, n);
    NextWord(s.aws, s.ws, s.writes, n);
  }

  /** One clock after a reset what was offered in it waits in the second stages. */
  lemma FirstClock(p: Params, r: Regs, c: Cycle)
    requires p.span > 0 && IsReset(p, r)
    ensures var r' := Next(p, r, true, c);
            && AwValid(r') == c.awvalid && WValid(r') == c.wvalid && !r'.b.valid && r'.cntr == 0
            && (c.awvalid ==> InoutBuffer.OutData(r'.aw) == c.aw)
            && (c.wvalid ==> InoutBuffer.OutData(r'.w) == c.w)
            && r'.aw.buf0.ready && r'.w.buf0.ready && !WriteEnable(r, c)
  {
  }

  lemma {:induction false} BurstsMonotone(ws: seq<Beat>, a: nat, b: nat)
    requires a <= b <= |ws|
    ensures Bursts(ws[..a]) <= Bursts(ws[..b])
  {
    if a < b {
      BurstsMonotone(ws, a, b - 1);
      BurstsNext(ws, b - 1);
    }
  }

  /** With a free response buffer a beat is applied as soon as it and its address are
      there. */
  lemma NeverWaits(p: Params, s: System, c: Cycle)
    requires p.span > 0 && Inv(p, s) && c.bready
    ensures |s.writes| < |s.ws| && Done(s) < |s.aws| ==> WriteEnable(s.r, c)
    ensures |s.ws| <= |s.writes| + 2
  {
    assert |s.ws[|s.writes|..]| == |s.ws| - |s.writes|;
    assert |s.aws[Done(s)..]| == |s.aws| - Done(s);
  }

  /** The bursts whose address and beats have all been taken. */
  function Complete(s: System): nat {
    if Bursts(s.ws) < |s.aws| then Bursts(s.ws) else |s.aws|
  }

  /** The first n beats complete these bursts, and at most `left` of them wait,
      unless the bursts are done. */
  ghost predicate Behind(s: System, n: nat, complete: nat, left: nat) {
    && |s.writes| <= |s.ws| && n <= |s.ws| && complete <= |s.aws|
    && Bursts(s.ws[..n]) >= complete && (Done(s) >= complete || n <= |s.writes| + left)
  }

  lemma DoneGrows(p: Params, s: System, c: Cycle)
    requires p.span > 0 && Inv(p, s)
    ensures Inv(p, Step(p, s, c)) && Done(Step(p, s, c)) >= Done(s)
  {
    InvStep(p, s, c);
    DataQueueStep(p, s, c);
    Advance(p, s, c);
  }

  lemma BehindStep(p: Params, s: System, c: Cycle, n: nat, complete: nat, left: nat)
    requires p.span > 0 && Inv(p, s) && c.bready && Behind(s, n, complete, left + 1)
    ensures Inv(p, Step(p, s, c)) && Behind(Step(p, s, c), n, complete, left)
  {
    DoneGrows(p, s, c);
    NeverWaits(p, s, c);
    PrefixKept(s.ws, InoutBuffer.Accepted(s.r.w, WCycle(s.r, c)), n);
    if Done(s) < complete && n <= |s.writes| {
      BurstsMonotone(s.ws, n, |s.writes|);
    }
  }

  lemma BehindAtFirst(p: Params, s: System, c: Cycle)
    requires p.span > 0 && Inv(p, s) && c.bready
    ensures Behind(s, |s.ws|, Complete(s), 2)
  {
    NeverWaits(p, s, c);
    assert s.ws[..|s.ws|] == s.ws;
  }

  lemma NoLongerBehind(s: System, n: nat, complete: nat)
    requires Behind(s, n, complete, 0)
    ensures Done(s) >= complete
  {
    if Done(s) < complete {
      BurstsMonotone(s.ws, n, |s.writes|);
    }
  }

  lemma Responds(p: Params, s: System, c: Cycle)
    requires p.span > 0 && Inv(p, s) && c.bready
    ensures |Step(p, s, c).bs| == Done(s)
  {
    IdsAt(s.aws[..Done(s)], 0);
  }

  /** Every burst that is there, address and beats, is answered within three cycles in
      which the master takes responses, whatever else it sends meanwhile. */
  lemma EveryBurstAnswered(p: Params, s: System, c1: Cycle, c2: Cycle, c3: Cycle)
    requires p.span > 0 && Inv(p, s) && c1.bready && c2.bready && c3.bready
    ensures |Step(p, Step(p, Step(p, s, c1), c2), c3).bs| >= Complete(s)
  {
    var s1, s2 := Step(p, s, c1), Step(p, Step(p, s, c1), c2);
    BehindAtFirst(p, s, c1);
    BehindStep(p, s, c1, |s.ws|, Complete(s), 1);
    BehindStep(p, s1, c2, |s.ws|, Complete(s), 0);
    NoLongerBehind(s2, |s.ws|, Complete(s));
    Responds(p, s2, c3);
  }
}
