/** cores_demin/axi_hub.v, the read channel: request and data buffers, the burst
    counter, the read multiplexers, and the block RAMs at the hub's ports. */
module AxiHubRead {
  import opened Arithmetic
  import opened ByteLanes
  import opened Streams
  import InoutBuffer
  import OutputBuffer
  import W = AxiHubWrite

  type nibble = n: nat | n < 16

  datatype Request = Request(id: nat, len: nibble, addr: nat)

  /** What buf_4 holds: which BRAM ports were read, and the rest of the response. */
  datatype Held = Held(bsel: seq<bool>, id: nat, last: bool, data: Word)

  /** buf_3, buf_4 and int_arcntr_reg */
  datatype Regs = Regs(ar: InoutBuffer.Regs<Request>, r: OutputBuffer.Regs<Held>, cntr: nibble)

  const HUB_SIZE: nat := 6

  /** The address bits decoded for the configuration and the status words. */
  datatype Params = Params(cfgSpan: nat, stsSpan: nat)

  predicate Valid(p: Params) { p.cfgSpan > 0 && p.stsSpan > 0 }

  /** One clock: the master's side, the words to be read, the six streams, the six
      memories, the write beat applied in this cycle if there is one; `undefined` is
      what an index outside of a multiplexer shows and `stale` what a BRAM shows
      after a write. */
  datatype Cycle = Cycle(ar: Request, arvalid: bool, rready: bool, cfg: seq<Word>, sts: seq<Word>,
                         tvalid: seq<bool>, tdata: seq<Word>, mems: seq<seq<Word>>,
                         we: bool, write: Write, undefined: Word, stale: seq<Word>)

  predicate Ports(c: Cycle) { |c.tvalid| == |c.tdata| == HUB_SIZE }

  ghost predicate Sized(c: Cycle) {
    && Ports(c) && |c.mems| == |c.stale| == HUB_SIZE
    && (forall j :: 0 <= j < HUB_SIZE ==> |c.mems[j]| == W.WORDS)
    && c.write.addr < W.WORDS
  }

  function ArValid(r: Regs): bool { InoutBuffer.OutValid(r.ar) }
  function Ar(r: Regs): Request { InoutBuffer.OutData(r.ar) }
  function RReady(r: Regs, c: Cycle): bool { OutputBuffer.InReady(r.r, c.rready) }
  function Last(r: Regs): bool { r.cntr == Ar(r).len }
  function ReadRegion(r: Regs): nat { W.Region(Ar(r).addr) }
  function ReadAddress(r: Regs): nat { W.WordAddress(Ar(r).addr, r.cntr) }

  /** int_re_wire: a beat is issued. */
  function ReadEnable(r: Regs, c: Cycle): bool { RReady(r, c) && ArValid(r) }

  /** int_sready_wire, also the read part of the BRAM enables */
  function Selected(r: Regs, c: Cycle, j: nat): bool { ReadEnable(r, c) && ReadRegion(r) == j + 2 }

  function BramSelect(r: Regs, c: Cycle): seq<bool>
    requires |c.tvalid| == HUB_SIZE
  {
    seq(HUB_SIZE, j requires 0 <= j < HUB_SIZE => Selected(r, c, j) && !c.tvalid[j])
  }

  /** The word with this index, of those that there are. */
  function Pick(words: seq<Word>, span: nat, addr: nat, undefined: Word): Word
    requires span > 0
  {
    if addr % span < |words| then words[addr % span] else undefined
  }

  /** int_rdata_mux */
  function MuxData(p: Params, r: Regs, c: Cycle): Word
    requires Valid(p) && Ports(c)
  {
    var region, addr := ReadRegion(r), ReadAddress(r);
    if region == 0 then Pick(c.cfg, p.cfgSpan, addr, c.undefined)
    else if region == 1 then Pick(c.sts, p.stsSpan, addr, c.undefined)
    else if region < HUB_SIZE + 2 then if c.tvalid[region - 2] then c.tdata[region - 2] else ZERO
    else c.undefined
  }

  function ArCycle(r: Regs, c: Cycle): InoutBuffer.Cycle<Request> {
    InoutBuffer.Cycle(c.ar, c.arvalid, RReady(r, c) && Last(r))
  }

  function RCycle(p: Params, r: Regs, c: Cycle): OutputBuffer.Cycle<Held>
    requires Valid(p) && Ports(c)
  {
    OutputBuffer.Cycle(Held(BramSelect(r, c), Ar(r).id, Last(r), MuxData(p, r, c)), ArValid(r), c.rready)
  }

  function NextCounter(r: Regs, c: Cycle): nibble {
    if ArValid(r) && ArCycle(r, c).outReady then 0
    else if !Last(r) && ReadEnable(r, c) then (r.cntr + 1) % 16
    else r.cntr
  }

  function Next(p: Params, r: Regs, aresetn: bool, c: Cycle): Regs
    requires Valid(p) && Ports(c)
  {
    Regs(
      InoutBuffer.Next(r.ar, aresetn, ArCycle(r, c)),
      OutputBuffer.Next(r.r, aresetn, RCycle(p, r, c)),
      if aresetn then NextCounter(r, c) else 0)
  }

  /** The outputs of the selected BRAMs, or-ed together. */
  function Gathered(bsel: seq<bool>, bram: seq<Word>): Word
    requires |bsel| == |bram|
  {
    var n := |bsel|;
    if n == 0 then ZERO
    else Or(Gathered(bsel[..n - 1], bram[..n - 1]), if bsel[n - 1] then bram[n - 1] else ZERO)
  }

  /** s_axi_rdata */
  function ReadData(h: Held, bram: seq<Word>): Word
    requires |h.bsel| == |bram|
  {
    Or(h.data, Gathered(h.bsel, bram))
  }

  /** The address of all BRAM ports: that of the write beat if there is one. */
  function BramAddress(r: Regs, c: Cycle): nat { if c.we then c.write.addr else ReadAddress(r) }

  function WriteSelected(c: Cycle, j: nat): bool { c.we && c.write.region == j + 2 }

  /** The output registers of the BRAMs; one that is not enabled keeps its output. */
  function NextBram(r: Regs, c: Cycle, bram: seq<Word>): (bram': seq<Word>)
    requires Sized(c) && |bram| == HUB_SIZE
  {
    seq(HUB_SIZE, j requires 0 <= j < HUB_SIZE =>
      if WriteSelected(c, j) then c.stale[j]
      else if Selected(r, c, j) then c.mems[j][BramAddress(r, c)]
      else bram[j])
  }

  /** What one beat is meant to read: the word at its address in the cycle in which it
      is issued, or the word on its stream port. */
  datatype Place = Place(id: nat, last: bool, region: nat, addr: nat)

  datatype Issue = Issue(place: Place, fromStream: bool, word: Word)

  predicate FromStream(r: Regs, c: Cycle)
    requires Ports(c)
  {
    2 <= ReadRegion(r) < HUB_SIZE + 2 && c.tvalid[ReadRegion(r) - 2]
  }

  predicate FromBram(r: Regs, c: Cycle)
    requires Ports(c)
  {
    2 <= ReadRegion(r) < HUB_SIZE + 2 && !c.tvalid[ReadRegion(r) - 2]
  }

  function Wanted(p: Params, r: Regs, c: Cycle): Word
    requires Valid(p) && Sized(c)
  {
    if FromBram(r, c) then c.mems[ReadRegion(r) - 2][ReadAddress(r)] else MuxData(p, r, c)
  }

  function IssueOf(p: Params, r: Regs, c: Cycle): Issue
    requires Valid(p) && Sized(c)
  {
    Issue(Place(Ar(r).id, Last(r), ReadRegion(r), ReadAddress(r)), FromStream(r, c), Wanted(p, r, c))
  }

  /** The ready outputs of the stream ports. */
  function StreamReady(r: Regs, c: Cycle): (tready: seq<bool>)
    ensures |tready| == HUB_SIZE
  {
    seq(HUB_SIZE, j requires 0 <= j < HUB_SIZE => Selected(r, c, j))
  }

  /** The handshakes on the first n stream ports: port and word. */
  function Handshakes(tready: seq<bool>, c: Cycle, n: nat): seq<(nat, Word)>
    requires Ports(c) && n <= HUB_SIZE == |tready|
  {
    if n == 0 then []
    else Handshakes(tready, c, n - 1) + Moved(c.tvalid[n - 1] && tready[n - 1], (n - 1, c.tdata[n - 1]))
  }

  /** The hub and the BRAM outputs with what went through the interfaces: requests
      taken, ids and last marks and data given, stream words taken; and the beats
      issued. */
  datatype System = System(r: Regs, bram: seq<Word>, ars: seq<Request>, heads: seq<(nat, bool)>, data: seq<Word>,
                           pops: seq<(nat, Word)>, issues: seq<Issue>)

  ghost predicate Whole(s: System) { |s.bram| == HUB_SIZE && (s.r.r.valid ==> |s.r.r.data.bsel| == HUB_SIZE) }

  function Head(h: Held): (nat, bool) { (h.id, h.last) }

  function Step(p: Params, s: System, c: Cycle): (s': System)
    requires Valid(p) && Sized(c) && Whole(s)
    ensures Whole(s')
  {
    System(
      Next(p, s.r, true, c),
      NextBram(s.r, c, s.bram),
      s.ars + InoutBuffer.Accepted(s.r.ar, ArCycle(s.r, c)),
      s.heads + (if s.r.r.valid && c.rready then [Head(s.r.r.data)] else []),
      s.data + (if s.r.r.valid && c.rready then [ReadData(s.r.r.data, s.bram)] else []),
      s.pops + Handshakes(StreamReady(s.r, c), c, HUB_SIZE),
      s.issues + Moved(ReadEnable(s.r, c), IssueOf(p, s.r, c)))
  }

  ghost predicate AllSized(cycles: seq<Cycle>) { forall i :: 0 <= i < |cycles| ==> Sized(cycles[i]) }

  function Run(p: Params, s0: System, cycles: seq<Cycle>): (s: System)
    requires Valid(p) && AllSized(cycles) && Whole(s0)
    ensures Whole(s)
  {
    if cycles == [] then s0 else Step(p, Run(p, s0, cycles[..|cycles| - 1]), cycles[|cycles| - 1])
  }

  /** After a reset, whatever the BRAMs show. */
  ghost predicate Initial(s: System) {
    && s.r.ar.buf0.ready && !s.r.ar.buf1.valid && !s.r.r.valid && s.r.cntr == 0 && |s.bram| == HUB_SIZE
    && s.ars == [] && s.heads == [] && s.data == [] && s.pops == [] && s.issues == []
  }

  /** A reset from any state leaves no request, no response and no beat counted. */
  lemma {:induction false} ResetResets(p: Params, r: Regs, c: Cycle, bram: seq<Word>)
    requires Valid(p) && Ports(c) && |bram| == HUB_SIZE
    ensures Initial(System(Next(p, r, false, c), bram, [], [], [], [], []))
    ensures InoutBuffer.Stored(Next(p, r, false, c).ar) == []
  {
  }

  /** The first n beats of a burst. */
  function Beats(q: Request, n: nat): seq<Place> {
    seq(n, i requires 0 <= i < n => Place(q.id, i == q.len, W.Region(q.addr), W.WordAddress(q.addr, i)))
  }

  /** All beats of all bursts: one more than the length for each. */
  function AllBeats(qs: seq<Request>): seq<Place> {
    if qs == [] then [] else AllBeats(qs[..|qs| - 1]) + Beats(qs[|qs| - 1], qs[|qs| - 1].len + 1)
  }

  function Map<A, B>(f: A -> B, xs: seq<A>): seq<B> { seq(|xs|, i requires 0 <= i < |xs| => f(xs[i])) }

  lemma MapPush<A, B>(f: A -> B, xs: seq<A>, x: A)
    ensures Map(f, xs + [x]) == Map(f, xs) + [f(x)]
  {
  }

  lemma MapAt<A, B>(f: A -> B, xs: seq<A>, n: nat)
    requires n < |xs|
    ensures Map(f, xs)[n] == f(xs[n])
  {
  }

  function PlaceOf(i: Issue): Place { i.place }
  function WordOf(i: Issue): Word { i.word }
  function HeadOf(i: Issue): (nat, bool) { (i.place.id, i.place.last) }
  function PopOf(i: Issue): seq<(nat, Word)> {
    if i.fromStream && i.place.region >= 2 then [(i.place.region - 2, i.word)] else []
  }

  /** The bursts whose last beat has been issued. */
  function Done(issues: seq<Issue>): nat {
    if issues == [] then 0 else Done(issues[..|issues| - 1]) + if issues[|issues| - 1].place.last then 1 else 0
  }

  /** The buffer holds the requests not yet done; the counter counts the beats of the
      first one that have been issued. */
  ghost predicate Queue(s: System) {
    && Done(s.issues) <= |s.ars|
    && s.ars[Done(s.issues)..] == InoutBuffer.Stored(s.r.ar) && InoutBuffer.Ordered(s.r.ar)
    && (ArValid(s.r) ==> s.r.cntr <= Ar(s.r).len) && (!ArValid(s.r) ==> s.r.cntr == 0)
  }

  ghost predicate Placed(s: System)
    requires Done(s.issues) <= |s.ars|
  {
    Map(PlaceOf, s.issues) == AllBeats(s.ars[..Done(s.issues)]) + Beats(Ar(s.r), s.r.cntr)
  }

  /** Every beat issued is given or waits in the output buffer. */
  ghost predicate Given(s: System) {
    s.heads + (if s.r.r.valid then [Head(s.r.r.data)] else []) == Map(HeadOf, s.issues)
  }

  ghost predicate Popped(s: System) { s.pops == Flatten(Map(PopOf, s.issues)) }

  /** The beats issued since the last one that ended a burst. */
  function Since(issues: seq<Issue>): nat {
    if issues == [] || issues[|issues| - 1].place.last then 0 else Since(issues[..|issues| - 1]) + 1
  }

  /** What beat n was issued for: a beat of the burst whose turn it was, with its id, at
      its place in bytes, and marked last exactly after `len` others. */
  ghost predicate IssuedFor(ars: seq<Request>, issues: seq<Issue>, n: nat) {
    n < |issues| ==>
      var k, i, at := Done(issues[..n]), Since(issues[..n]), issues[n].place;
      && k < |ars| && at.id == ars[k].id && i <= ars[k].len && (at.last <==> i == ars[k].len)
      && W.InBytes(ars[k].addr, i, at.region, at.addr)
  }

  ghost predicate Located(s: System) {
    && (forall n: nat :: n < |s.issues| ==> IssuedFor(s.ars, s.issues, n))
    && (ArValid(s.r) ==> s.r.cntr == Since(s.issues)) && (!ArValid(s.r) ==> Since(s.issues) == 0)
  }

  ghost predicate Inv(s: System) { Whole(s) && Queue(s) && Placed(s) && Located(s) && Given(s) && Popped(s) }

  lemma DoneNext(issues: seq<Issue>, i: Issue)
    ensures Done(issues + [i]) == Done(issues) + if i.place.last then 1 else 0
  {
    assert (issues + [i])[..|issues|] == issues;
  }

  lemma AllBeatsNext(ars: seq<Request>, n: nat)
    requires n < |ars|
    ensures AllBeats(ars[..n + 1]) == AllBeats(ars[..n]) + Beats(ars[n], ars[n].len + 1)
  {
    assert ars[..n + 1][..n] == ars[..n];
  }

  lemma HeadRequest(s: System)
    requires Queue(s) && ArValid(s.r)
    ensures Done(s.issues) < |s.ars| && s.ars[Done(s.issues)] == Ar(s.r)
  {
    assert s.ars[Done(s.issues)..][0] == s.ars[Done(s.issues)];
  }

  lemma DoneStep(p: Params, s: System, c: Cycle)
    requires Valid(p) && Sized(c) && Whole(s)
    ensures Done(Step(p, s, c).issues) == Done(s.issues) + if ReadEnable(s.r, c) && Last(s.r) then 1 else 0
  {
    if ReadEnable(s.r, c) {
      DoneNext(s.issues, IssueOf(p, s.r, c));
    } else {
      assert s.issues + [] == s.issues;
    }
  }

  /** How the request at the head and the counter move. */
  lemma Cursor(p: Params, r: Regs, c: Cycle)
    requires Valid(p) && Ports(c)
    requires (ArValid(r) ==> r.cntr <= Ar(r).len) && (!ArValid(r) ==> r.cntr == 0)
    ensures var r' := Next(p, r, true, c);
            && (ArValid(r) && !(ReadEnable(r, c) && Last(r)) ==> ArValid(r') && Ar(r') == Ar(r))
            && r'.cntr == if !ReadEnable(r, c) then r.cntr else if Last(r) then 0 else r.cntr + 1
  {
  }

  lemma QueueStep(p: Params, s: System, c: Cycle)
    requires Valid(p) && Sized(c) && Whole(s) && Queue(s)
    ensures Queue(Step(p, s, c))
    ensures Step(p, s, c).ars[..Done(s.issues)] == s.ars[..Done(s.issues)]
    ensures ArValid(s.r) ==> Done(s.issues) < |s.ars| && Step(p, s, c).ars[Done(s.issues)] == Ar(s.r)
  {
    InoutBuffer.StepConserves(s.r.ar, ArCycle(s.r, c));
    var acc, del := InoutBuffer.Accepted(s.r.ar, ArCycle(s.r, c)), InoutBuffer.Delivered(s.r.ar, ArCycle(s.r, c));
    DoneStep(p, s, c);
    Cursor(p, s.r, c);
    W.QueueStep(s.ars, Done(s.issues), InoutBuffer.Stored(s.r.ar), acc, del,
                InoutBuffer.Stored(InoutBuffer.Next(s.r.ar, true, ArCycle(s.r, c))));
    W.PrefixKept(s.ars, acc, Done(s.issues));
    if ArValid(s.r) {
      HeadRequest(s);
    }
  }

  lemma BeatsNext(q: Request, n: nat)
    ensures Beats(q, n + 1) == Beats(q, n) + [Place(q.id, n == q.len, W.Region(q.addr), W.WordAddress(q.addr, n))]
  {
  }

  /** The places after one more beat of the burst at the head. */
  lemma PlacedIssue(p: Params, s: System, c: Cycle)
    requires Valid(p) && Sized(c) && Whole(s) && Queue(s) && Placed(s) && ReadEnable(s.r, c)
    ensures Map(PlaceOf, Step(p, s, c).issues) == AllBeats(s.ars[..Done(s.issues)]) + Beats(Ar(s.r), s.r.cntr + 1)
  {
    var i := IssueOf(p, s.r, c);
    MapPush(PlaceOf, s.issues, i);
    Regroup(AllBeats(s.ars[..Done(s.issues)]), Beats(Ar(s.r), s.r.cntr), [i.place]);
    BeatsNext(Ar(s.r), s.r.cntr);
  }

  lemma PlacedAt(s: System, q: Request, n: nat)
    requires Done(s.issues) <= |s.ars| && Map(PlaceOf, s.issues) == AllBeats(s.ars[..Done(s.issues)]) + Beats(q, n)
    requires s.r.cntr == n && (n == 0 || Ar(s.r) == q)
    ensures Placed(s)
  {
    if n == 0 {
      assert Beats(q, 0) == Beats(Ar(s.r), 0);
    }
  }

  lemma PlacedLast(p: Params, s: System, c: Cycle)
    requires Valid(p) && Sized(c) && Whole(s) && Queue(s) && Placed(s) && Queue(Step(p, s, c))
    requires Step(p, s, c).ars[..Done(s.issues)] == s.ars[..Done(s.issues)] && ReadEnable(s.r, c) && Last(s.r)
    requires Done(s.issues) < |s.ars| && Step(p, s, c).ars[Done(s.issues)] == Ar(s.r)
    ensures Placed(Step(p, s, c))
  {
    var s', done := Step(p, s, c), Done(s.issues);
    PlacedIssue(p, s, c);
    DoneStep(p, s, c);
    AllBeatsNext(s'.ars, done);
    assert AllBeats(s'.ars[..done + 1]) + Beats(Ar(s.r), 0) == AllBeats(s'.ars[..done + 1]);
    PlacedAt(s', Ar(s.r), 0);
  }

  lemma {:induction false} PlacedStep(p: Params, s: System, c: Cycle)
    requires Valid(p) && Sized(c) && Whole(s) && Queue(s) && Placed(s) && Queue(Step(p, s, c))
    requires Step(p, s, c).ars[..Done(s.issues)] == s.ars[..Done(s.issues)]
    requires ArValid(s.r) ==> Done(s.issues) < |s.ars| && Step(p, s, c).ars[Done(s.issues)] == Ar(s.r)
    ensures Placed(Step(p, s, c))
  {
    if ReadEnable(s.r, c) && Last(s.r) {
      PlacedLast(p, s, c);
    } else {
      DoneStep(p, s, c);
      Cursor(p, s.r, c);
      if ReadEnable(s.r, c) {
        PlacedIssue(p, s, c);
        PlacedAt(Step(p, s, c), Ar(s.r), s.r.cntr + 1);
      } else {
        assert s.issues + [] == s.issues;
        PlacedAt(Step(p, s, c), Ar(s.r), s.r.cntr);
      }
    }
  }

  lemma SinceNext(issues: seq<Issue>, i: Issue)
    ensures Since(issues + [i]) == if i.place.last then 0 else Since(issues) + 1
  {
    assert (issues + [i])[..|issues|] == issues;
  }

  lemma IssuedForMore(ars: seq<Request>, issues: seq<Issue>, n: nat, ars': seq<Request>, issues': seq<Issue>)
    requires n < |issues| <= |issues'| && ars <= ars' && issues'[..|issues|] == issues && IssuedFor(ars, issues, n)
    ensures IssuedFor(ars', issues', n)
  {
    assert issues'[..n] == issues[..n];
  }

  lemma {:induction false} IssuedForHead(p: Params, s: System, c: Cycle)
    requires Valid(p) && Sized(c) && Whole(s) && Queue(s) && Located(s) && ReadEnable(s.r, c)
    ensures IssuedFor(Step(p, s, c).ars, Step(p, s, c).issues, |s.issues|)
  {
    var s' := Step(p, s, c);
    HeadRequest(s);
    assert s'.issues[..|s.issues|] == s.issues;
    W.DecodesBytes(Ar(s.r).addr, s.r.cntr);
  }

  lemma {:induction false} LocatedStep(p: Params, s: System, c: Cycle)
    requires Valid(p) && Sized(c) && Whole(s) && Queue(s) && Located(s) && Queue(Step(p, s, c))
    ensures Located(Step(p, s, c))
  {
    var s' := Step(p, s, c);
    Cursor(p, s.r, c);
    if ReadEnable(s.r, c) {
      SinceNext(s.issues, IssueOf(p, s.r, c));
    } else {
      assert s.issues + [] == s.issues;
    }
    forall n: nat | n < |s'.issues| ensures IssuedFor(s'.ars, s'.issues, n) {
      if n < |s.issues| {
        IssuedForMore(s.ars, s.issues, n, s'.ars, s'.issues);
      } else {
        IssuedForHead(p, s, c);
      }
    }
  }

  lemma GivenStep(p: Params, s: System, c: Cycle)
    requires Valid(p) && Sized(c) && Whole(s) && Given(s)
    ensures Given(Step(p, s, c))
  {
    if ReadEnable(s.r, c) {
      MapPush(HeadOf, s.issues, IssueOf(p, s.r, c));
    } else {
      assert s.issues + [] == s.issues;
    }
  }

  /** If at most one stream port is ready, at most that one makes a handshake. */
  lemma {:induction false} OneHandshake(tready: seq<bool>, c: Cycle, n: nat, port: int)
    requires Ports(c) && n <= HUB_SIZE == |tready|
    requires forall j :: 0 <= j < HUB_SIZE ==> (tready[j] <==> j == port)
    ensures Handshakes(tready, c, n) == if 0 <= port < n && c.tvalid[port] then [(port, c.tdata[port])] else []
  {
    if n > 0 {
      OneHandshake(tready, c, n - 1, port);
      assert tready[n - 1] <==> n - 1 == port;
    }
  }

  /** The handshakes of a clock are those of the beat issued in it. */
  lemma {:induction false} HandshakesOfIssue(p: Params, r: Regs, c: Cycle)
    requires Valid(p) && Sized(c)
    ensures Handshakes(StreamReady(r, c), c, HUB_SIZE) == if ReadEnable(r, c) then PopOf(IssueOf(p, r, c)) else []
  {
    OneHandshake(StreamReady(r, c), c, HUB_SIZE, if ReadEnable(r, c) then ReadRegion(r) - 2 else -1);
  }

  lemma {:induction false} PoppedStep(p: Params, s: System, c: Cycle)
    requires Valid(p) && Sized(c) && Whole(s) && Popped(s)
    ensures Popped(Step(p, s, c))
  {
    HandshakesOfIssue(p, s.r, c);
    if ReadEnable(s.r, c) {
      var i := IssueOf(p, s.r, c);
      MapPush(PopOf, s.issues, i);
      FlattenPush(Map(PopOf, s.issues), PopOf(i));
    } else {
      assert s.issues + [] == s.issues;
    }
  }

  lemma InvStep(p: Params, s: System, c: Cycle)
    requires Valid(p) && Sized(c) && Inv(s)
    ensures Inv(Step(p, s, c))
  {
    QueueStep(p, s, c);
    PlacedStep(p, s, c);
    LocatedStep(p, s, c);
    GivenStep(p, s, c);
    PoppedStep(p, s, c);
  }

  lemma {:induction false} RunInv(p: Params, s0: System, cycles: seq<Cycle>)
    requires Valid(p) && AllSized(cycles) && Inv(s0)
    ensures Inv(Run(p, s0, cycles))
  {
    if cycles != [] {
      RunInv(p, s0, cycles[..|cycles| - 1]);
      InvStep(p, Run(p, s0, cycles[..|cycles| - 1]), cycles[|cycles| - 1]);
    }
  }

  lemma InitialInv(s: System)
    requires Initial(s)
    ensures Inv(s)
  {
  }

  lemma {:induction false} AllBeatsPrefix(ars: seq<Request>, n: nat)
    requires n <= |ars|
    ensures AllBeats(ars[..n]) <= AllBeats(ars)
    ensures n < |ars| ==> AllBeats(ars[..n]) + Beats(ars[n], ars[n].len + 1) <= AllBeats(ars)
    decreases |ars| - n
  {
    if n < |ars| {
      AllBeatsPrefix(ars, n + 1);
      AllBeatsNext(ars, n);
    } else {
      assert ars[..n] == ars;
    }
  }

  /** What has been issued are the first of all the beats asked for, and nothing is
      left to issue only if all have been. */
  lemma IssuedSoFar(s: System)
    requires Inv(s)
    ensures Map(PlaceOf, s.issues) <= AllBeats(s.ars)
    ensures ArValid(s.r) <==> |s.issues| < |AllBeats(s.ars)|
  {
    var done := Done(s.issues);
    AllBeatsPrefix(s.ars, done);
    if ArValid(s.r) {
      HeadRequest(s);
      assert Beats(Ar(s.r), s.r.cntr) <= Beats(Ar(s.r), Ar(s.r).len + 1);
    } else {
      assert |s.ars[done..]| == |s.ars| - done;
      assert s.ars[..done] == s.ars;
    }
  }

  ghost predicate InOrder(s: System) {
    && Map(PlaceOf, s.issues) <= AllBeats(s.ars)
    && (forall n: nat :: n < |s.issues| ==> IssuedFor(s.ars, s.issues, n))
    && s.heads <= Map(HeadOf, s.issues) && |s.issues| <= |s.heads| + 1
    && s.pops == Flatten(Map(PopOf, s.issues))
  }

  lemma InvInOrder(s: System)
    requires Inv(s)
    ensures InOrder(s)
  {
    IssuedSoFar(s);
  }

  /** In every run from reset: the beats issued are those asked for, one more than the
      length for each request, in order and at their places in bytes; the responses carry their ids and are marked
      last exactly on the last beat of a burst; and the words taken from the stream
      ports are one for each beat issued to a port that had a word, and that word. */
  lemma AnswersInOrder(p: Params, s0: System, cycles: seq<Cycle>)
    requires Valid(p) && AllSized(cycles) && Initial(s0)
    ensures InOrder(Run(p, s0, cycles))
  {
    InitialInv(s0);
    RunInv(p, s0, cycles);
    InvInOrder(Run(p, s0, cycles));
  }

  /** A burst begins at the word of its address; its beats, sixteen at most, read
      consecutive words of one region. */
  ghost predicate ReadsOn(ars: seq<Request>, issues: seq<Issue>, n: nat) {
    n < |issues| ==>
      && (n == 0 || issues[n - 1].place.last ==>
            && Done(issues[..n]) < |ars|
            && issues[n].place.addr == ars[Done(issues[..n])].addr / 4 % 0x40_0000)
      && (n > 0 && !issues[n - 1].place.last ==>
            && issues[n].place.region == issues[n - 1].place.region
            && issues[n].place.addr ==
               if issues[n - 1].place.addr == 0x3f_ffff then 0 else issues[n - 1].place.addr + 1)
  }

  lemma {:induction false} ReadsOnFrom(ars: seq<Request>, issues: seq<Issue>, n: nat)
    requires forall k: nat :: k < |issues| ==> IssuedFor(ars, issues, k)
    ensures ReadsOn(ars, issues, n)
  {
    if n < |issues| {
      assert IssuedFor(ars, issues, n);
      var a, at := ars[Done(issues[..n])].addr, issues[n].place;
      if n == 0 || issues[n - 1].place.last {
        W.BeginsInBytes(a, at.region, at.addr);
      } else {
        var before := issues[n - 1].place;
        assert IssuedFor(ars, issues, n - 1);
        SinceNext(issues[..n - 1], issues[n - 1]);
        DoneNext(issues[..n - 1], issues[n - 1]);
        assert issues[..n - 1] + [issues[n - 1]] == issues[..n];
        W.NextInBytes(a, Since(issues[..n - 1]), before.region, before.addr, at.region, at.addr);
      }
    }
  }

  /** In every run from reset. */
  lemma {:induction false} ConsecutiveReads(p: Params, s0: System, cycles: seq<Cycle>, n: nat)
    requires Valid(p) && AllSized(cycles) && Initial(s0)
    ensures ReadsOn(Run(p, s0, cycles).ars, Run(p, s0, cycles).issues, n)
  {
    AnswersInOrder(p, s0, cycles);
    ReadsOnFrom(Run(p, s0, cycles).ars, Run(p, s0, cycles).issues, n);
  }

  /** Regions 2 to 7 are the six stream ports and BRAMs: a beat issued to one whose
      stream has a word takes this word, and no other beat takes any. */
  lemma {:induction false} TakesStreamWord(p: Params, s: System, c: Cycle)
    requires Valid(p) && Sized(c) && Whole(s)
    ensures var s', region := Step(p, s, c), ReadRegion(s.r);
            s'.pops == s.pops + if ReadEnable(s.r, c) && 2 <= region < 8 && c.tvalid[region - 2]
                                then [(region - 2, c.tdata[region - 2])] else []
  {
    HandshakesOfIssue(p, s.r, c);
  }

  /** No write beat is applied in a cycle in which a beat is issued to a BRAM, and none
      to a BRAM whose output a waiting response shows. */
  ghost predicate Undisturbed(s: System, c: Cycle)
    requires Sized(c) && Whole(s)
  {
    && (ReadEnable(s.r, c) && FromBram(s.r, c) ==> !c.we)
    && (s.r.r.valid && !c.rready ==> forall j :: 0 <= j < HUB_SIZE && s.r.r.data.bsel[j] ==> !WriteSelected(c, j))
  }

  ghost predicate NeverDisturbed(p: Params, s0: System, cycles: seq<Cycle>)
    requires Valid(p) && AllSized(cycles) && Whole(s0)
  {
    cycles != [] ==>
      && NeverDisturbed(p, s0, cycles[..|cycles| - 1])
      && Undisturbed(Run(p, s0, cycles[..|cycles| - 1]), cycles[|cycles| - 1])
  }

  lemma {:induction false} GatheredNone(bsel: seq<bool>, bram: seq<Word>)
    requires |bsel| == |bram| && forall j :: 0 <= j < |bsel| ==> !bsel[j]
    ensures Gathered(bsel, bram) == ZERO
  {
    if bsel != [] {
      GatheredNone(bsel[..|bsel| - 1], bram[..|bsel| - 1]);
    }
  }

  lemma {:induction false} GatheredOne(bsel: seq<bool>, bram: seq<Word>, k: nat)
    requires |bsel| == |bram| && k < |bsel| && forall j :: 0 <= j < |bsel| ==> (bsel[j] <==> j == k)
    ensures Gathered(bsel, bram) == bram[k]
  {
    var n := |bsel| - 1;
    if k == n {
      GatheredNone(bsel[..n], bram[..n]);
      OrZero(bram[k]);
    } else {
      GatheredOne(bsel[..n], bram[..n], k);
      OrZero(bram[k]);
    }
  }

  /** Outputs that are not selected do not matter. */
  lemma {:induction false} GatheredSame(bsel: seq<bool>, a: seq<Word>, b: seq<Word>)
    requires |bsel| == |a| == |b| && forall j :: 0 <= j < |bsel| && bsel[j] ==> a[j] == b[j]
    ensures Gathered(bsel, a) == Gathered(bsel, b)
  {
    if bsel != [] {
      GatheredSame(bsel[..|bsel| - 1], a[..|bsel| - 1], b[..|bsel| - 1]);
    }
  }

  /** What a response will show that is put into the output buffer in this cycle. */
  lemma Captured(p: Params, s: System, c: Cycle)
    requires Valid(p) && Sized(c) && Whole(s) && ReadEnable(s.r, c)
    ensures var s' := Step(p, s, c);
            && s'.r.r.valid
            && ReadData(s'.r.r.data, s'.bram) ==
               if !FromBram(s.r, c) then MuxData(p, s.r, c)
               else if WriteSelected(c, ReadRegion(s.r) - 2) then c.stale[ReadRegion(s.r) - 2]
               else c.mems[ReadRegion(s.r) - 2][BramAddress(s.r, c)]
  {
    var s' := Step(p, s, c);
    var bsel := BramSelect(s.r, c);
    if FromBram(s.r, c) {
      GatheredOne(bsel, s'.bram, ReadRegion(s.r) - 2);
      OrZero(s'.bram[ReadRegion(s.r) - 2]);
    } else {
      GatheredNone(bsel, s'.bram);
      OrZero(MuxData(p, s.r, c));
    }
  }

  /** The data given and the word shown by a waiting response are what was meant. */
  ghost predicate Correct(s: System)
    requires Whole(s)
  {
    s.data + (if s.r.r.valid then [ReadData(s.r.r.data, s.bram)] else []) == Map(WordOf, s.issues)
  }

  lemma CorrectStep(p: Params, s: System, c: Cycle)
    requires Valid(p) && Sized(c) && Whole(s) && Correct(s) && Undisturbed(s, c)
    ensures Correct(Step(p, s, c))
  {
    var s' := Step(p, s, c);
    if ReadEnable(s.r, c) {
      Captured(p, s, c);
      MapPush(WordOf, s.issues, IssueOf(p, s.r, c));
    } else {
      assert s.issues + [] == s.issues;
      if s.r.r.valid && !c.rready {
        GatheredSame(s.r.r.data.bsel, s.bram, s'.bram);
      }
    }
  }

  lemma {:induction false} RunCorrect(p: Params, s0: System, cycles: seq<Cycle>)
    requires Valid(p) && AllSized(cycles) && Initial(s0) && NeverDisturbed(p, s0, cycles)
    ensures Correct(Run(p, s0, cycles))
  {
    if cycles != [] {
      RunCorrect(p, s0, cycles[..|cycles| - 1]);
      CorrectStep(p, Run(p, s0, cycles[..|cycles| - 1]), cycles[|cycles| - 1]);
    }
  }

  lemma WordsGiven(s: System)
    requires Whole(s) && Correct(s)
    ensures s.data <= Map(WordOf, s.issues) && |s.issues| <= |s.data| + 1
    ensures forall n :: 0 <= n < |s.data| ==> s.data[n] == s.issues[n].word
  {
    forall n | 0 <= n < |s.data| ensures s.data[n] == s.issues[n].word {
      MapAt(WordOf, s.issues, n);
    }
  }

  /** The n-th word given is the one meant for the n-th beat, however long the master
      lets a response wait. */
  lemma {:induction false} DataStaysAligned(p: Params, s0: System, cycles: seq<Cycle>)
    requires Valid(p) && AllSized(cycles) && Initial(s0) && NeverDisturbed(p, s0, cycles)
    ensures var s := Run(p, s0, cycles);
            && s.data <= Map(WordOf, s.issues) && |s.issues| <= |s.data| + 1
            && forall n :: 0 <= n < |s.data| ==> s.data[n] == s.issues[n].word
  {
    RunCorrect(p, s0, cycles);
    WordsGiven(Run(p, s0, cycles));
  }

  /** A write beat to another region takes the address lines of all BRAMs: a beat
      issued in that cycle reads at the address of the write, and is correct exactly
      if the same word happens to be there. */
  lemma WriteTakesAddress(p: Params, s: System, c: Cycle)
    requires Valid(p) && Sized(c) && Whole(s) && ReadEnable(s.r, c) && FromBram(s.r, c)
    requires c.we && c.write.region != ReadRegion(s.r)
    ensures var s', mem := Step(p, s, c), c.mems[ReadRegion(s.r) - 2];
            && ReadData(s'.r.r.data, s'.bram) == mem[c.write.addr]
            && (ReadData(s'.r.r.data, s'.bram) == Wanted(p, s.r, c)
                <==> mem[c.write.addr] == mem[ReadAddress(s.r)])
  {
    Captured(p, s, c);
  }

  // ---------- Exactly when the data are right ----------

  /** A response that shows a BRAM shows one, and nothing else. */
  ghost predicate OneSelected(h: Held) {
    && |h.bsel| == HUB_SIZE
    && (forall i, j :: 0 <= i < HUB_SIZE && 0 <= j < HUB_SIZE && h.bsel[i] && h.bsel[j] ==> i == j)
    && (forall j :: 0 <= j < HUB_SIZE && h.bsel[j] ==> h.data == ZERO)
  }

  ghost predicate Showing(s: System) { s.r.r.valid ==> OneSelected(s.r.r.data) }

  lemma ShowingStep(p: Params, s: System, c: Cycle)
    requires Valid(p) && Sized(c) && Whole(s) && Showing(s)
    ensures Showing(Step(p, s, c))
  {
    assert forall j :: 0 <= j < HUB_SIZE && BramSelect(s.r, c)[j] ==> ReadRegion(s.r) == j + 2 && !c.tvalid[j];
  }

  /** A beat issued to a BRAM in the clock of a write beat is shown the word it wants,
      and a write into a BRAM that a waiting response shows leaves its output as it
      was. Without write beats there is nothing to ask. */
  ghost predicate Harmless(s: System, c: Cycle)
    requires Sized(c) && Whole(s)
  {
    && (ReadEnable(s.r, c) && FromBram(s.r, c) && c.we ==>
          var j := ReadRegion(s.r) - 2;
          (if c.write.region == j + 2 then c.stale[j] else c.mems[j][c.write.addr]) == c.mems[j][ReadAddress(s.r)])
    && (s.r.r.valid && !c.rready ==>
          forall j :: 0 <= j < HUB_SIZE && s.r.r.data.bsel[j] && WriteSelected(c, j) ==> c.stale[j] == s.bram[j])
  }

  lemma UndisturbedIsHarmless(s: System, c: Cycle)
    requires Sized(c) && Whole(s) && Undisturbed(s, c)
    ensures Harmless(s, c)
  {
  }

  lemma {:induction false} ShownBy(h: Held, bram: seq<Word>, j: nat)
    requires OneSelected(h) && |bram| == HUB_SIZE && j < HUB_SIZE && h.bsel[j]
    ensures ReadData(h, bram) == bram[j]
  {
    GatheredOne(h.bsel, bram, j);
    OrZero(bram[j]);
  }

  /** A response that waits shows the same word if and only if its BRAM does. */
  lemma {:induction false} WaitingShows(s: System, c: Cycle)
    requires Sized(c) && Whole(s) && s.r.r.valid && OneSelected(s.r.r.data) && !RReady(s.r, c)
    ensures ReadData(s.r.r.data, NextBram(s.r, c, s.bram)) == ReadData(s.r.r.data, s.bram)
            <==> forall j :: 0 <= j < HUB_SIZE && s.r.r.data.bsel[j] && WriteSelected(c, j) ==> c.stale[j] == s.bram[j]
  {
    var h, bram' := s.r.r.data, NextBram(s.r, c, s.bram);
    if j :| 0 <= j < HUB_SIZE && h.bsel[j] {
      ShownBy(h, s.bram, j);
      ShownBy(h, bram', j);
    } else {
      GatheredSame(h.bsel, s.bram, bram');
    }
  }

  lemma LastSame<T>(xs: seq<T>, a: T, b: T)
    ensures xs + [a] == xs + [b] <==> a == b
  {
    assert (xs + [a])[|xs|] == a && (xs + [b])[|xs|] == b;
  }

  lemma {:induction false} IssueExactly(p: Params, s: System, c: Cycle)
    requires Valid(p) && Sized(c) && Whole(s) && Correct(s) && ReadEnable(s.r, c)
    ensures Correct(Step(p, s, c)) <==> Harmless(s, c)
  {
    var s' := Step(p, s, c);
    Captured(p, s, c);
    MapPush(WordOf, s.issues, IssueOf(p, s.r, c));
    LastSame(Map(WordOf, s.issues), ReadData(s'.r.r.data, s'.bram), Wanted(p, s.r, c));
  }

  lemma {:induction false} WaitExactly(p: Params, s: System, c: Cycle)
    requires Valid(p) && Sized(c) && Whole(s) && Showing(s) && Correct(s) && !ReadEnable(s.r, c)
    ensures Correct(Step(p, s, c)) <==> Harmless(s, c)
  {
    var s' := Step(p, s, c);
    assert s.issues + [] == s.issues;
    if s.r.r.valid && !c.rready {
      WaitingShows(s, c);
      LastSame(s.data, ReadData(s.r.r.data, s'.bram), ReadData(s.r.r.data, s.bram));
    }
  }

  /** The data are right at every moment of a run. */
  ghost predicate AlwaysCorrect(p: Params, s0: System, cycles: seq<Cycle>)
    requires Valid(p) && AllSized(cycles) && Whole(s0)
  {
    Correct(Run(p, s0, cycles)) && (cycles != [] ==> AlwaysCorrect(p, s0, cycles[..|cycles| - 1]))
  }

  ghost predicate NeverHarmed(p: Params, s0: System, cycles: seq<Cycle>)
    requires Valid(p) && AllSized(cycles) && Whole(s0)
  {
    cycles != [] ==>
      && NeverHarmed(p, s0, cycles[..|cycles| - 1])
      && Harmless(Run(p, s0, cycles[..|cycles| - 1]), cycles[|cycles| - 1])
  }

  lemma {:induction false} CorrectStepExactly(p: Params, s: System, c: Cycle)
    requires Valid(p) && Sized(c) && Whole(s) && Showing(s) && Correct(s)
    ensures Correct(Step(p, s, c)) <==> Harmless(s, c)
    ensures Showing(Step(p, s, c))
  {
    ShowingStep(p, s, c);
    if ReadEnable(s.r, c) {
      IssueExactly(p, s, c);
    } else {
      WaitExactly(p, s, c);
    }
  }

  lemma {:induction false} RunShowing(p: Params, s0: System, cycles: seq<Cycle>)
    requires Valid(p) && AllSized(cycles) && Initial(s0)
    ensures Showing(Run(p, s0, cycles))
  {
    if cycles != [] {
      RunShowing(p, s0, cycles[..|cycles| - 1]);
      ShowingStep(p, Run(p, s0, cycles[..|cycles| - 1]), cycles[|cycles| - 1]);
    }
  }

  /** The condition on the write beats is exact: the data are right throughout a run if
      and only if every clock of it was harmless. */
  lemma {:induction false} AlignedExactly(p: Params, s0: System, cycles: seq<Cycle>)
    requires Valid(p) && AllSized(cycles) && Initial(s0)
    ensures AlwaysCorrect(p, s0, cycles) <==> NeverHarmed(p, s0, cycles)
  {
    if cycles != [] {
      var before := cycles[..|cycles| - 1];
      AlignedExactly(p, s0, before);
      RunShowing(p, s0, before);
      if AlwaysCorrect(p, s0, before) {
        CorrectStepExactly(p, Run(p, s0, before), cycles[|cycles| - 1]);
      }
    }
  }

  /** One clock after a reset the request offered in it waits in the second stage. */
  lemma FirstClock(p: Params, s: System, c: Cycle)
    requires Valid(p) && Sized(c) && Initial(s)
    ensures var s' := Step(p, s, c);
            && ArValid(s'.r) == c.arvalid && (c.arvalid ==> Ar(s'.r) == c.ar) && s'.r.cntr == 0
            && !s'.r.r.valid && Showing(s') && Correct(s') && !ReadEnable(s.r, c)
  {
  }

  // ---------- Progress ----------

  lemma IssuesWhenDue(p: Params, s: System, c: Cycle)
    requires Valid(p) && Sized(c) && Inv(s) && c.rready
    ensures var s' := Step(p, s, c);
            && |s'.issues| >= Min(|AllBeats(s.ars)|, |s.issues| + 1)
            && s.ars <= s'.ars && |AllBeats(s.ars)| <= |AllBeats(s'.ars)|
  {
    IssuedSoFar(s);
    var s' := Step(p, s, c);
    assert s.ars == s'.ars[..|s.ars|];
    AllBeatsPrefix(s'.ars, |s.ars|);
  }

  /** While the master takes responses a beat is issued in every cycle in which one is
      due: after n cycles n beats, or all that had been asked for at first. */
  lemma {:induction false} OneBeatPerCycle(p: Params, s0: System, cycles: seq<Cycle>)
    requires Valid(p) && AllSized(cycles) && Inv(s0)
    requires forall i :: 0 <= i < |cycles| ==> cycles[i].rready
    ensures IssuedBy(Run(p, s0, cycles), |AllBeats(s0.ars)|, |s0.issues| + |cycles|)
  {
    if cycles == [] {
      IssuedSoFar(s0);
    } else {
      var before := cycles[..|cycles| - 1];
      OneBeatPerCycle(p, s0, before);
      RunInv(p, s0, before);
      IssuedNext(p, Run(p, s0, before), cycles[|cycles| - 1], |AllBeats(s0.ars)|, |s0.issues| + |before|);
    }
  }

  /** So many beats are asked for, and all of them or the first n issued. */
  ghost predicate IssuedBy(s: System, asked: nat, n: nat) {
    |s.issues| >= Min(asked, n) && asked <= |AllBeats(s.ars)|
  }

  lemma {:induction false} IssuedNext(p: Params, s: System, c: Cycle, asked: nat, n: nat)
    requires Valid(p) && Sized(c) && Inv(s) && c.rready && IssuedBy(s, asked, n)
    ensures IssuedBy(Step(p, s, c), asked, n + 1)
  {
    IssuesWhenDue(p, s, c);
  }

  /** So every request is answered in full: one cycle later all these beats have been
      given to the master. */
  lemma {:induction false} EveryRequestAnswered(p: Params, s0: System, cycles: seq<Cycle>, c: Cycle)
    requires Valid(p) && AllSized(cycles) && Sized(c) && Inv(s0)
    requires c.rready && forall i :: 0 <= i < |cycles| ==> cycles[i].rready
    requires |s0.issues| + |cycles| >= |AllBeats(s0.ars)|
    ensures |Step(p, Run(p, s0, cycles), c).heads| >= |AllBeats(s0.ars)|
  {
    OneBeatPerCycle(p, s0, cycles);
    RunInv(p, s0, cycles);
  }
}
