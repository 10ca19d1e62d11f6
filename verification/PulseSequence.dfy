/** projects/pulsed_nmr/server/pulsed-nmr.c, command 10: the loop that drains the
    receive FIFO into the socket and fills the transmit FIFO with the pulse words. */
module PulseSequence {
  import opened Arithmetic

  /** What the loop reads from the hardware, by iteration: the two readings of the
      receive counter, the result of send, and the transmit counter, read once for
      every word it may write; and the 16-byte samples in the order in which they
      leave the receive FIFO after it has been cleared. */
  datatype Environment<!S> = Environment(
    sample: nat -> S,
    rxFirst: nat -> nat,
    rxSecond: nat -> nat,
    sendOk: nat -> bool,
    txCount: (nat, nat) -> nat)

  ghost predicate FillsAfter<S>(env: Environment<S>, k: nat) {
    exists j: nat :: j >= k && env.rxSecond(j) >= 8192
  }

  /** The receive FIFO keeps filling: time and again it holds 2048 samples. */
  ghost predicate KeepsFilling<S>(env: Environment<S>) { forall k: nat :: FillsAfter(env, k) }

  /** While TX is stopped nothing leaves the transmit FIFO: in the first iteration the
      counter shows what has been written. */
  ghost predicate CountsWrites<S>(env: Environment<S>) { forall p: nat :: env.txCount(0, p) == p }

  /** A chunk of samples sent in one iteration. */
  datatype Chunk = Chunk(iteration: nat, first: nat, length: nat)

  function Samples<S>(env: Environment<S>, n: nat): seq<S> { seq(n, i requires 0 <= i < n => env.sample(i)) }

  /** The chunks cut the first n samples into consecutive pieces of at most 32768
      bytes, none longer than what the counter had just reported. */
  ghost predicate Cut<S>(env: Environment<S>, chunks: seq<Chunk>, n: nat) {
    if chunks == [] then n == 0
    else
      var c := chunks[|chunks| - 1];
      && c.first + c.length == n
      && 16 * c.length <= 32768
      && 4 * c.length <= env.rxSecond(c.iteration)
      && Cut(env, chunks[..|chunks| - 1], c.first)
  }

  lemma CutMore<S>(env: Environment<S>, chunks: seq<Chunk>, n: nat, c: Chunk)
    requires Cut(env, chunks, n) && c.first == n && c.length <= 2048 && 4 * c.length <= env.rxSecond(c.iteration)
    ensures Cut(env, chunks + [c], n + c.length)
  {
    assert (chunks + [c])[..|chunks|] == chunks;
  }

  /** In iteration k every reading of the counter at these words shows room. */
  ghost predicate RoomFor<S>(env: Environment<S>, k: nat, from: nat, to: nat) {
    forall p :: from <= p < to ==> env.txCount(k, p) < 16384
  }

  /** The inner loop: pulse words go out in order until the counter says that the
      FIFO is full or the table is exhausted. */
  method FillTx<S>(env: Environment<S>, k: nat, pulses: seq<nat>, position0: nat, tx0: seq<nat>)
    returns (position: nat, tx: seq<nat>)
    requires position0 <= |pulses| && tx0 == pulses[..position0]
    ensures position0 <= position <= |pulses| && tx == pulses[..position]
    ensures position < |pulses| ==> env.txCount(k, position) >= 16384
    ensures RoomFor(env, k, position0, position)
  {
    position, tx := position0, tx0;
    while position < |pulses| && env.txCount(k, position) < 16384
      invariant position0 <= position <= |pulses| && tx == pulses[..position]
      invariant RoomFor(env, k, position0, position)
    {
      tx := tx + [pulses[position]];
      position := position + 1;
    }
  }

  /** The samples sent so far are the first ones, cut into proper chunks. */
  ghost predicate Sent<S>(env: Environment<S>, data: nat, sent: seq<S>, chunks: seq<Chunk>) {
    |sent| <= data && sent == Samples(env, |sent|) && Cut(env, chunks, |sent|)
  }

  /** The first half of an iteration: a chunk of at most n samples is copied from the
      receive FIFO and sent, if the counter shows that it is there. */
  method DrainRx<S>(env: Environment<S>, k: nat, data: nat, n0: nat, sent0: seq<S>, ghost chunks0: seq<Chunk>)
    returns (n: nat, sent: seq<S>, ghost chunks: seq<Chunk>, ok: bool)
    requires n0 <= 2048 && Sent(env, data, sent0, chunks0) && |sent0| < data
    ensures n <= 2048 && Sent(env, data, sent, chunks) && |sent0| <= |sent|
    ensures n == if n0 > data - |sent0| then data - |sent0| else n0
    ensures ok <==> env.rxSecond(k) < 4 * n || env.sendOk(k)
    ensures |sent| == |sent0| + if env.rxSecond(k) >= 4 * n && env.sendOk(k) then n else 0
    ensures ok && env.rxSecond(k) >= 8192 && n0 > 0 ==> |sent| > |sent0|
    ensures n0 > 0 ==> n > 0
  {
    n, sent, chunks, ok := n0, sent0, chunks0, true;
    var counter := |sent0|;
    if n > data - counter {
      n := data - counter;
    }
    if env.rxFirst(k) < n * 4 {
      // sleeps for half a millisecond
    }
    if env.rxSecond(k) >= n * 4 {
      var buffer := seq(n, i requires 0 <= i < n => env.sample(counter + i));
      if !env.sendOk(k) {
        ok := false;
        return;
      }
      CutMore(env, chunks, counter, Chunk(k, counter, n));
      chunks := chunks + [Chunk(k, counter, n)];
      sent := sent + buffer;
    }
  }

  /** How much of the table is in the transmit FIFO when RX and TX start. */
  ghost predicate FilledAtStart<S>(env: Environment<S>, pulses: seq<nat>, txAtStart: nat) {
    CountsWrites(env) ==> txAtStart == if |pulses| <= 4 * 4096 then |pulses| else 16384
  }

  lemma FirstFill<S>(env: Environment<S>, pulses: seq<nat>, position: nat)
    requires position <= |pulses|
    requires position < |pulses| ==> env.txCount(0, position) >= 16384
    requires RoomFor(env, 0, 0, position)
    ensures FilledAtStart(env, pulses, position)
  {
    if CountsWrites(env) {
      assert position < |pulses| ==> env.txCount(0, position) == position;
      if position > 0 {
        assert env.txCount(0, position - 1) == position - 1;
      }
    }
  }

  /** The samples sent after k iterations, when no send fails: in each one 2048, or all
      that are still asked for, if the counter shows them. */
  function SamplesAfter<S>(env: Environment<S>, data: nat, k: nat): (n: nat)
    ensures n <= data
  {
    if k == 0 then 0
    else
      var before := SamplesAfter(env, data, k - 1);
      var n := Min(2048, data - before);
      if env.rxSecond(k - 1) >= 4 * n then before + n else before
  }

  /** The words written when iteration k has filled the FIFO: it has gone on from the
      iteration before, never past a reading of 16384 or more, and stopped only at
      such a reading or the end of the table. */
  ghost predicate FillsOne<S>(env: Environment<S>, size: nat, fills: seq<nat>, k: nat) {
    k < |fills| ==>
      && Before(fills, k) <= fills[k] <= size
      && (fills[k] < size ==> env.txCount(k, fills[k]) >= 16384)
      && RoomFor(env, k, Before(fills, k), fills[k])
  }

  function Before(fills: seq<nat>, k: nat): nat
    requires k <= |fills|
  {
    if k == 0 then 0 else fills[k - 1]
  }

  ghost predicate Fills<S>(env: Environment<S>, size: nat, fills: seq<nat>) {
    forall k: nat :: k < |fills| ==> FillsOne(env, size, fills, k)
  }

  /** The words written in the end. */
  function Written(fills: seq<nat>): nat { Before(fills, |fills|) }

  lemma FillsMore<S>(env: Environment<S>, size: nat, fills: seq<nat>, position: nat)
    requires Fills(env, size, fills) && Written(fills) <= position <= size
    requires position < size ==> env.txCount(|fills|, position) >= 16384
    requires RoomFor(env, |fills|, Written(fills), position)
    ensures Fills(env, size, fills + [position])
  {
    forall k: nat | k < |fills| + 1 ensures FillsOne(env, size, fills + [position], k) {
      if k < |fills| {
        assert FillsOne(env, size, fills, k);
      }
    }
  }

  /** So many iterations were all needed. */
  ghost predicate Needed<S>(env: Environment<S>, data: nat, iterations: nat) {
    forall k: nat :: k < iterations ==> SamplesAfter(env, data, k) < data
  }

  /** The chunk size: 2048, or what is left if it has once been less. */
  predicate Sizes(n: nat, left: nat) { 0 < n <= 2048 && (n == 2048 || n == left || left == 0) }

  lemma SamplesNext<S>(env: Environment<S>, data: nat, k: nat, n0: nat, n: nat, counter: nat)
    requires SamplesAfter(env, data, k) < data && Sizes(n0, data - SamplesAfter(env, data, k))
    requires n == Min(n0, data - SamplesAfter(env, data, k))
    requires counter == SamplesAfter(env, data, k) + if env.rxSecond(k) >= 4 * n then n else 0
    ensures counter == SamplesAfter(env, data, k + 1) && Sizes(n, data - counter)
    ensures Needed(env, data, k) ==> Needed(env, data, k + 1)
  {
  }

  /** The words written so far and the fills that wrote them. */
  ghost predicate Filling<S>(env: Environment<S>, pulses: seq<nat>, fills: seq<nat>, position: nat, tx: seq<nat>) {
    && position == Written(fills) <= |pulses| && tx == pulses[..position] && Fills(env, |pulses|, fills)
    && (fills != [] ==> FilledAtStart(env, pulses, fills[0]))
  }

  lemma FillingNext<S>(env: Environment<S>, pulses: seq<nat>, fills: seq<nat>, position0: nat, tx0: seq<nat>,
        position: nat, tx: seq<nat>)
    requires Filling(env, pulses, fills, position0, tx0)
    requires position0 <= position <= |pulses| && tx == pulses[..position]
    requires position < |pulses| ==> env.txCount(|fills|, position) >= 16384
    requires RoomFor(env, |fills|, position0, position)
    ensures Filling(env, pulses, fills + [position], position, tx)
  {
    FillsMore(env, |pulses|, fills, position);
    if fills == [] {
      FirstFill(env, pulses, position);
    }
  }

  /** The samples sent so far, after k iterations that were all needed. */
  ghost predicate Sending<S>(env: Environment<S>, data: nat, k: nat, n: nat, sent: seq<S>, chunks: seq<Chunk>) {
    && Sent(env, data, sent, chunks) && |sent| == SamplesAfter(env, data, k)
    && Sizes(n, data - |sent|) && Needed(env, data, k)
  }

  /** One iteration: samples to the socket, then words to the transmit FIFO. */
  method Iterate<S>(env: Environment<S>, k: nat, data: nat, pulses: seq<nat>, n0: nat, sent0: seq<S>, position0: nat,
                    tx0: seq<nat>, ghost chunks0: seq<Chunk>, ghost fills0: seq<nat>)
    returns (n: nat, sent: seq<S>, position: nat, tx: seq<nat>, ok: bool,
             ghost chunks: seq<Chunk>, ghost fills: seq<nat>)
    requires Sending(env, data, |fills0|, n0, sent0, chunks0) && |sent0| < data
    requires Filling(env, pulses, fills0, position0, tx0) && k == |fills0|
    ensures Sending(env, data, |fills|, n, sent, chunks) && Filling(env, pulses, fills, position, tx)
    ensures ok ==> |fills| == k + 1 && |sent| >= |sent0| && (env.rxSecond(k) >= 8192 ==> |sent| > |sent0|)
    ensures !ok ==> !env.sendOk(k) && fills == fills0
  {
    position, tx, fills := position0, tx0, fills0;
    n, sent, chunks, ok := DrainRx(env, k, data, n0, sent0, chunks0);
    if ok {
      SamplesNext(env, data, k, n0, n, |sent|);
      position, tx := FillTx(env, k, pulses, position0, tx0);
      FillingNext(env, pulses, fills0, position0, tx0, position, tx);
      fills := fills0 + [position];
    }
  }

  lemma NextFull<S>(env: Environment<S>, k: nat) returns (j: nat)
    requires KeepsFilling(env)
    ensures j >= k && env.rxSecond(j) >= 8192
  {
    assert FillsAfter(env, k);
    j :| j >= k && env.rxSecond(j) >= 8192;
  }

  /** The whole command. It ends, having sent exactly the first `data` samples in
      order unless a send fails, after as many iterations as that takes; in every one
      the transmit FIFO has been filled, and the words written are those of the table
      up to the last fill. */
  method StartSequence<S>(env: Environment<S>, data: nat, pulses: seq<nat>)
    returns (sent: seq<S>, ghost chunks: seq<Chunk>, tx: seq<nat>, ghost fills: seq<nat>, started: bool)
    requires KeepsFilling(env)
    ensures Sent(env, data, sent, chunks) && |sent| == SamplesAfter(env, data, |fills|)
    ensures (|sent| == data || !env.sendOk(|fills|)) && Needed(env, data, |fills|)
    ensures Fills(env, |pulses|, fills) && Written(fills) <= |pulses| && tx == pulses[..Written(fills)]
    ensures started <==> fills != []
    ensures started ==> FilledAtStart(env, pulses, fills[0])
  {
    var position, n, k := 0, 2048, 0;
    sent, chunks, tx, fills, started := [], [], [], [], false;
    ghost var target := NextFull(env, 0);
    while |sent| < data
      invariant Sending(env, data, |fills|, n, sent, chunks) && Filling(env, pulses, fills, position, tx)
      invariant k == |fills| && (started <==> fills != [])
      invariant target >= k && env.rxSecond(target) >= 8192
      decreases data - |sent|, target - k
    {
      var ok;
      n, sent, position, tx, ok, chunks, fills := Iterate(env, k, data, pulses, n, sent, position, tx, chunks, fills);
      if !ok {
        break;
      }
      started, k := true, k + 1;
      if target < k {
        target := NextFull(env, k);
      }
    }
  }

  // ---------- Tables above 4096 entries ----------

  /** What has been written only leaves the transmit FIFO. */
  ghost predicate Drains<S>(env: Environment<S>) {
    forall k: nat, p: nat :: env.txCount(k + 1, p) <= env.txCount(k, p)
  }

  lemma {:induction false} DrainsOn<S>(env: Environment<S>, k: nat, j: nat, p: nat)
    requires Drains(env) && k <= j
    ensures env.txCount(j, p) <= env.txCount(k, p)
  {
    if k < j {
      DrainsOn(env, k, j - 1, p);
      assert env.txCount(j - 1 + 1, p) <= env.txCount(j - 1, p);
    }
  }

  /** A word that has been written was written in some iteration, at a reading below. */
  lemma {:induction false} WrittenIn<S>(env: Environment<S>, size: nat, fills: seq<nat>, n: nat, p: nat)
    returns (k: nat)
    requires Fills(env, size, fills) && n <= |fills| && p < Before(fills, n)
    ensures k < n && env.txCount(k, p) < 16384
  {
    assert FillsOne(env, size, fills, n - 1);
    if p < Before(fills, n - 1) {
      k := WrittenIn(env, size, fills, n - 1, p);
    } else {
      k := n - 1;
    }
  }

  /** With a FIFO that drains the whole table is written if and only if the last
      iteration would have had room at every word. */
  lemma {:induction false} WritesAllExactly<S>(env: Environment<S>, size: nat, fills: seq<nat>)
    requires Drains(env) && Fills(env, size, fills) && fills != []
    ensures Written(fills) == size <==> RoomFor(env, |fills| - 1, 0, size)
  {
    var last := |fills| - 1;
    assert FillsOne(env, size, fills, last);
    if Written(fills) == size {
      forall p | 0 <= p < size ensures env.txCount(last, p) < 16384 {
        var k := WrittenIn(env, size, fills, |fills|, p);
        DrainsOn(env, k, last, p);
      }
    }
  }

  /** By every iteration the FIFO has room for so many more words. */
  ghost predicate KeepsDraining<S>(env: Environment<S>, rate: nat) {
    forall k: nat, p: nat :: p < (k + 1) * rate ==> env.txCount(k, p) < 16384
  }

  /** ... and then enough iterations write every table to its end. */
  lemma {:induction false} WritesAll<S>(env: Environment<S>, size: nat, fills: seq<nat>, rate: nat)
    requires KeepsDraining(env, rate) && Fills(env, size, fills) && |fills| * rate >= size && fills != []
    ensures Written(fills) == size
  {
    assert FillsOne(env, size, fills, |fills| - 1);
  }
}
