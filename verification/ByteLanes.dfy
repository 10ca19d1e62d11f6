/** 32-bit words as the four byte lanes that write strobes select. */
module ByteLanes {

  datatype Word = Word(b0: bv8, b1: bv8, b2: bv8, b3: bv8)

  datatype Strobe = Strobe(s0: bool, s1: bool, s2: bool, s3: bool)

  const NONE := Strobe(false, false, false, false)

  const ZERO := Word(0, 0, 0, 0)

  function Lane(w: Word, k: nat): bv8
    requires k < 4
  {
    if k == 0 then w.b0 else if k == 1 then w.b1 else if k == 2 then w.b2 else w.b3
  }

  function Selects(s: Strobe, k: nat): bool
    requires k < 4
  {
    if k == 0 then s.s0 else if k == 1 then s.s1 else if k == 2 then s.s2 else s.s3
  }

  /** The strobed lanes replaced. */
  function Merge(before: Word, strb: Strobe, data: Word): (w: Word)
    ensures forall k :: 0 <= k < 4 ==> Lane(w, k) == if Selects(strb, k) then Lane(data, k) else Lane(before, k)
  {
    Word(if strb.s0 then data.b0 else before.b0, if strb.s1 then data.b1 else before.b1,
         if strb.s2 then data.b2 else before.b2, if strb.s3 then data.b3 else before.b3)
  }

  function Or(a: Word, b: Word): Word { Word(a.b0 | b.b0, a.b1 | b.b1, a.b2 | b.b2, a.b3 | b.b3) }

  lemma OrZero(a: Word)
    ensures Or(a, ZERO) == Or(ZERO, a) == a
  {
  }

  /** One write beat: which of the 16 regions, the word address in it, and the data. */
  datatype Write = Write(region: nat, addr: nat, strb: Strobe, data: Word)

  /** Whether a beat writes lane k of the word with this index, in a region that
      decodes addresses modulo `span`. */
  predicate Hits(w: Write, region: nat, span: nat, index: nat, k: nat)
    requires span > 0 && k < 4
  {
    w.region == region && w.addr % span == index && Selects(w.strb, k)
  }

  /** A lane after a series of beats: the data of the last one that hits it. */
  function Latest(writes: seq<Write>, region: nat, span: nat, index: nat, k: nat, initial: bv8): bv8
    requires span > 0 && k < 4
  {
    var n := |writes|;
    if n == 0 then initial
    else if Hits(writes[n - 1], region, span, index, k) then Lane(writes[n - 1].data, k)
    else Latest(writes[..n - 1], region, span, index, k, initial)
  }

  /** The words of a region are what the beats, applied to the first contents, leave. */
  ghost predicate Holds(writes: seq<Write>, region: nat, span: nat, initial: seq<Word>, words: seq<Word>)
    requires span > 0
  {
    && |words| == |initial|
    && forall i, k :: 0 <= i < |words| && 0 <= k < 4 ==>
         Lane(words[i], k) == Latest(writes, region, span, i, k, Lane(initial[i], k))
  }

  /** One beat applied to the words of a region. */
  function Apply(words: seq<Word>, region: nat, span: nat, w: Write): (words': seq<Word>)
    requires span > 0
    ensures |words'| == |words|
  {
    if w.region == region && w.addr % span < |words|
    then words[w.addr % span := Merge(words[w.addr % span], w.strb, w.data)] else words
  }

  lemma HoldsNext(writes: seq<Write>, region: nat, span: nat, initial: seq<Word>, words: seq<Word>, w: Write)
    requires span > 0 && Holds(writes, region, span, initial, words)
    ensures Holds(writes + [w], region, span, initial, Apply(words, region, span, w))
  {
    assert (writes + [w])[..|writes|] == writes;
  }
}
