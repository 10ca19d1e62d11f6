/** patches/xilinx_devcfg.c, xdevcfg_write and the reset of its state in xdevcfg_open:
    a bitstream, written in pieces, is freed from its header, brought to word order
    and handed to the DMA engine in whole words. */
module XilinxDevcfg {
  import opened LittleEndian
  import opened Streams

  /** The sync word as the hardware wants it, and with its bytes reversed. */
  const NORMAL: seq<byte> := [0x66, 0x55, 0x99, 0xAA]
  const SWAPPED: seq<byte> := [0xAA, 0x99, 0x55, 0x66]

  predicate SyncAt(s: seq<byte>, i: nat) {
    i + 4 <= |s| && (s[i..i + 4] == NORMAL || s[i..i + 4] == SWAPPED)
  }

  /** Where the search that starts at i ends: at a sync word, or four bytes before the
      end of the buffer, where it no longer looks. */
  function FindSync(s: seq<byte>, i: nat): nat
    requires i + 4 <= |s|
    decreases |s| - i
  {
    if i + 4 == |s| || SyncAt(s, i) then i else FindSync(s, i + 1)
  }

  /** The header of a first piece, and whether its sync word is a reversed one. */
  function Header(s: seq<byte>): nat {
    if |s| > 4 && FindSync(s, 0) + 4 < |s| then FindSync(s, 0) else 0
  }

  function Reversed(s: seq<byte>, before: bool): bool {
    if |s| > 4 && FindSync(s, 0) + 4 < |s| then s[FindSync(s, 0)..FindSync(s, 0) + 4] == SWAPPED else before
  }

  /** The bytes of every whole word reversed; an incomplete last word is left out. */
  function Flip(s: seq<byte>): seq<byte> {
    if |s| < 4 then [] else [s[3], s[2], s[1], s[0]] + Flip(s[4..])
  }

  function FlipIf(flip: bool, s: seq<byte>): seq<byte> { if flip then Flip(s) else s }

  /** The whole words of a byte sequence, and the rest. */
  function Whole<T>(s: seq<T>): seq<T> { s[..|s| - |s| % 4] }
  function Rest<T>(s: seq<T>): seq<T> { s[|s| - |s| % 4..] }

  /** The state between two writes: the flag, the bytes carried over, the file position
      and everything handed to the DMA engine. */
  datatype State = State(endianSwap: bool, residue: seq<byte>, pos: nat, dma: seq<byte>)

  const OPENED := State(false, [], 0, [])

  /** The data of one write, after the header has been removed. */
  function Piece(d: State, chunk: seq<byte>): seq<byte> {
    var kbuf := d.residue + chunk;
    if d.pos == 0 then kbuf[Header(kbuf)..] else kbuf
  }

  function Flag(d: State, chunk: seq<byte>): bool {
    if d.pos == 0 then Reversed(d.residue + chunk, d.endianSwap) else d.endianSwap
  }

  lemma {:induction false} FindSyncInside(s: seq<byte>, i: nat)
    requires i + 4 <= |s|
    ensures i <= FindSync(s, i) <= |s| - 4
    ensures FindSync(s, i) + 4 < |s| ==> SyncAt(s, FindSync(s, i))
    ensures forall j :: i <= j < FindSync(s, i) ==> !SyncAt(s, j)
    decreases |s| - i
  {
    if i + 4 < |s| && !SyncAt(s, i) {
      FindSyncInside(s, i + 1);
    }
  }

  /** One successful write. */
  function Written(d: State, chunk: seq<byte>): State {
    var kbuf, flag := Piece(d, chunk), Flag(d, chunk);
    State(flag, Rest(kbuf), d.pos + |chunk|, d.dma + FlipIf(flag, Whole(kbuf)))
  }

  function WriteAll(d: State, chunks: seq<seq<byte>>): State {
    if chunks == [] then d else Written(WriteAll(d, chunks[..|chunks| - 1]), chunks[|chunks| - 1])
  }

  /** The state after opening the device, a first write and any further ones. */
  function Load(first: seq<byte>, chunks: seq<seq<byte>>): State { WriteAll(Written(OPENED, first), chunks) }

  /** The DMA engine has been given the whole words of the stream, flipped or not, and
      the residue is what remains of the stream. */
  ghost predicate Loaded(flag: bool, stream: seq<byte>, d: State) {
    d.endianSwap == flag && d.residue == Rest(stream) && d.dma == FlipIf(flag, Whole(stream))
  }

  lemma {:induction false} FlipJoins(a: seq<byte>, b: seq<byte>)
    requires |a| % 4 == 0
    ensures Flip(a + b) == Flip(a) + Flip(b)
  {
    if a == [] {
      assert a + b == b;
    } else {
      FlipJoins(a[4..], b);
      assert (a + b)[4..] == a[4..] + b;
    }
  }

  lemma WholeJoins<T>(s: seq<T>, more: seq<T>)
    ensures Whole(s + more) == Whole(s) + Whole(Rest(s) + more)
    ensures Rest(s + more) == Rest(Rest(s) + more)
  {
    assert s + more == Whole(s) + (Rest(s) + more);
  }

  lemma {:induction false} LoadsMore(flag: bool, stream: seq<byte>, d: State, chunk: seq<byte>)
    requires Loaded(flag, stream, d) && d.pos > 0
    ensures Loaded(flag, stream + chunk, Written(d, chunk))
  {
    WholeJoins(stream, chunk);
    FlipJoins(Whole(stream), Whole(Rest(stream) + chunk));
  }

  lemma {:induction false} LoadsFirst(first: seq<byte>)
    requires first != []
    ensures Loaded(Reversed(first, false), first[Header(first)..], Written(OPENED, first))
  {
    assert [] + first == first;
    assert forall x: seq<byte> :: [] + x == x;
  }

  /** After any successful writes the first of which brings something, the state is
      that of one stream: all bytes written, less the header of the first piece; the
      file position counts all bytes written. */
  lemma {:induction false} LoadsStream(first: seq<byte>, chunks: seq<seq<byte>>)
    requires first != []
    ensures Loaded(Reversed(first, false), first[Header(first)..] + Flatten(chunks),
                   Load(first, chunks))
    ensures Load(first, chunks).pos == |first| + |Flatten(chunks)|
  {
    var start := first[Header(first)..];
    if chunks == [] {
      LoadsFirst(first);
      assert start + [] == start;
    } else {
      var before, last := chunks[..|chunks| - 1], chunks[|chunks| - 1];
      LoadsStream(first, before);
      LoadsMore(Reversed(first, false), start + Flatten(before), Load(first, before), last);
      Regroup(start, Flatten(before), last);
    }
  }

  ghost predicate FirstSync(s: seq<byte>, i: nat) {
    SyncAt(s, i) && forall j :: 0 <= j < i ==> !SyncAt(s, j)
  }

  lemma SamePrefix(first: seq<byte>, s: seq<byte>, k: nat)
    requires first <= s && k + 4 <= |first|
    ensures first[k..k + 4] == s[k..k + 4]
  {
  }

  /** A first piece that reaches beyond the sync word shows it; a shorter one hides it. */
  lemma HeaderOfPrefix(s: seq<byte>, i: nat, first: seq<byte>)
    requires FirstSync(s, i) && first <= s
    ensures |first| > i + 4 ==> Header(first) == i && Reversed(first, false) == (s[i..i + 4] == SWAPPED)
    ensures |first| <= i + 4 ==> Header(first) == 0 && !Reversed(first, false)
  {
    if |first| > 4 {
      FindSyncInside(first, 0);
      SamePrefix(first, s, FindSync(first, 0));
      assert FindSync(first, 0) + 4 < |first| ==> SyncAt(s, FindSync(first, 0));
      if |first| > i + 4 {
        SamePrefix(first, s, i);
        assert SyncAt(first, i);
      }
    }
  }

  lemma {:induction false} FlipLength(s: seq<byte>)
    ensures |Flip(s)| == |s| - |s| % 4
  {
    if |s| >= 4 {
      FlipLength(s[4..]);
    }
  }

  /** The stream that the driver sees: without the header, or with it if the first
      piece ends too early. */
  lemma {:induction false} StreamSeen(s: seq<byte>, i: nat, first: seq<byte>, chunks: seq<seq<byte>>)
    requires FirstSync(s, i) && first != [] && s == first + Flatten(chunks)
    ensures var d := Load(first, chunks);
            if |first| > i + 4 then Loaded(s[i..i + 4] == SWAPPED, s[i..], d) else Loaded(false, s, d)
  {
    HeaderOfPrefix(s, i, first);
    LoadsStream(first, chunks);
    DropFront(first, Flatten(chunks), if |first| > i + 4 then i else 0);
  }

  lemma DropFront<T>(a: seq<T>, b: seq<T>, n: nat)
    requires n <= |a|
    ensures a[n..] + b == (a + b)[n..]
    ensures n == 0 ==> a[n..] + b == a + b
  {
  }

  /** The result does not depend on how the bytes are cut, exactly if the first piece
      reaches beyond the sync word, or there is nothing to remove and to swap. */
  lemma {:induction false} IndependentOfCuts(s: seq<byte>, i: nat, first: seq<byte>, chunks: seq<seq<byte>>)
    requires FirstSync(s, i) && i + 4 < |s|
    requires first != [] && s == first + Flatten(chunks)
    ensures Loaded(s[i..i + 4] == SWAPPED, s[i..], Load(first, chunks))
            <==> |first| > i + 4 || (i == 0 && s[..4] == NORMAL)
  {
    StreamSeen(s, i, first, chunks);
    if |first| <= i + 4 {
      NothingRemoved(s, i, Load(first, chunks));
    }
  }

  /** If the header was not found, the whole stream was handed on as it came. */
  lemma NothingRemoved(s: seq<byte>, i: nat, d: State)
    requires SyncAt(s, i) && Loaded(false, s, d)
    ensures Loaded(s[i..i + 4] == SWAPPED, s[i..], d) <==> i == 0 && s[..4] == NORMAL
  {
    FlipLength(Whole(s[i..]));
    assert |d.residue| + |d.dma| == |s|;
    assert i == 0 ==> s[i..] == s && s[i..i + 4] == s[..4];
  }

  /** What can go wrong in a write, in the order in which it can. */
  datatype Fault = NoFault | NoClock(error: int) | Interrupted | NoMemory | BadBuffer | Timeout | DmaError

  const EINTR: int := 4
  const ENOMEM: int := 12
  const EFAULT: int := 14
  const ETIMEDOUT: int := 110

  /** The search for the sync word. */
  method Search(kbuf: array<byte>, count: nat, endianSwap0: bool) returns (i: nat, endianSwap: bool)
    requires 4 < count <= kbuf.Length
    ensures i == FindSync(kbuf[..count], 0)
    ensures endianSwap == Reversed(kbuf[..count], endianSwap0)
  {
    i, endianSwap := 0, endianSwap0;
    while i < count - 4
      invariant i + 4 <= count
      invariant FindSync(kbuf[..count], 0) == FindSync(kbuf[..count], i)
      invariant endianSwap == endianSwap0
    {
      assert kbuf[i..i + 4] == kbuf[..count][i..i + 4];
      if kbuf[i..i + 4] == NORMAL {
        endianSwap := false;
        break;
      }
      if kbuf[i..i + 4] == SWAPPED {
        endianSwap := true;
        break;
      }
      i := i + 1;
    }
  }

  /** memmove(kbuf, kbuf + i, count) */
  method MoveDown(kbuf: array<byte>, i: nat, count: nat)
    requires i + count <= kbuf.Length
    modifies kbuf
    ensures kbuf[..count] == old(kbuf[i..i + count])
  {
    var k := 0;
    while k < count
      invariant k <= count
      invariant forall j :: 0 <= j < k ==> kbuf[j] == old(kbuf[i + j])
      invariant forall j :: k <= j < kbuf.Length ==> kbuf[j] == old(kbuf[j])
    {
      kbuf[k] := kbuf[i + k];
      k := k + 1;
    }
  }

  function Swapped(s: seq<byte>, i: nat): seq<byte>
    requires i + 4 <= |s|
  {
    s[..i] + [s[i + 3], s[i + 2], s[i + 1], s[i]] + s[i + 4..]
  }

  /** *p = swab32(*p) */
  method SwapWord(kbuf: array<byte>, i: nat, count: nat)
    requires i + 4 <= count <= kbuf.Length
    modifies kbuf
    ensures kbuf[..count] == old(Swapped(kbuf[..count], i))
  {
    kbuf[i], kbuf[i + 1], kbuf[i + 2], kbuf[i + 3] := kbuf[i + 3], kbuf[i + 2], kbuf[i + 1], kbuf[i];
  }

  /** The words before position i have been swapped, the others remain to be. */
  ghost predicate PartlyFlipped(flipped: seq<byte>, i: nat, kbuf: seq<byte>) {
    i <= |kbuf| && flipped == kbuf[..i] + Flip(kbuf[i..])
  }

  lemma SwapsNext(flipped: seq<byte>, i: nat, kbuf: seq<byte>)
    requires i + 4 <= |kbuf| && PartlyFlipped(flipped, i, kbuf)
    ensures PartlyFlipped(flipped, i + 4, Swapped(kbuf, i))
  {
    var next := Swapped(kbuf, i);
    var word := [kbuf[i + 3], kbuf[i + 2], kbuf[i + 1], kbuf[i]];
    assert kbuf[i..][4..] == kbuf[i + 4..] == next[i + 4..];
    assert Flip(kbuf[i..]) == word + Flip(kbuf[i + 4..]);
    assert next[..i + 4] == kbuf[..i] + word;
  }

  /** Nothing swapped at first, everything in the end. */
  lemma FlippedEnds(kbuf: seq<byte>, flipped: seq<byte>)
    ensures PartlyFlipped(Flip(kbuf), 0, kbuf)
    ensures PartlyFlipped(flipped, |kbuf|, kbuf) ==> kbuf == flipped
  {
    assert kbuf[..0] == [] && kbuf[0..] == kbuf && kbuf[|kbuf|..] == [] && kbuf[..|kbuf|] == kbuf;
  }

  lemma NextWord(i: nat, count: nat)
    requires i % 4 == 0 && count % 4 == 0 && i < count
    ensures i + 4 <= count && (i + 4) % 4 == 0
  {
  }

  /** swab32 on every word, in place */
  method SwapWords(kbuf: array<byte>, count: nat)
    requires count <= kbuf.Length && count % 4 == 0
    modifies kbuf
    ensures kbuf[..count] == Flip(old(kbuf[..count]))
  {
    ghost var flipped := Flip(kbuf[..count]);
    FlippedEnds(kbuf[..count], flipped);
    var i := 0;
    while i < count
      invariant i <= count && i % 4 == 0
      invariant PartlyFlipped(flipped, i, kbuf[..count])
    {
      NextWord(i, count);
      SwapsNext(flipped, i, kbuf[..count]);
      SwapWord(kbuf, i, count);
      i := i + 4;
    }
    FlippedEnds(kbuf[..count], flipped);
  }

  /** The stragglers of the last call, then the user's data. */
  method Collect(residueBuf: array<byte>, residueLen: nat, buf: seq<byte>) returns (kbuf: array<byte>)
    requires residueLen <= residueBuf.Length
    ensures fresh(kbuf) && kbuf[..] == residueBuf[..residueLen] + buf
  {
    kbuf := new byte[residueLen + |buf|](_ => 0);
    for i := 0 to residueLen
      invariant kbuf[..i] == residueBuf[..i]
    {
      kbuf[i] := residueBuf[i];
    }
    for i := 0 to |buf|
      invariant kbuf[..residueLen + i] == residueBuf[..residueLen] + buf[..i]
    {
      kbuf[residueLen + i] := buf[i];
    }
  }

  /** The header is searched for, and removed by moving the rest to the front. */
  method RemoveHeader(kbuf: array<byte>, endianSwap0: bool) returns (count: nat, endianSwap: bool)
    modifies kbuf
    ensures count <= kbuf.Length
    ensures kbuf[..count] == old(kbuf[..][Header(kbuf[..])..])
    ensures endianSwap == old(Reversed(kbuf[..], endianSwap0))
  {
    count, endianSwap := kbuf.Length, endianSwap0;
    if count > 4 {
      var i;
      FindSyncInside(kbuf[..], 0);
      assert kbuf[..count] == kbuf[..];
      i, endianSwap := Search(kbuf, count, endianSwap);
      if i != count - 4 {
        count := count - i;
        MoveDown(kbuf, i, count);
      }
    }
  }

  class Driver {
    var endianSwap: bool
    const residueBuf: array<byte>
    var residueLen: nat
    var ppos: nat
    /** Everything handed to the DMA engine. */
    var dma: seq<byte>

    ghost predicate Valid()
      reads this
    {
      residueBuf.Length == 3 && residueLen <= 3
    }

    function Now(): State
      reads this, residueBuf
      requires Valid()
    {
      State(endianSwap, residueBuf[..residueLen], ppos, dma)
    }

    /** xdevcfg_open */
    constructor ()
      ensures Valid() && fresh(residueBuf) && Now() == OPENED
    {
      endianSwap, residueLen, ppos, dma := false, 0, 0, [];
      residueBuf := new byte[3](_ => 0);
    }

    /** xdevcfg_write: the number of bytes, or a negative error. A fault before the
        data has been fetched changes nothing; a failed transfer leaves the file
        position where it was, but not the residue and the flag. */
    method Write(buf: seq<byte>, fault: Fault) returns (status: int)
      requires Valid()
      modifies this, residueBuf
      ensures Valid()
      ensures fault.NoFault? ==> status == |buf| && Now() == Written(old(Now()), buf)
      ensures fault.NoClock? ==> status == fault.error && Now() == old(Now())
      ensures fault.Interrupted? ==> status == -4 && Now() == old(Now())
      ensures fault.NoMemory? ==> status == -12 && Now() == old(Now())
      ensures fault.BadBuffer? ==> status == -14 && Now() == old(Now())
      ensures fault.Timeout? || fault.DmaError? ==>
                && status == (if fault.Timeout? then -110 else -14)
                && Now() == Written(old(Now()), buf).(pos := old(ppos))
    {
      if fault.NoClock? {
        return fault.error;
      }
      if fault.Interrupted? {
        return -EINTR;
      }
      if fault.NoMemory? {
        return -ENOMEM;
      }
      if fault.BadBuffer? {
        return -EFAULT;
      }
      var kbuf := Collect(residueBuf, residueLen, buf);
      var count, swap := kbuf.Length, endianSwap;
      assert kbuf[..count] == kbuf[..];
      if ppos == 0 {
        count, swap := RemoveHeader(kbuf, endianSwap);
      }
      Finish(kbuf, count, swap);
      if fault.NoFault? {
        ppos := ppos + |buf|;
        status := |buf|;
      } else {
        status := if fault.Timeout? then -ETIMEDOUT else -EFAULT;
      }
    }

    /** The stragglers are saved, the whole words swapped and handed to the DMA. */
    method Finish(kbuf: array<byte>, count0: nat, swap: bool)
      requires Valid() && count0 <= kbuf.Length && kbuf != residueBuf
      modifies this`endianSwap, this`residueLen, this`dma, residueBuf, kbuf
      ensures Valid()
      ensures endianSwap == swap && residueBuf[..residueLen] == Rest(old(kbuf[..count0]))
      ensures dma == old(dma) + FlipIf(swap, Whole(old(kbuf[..count0])))
    {
      ghost var data := kbuf[..count0];
      endianSwap := swap;
      var len := count0 % 4;
      var count := count0 - len;
      assert count % 4 == 0;
      for k := 0 to len
        modifies residueBuf
        invariant forall j :: 0 <= j < k ==> residueBuf[j] == kbuf[count + j]
      {
        residueBuf[k] := kbuf[count + k];
      }
      assert kbuf[..count] == data[..count] && residueBuf[..len] == data[count..];
      assert residueBuf[..len] == Rest(data) && kbuf[..count] == Whole(data);
      residueLen := len;
      if endianSwap {
        SwapWords(kbuf, count);
      }
      dma := dma + kbuf[..count];
    }
  }
}
