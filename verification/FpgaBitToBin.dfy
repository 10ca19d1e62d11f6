/** helpers/fpga-bit-to-bin.py, flip32, and its agreement with the bitstream driver. */
module FpgaBitToBin {
  import opened LittleEndian
  import opened Streams
  import opened XilinxDevcfg

  datatype Result = Success(data: seq<byte>) | StructError

  /** struct.unpack("<I") and struct.pack(">I") of one word. */
  function UnpackLittle(s: seq<byte>): nat { FromBytes(s) }

  function PackBig(n: nat): (s: seq<byte>)
    ensures |s| == 4
  {
    var b := ToBytes(n, 4);
    [b[3], b[2], b[1], b[0]]
  }

  lemma {:induction false} BytesReturn(s: seq<byte>)
    ensures ToBytes(FromBytes(s), |s|) == s
  {
    if s != [] {
      BytesReturn(s[1..]);
      assert s == [s[0]] + s[1..];
      assert FromBytes(s) % 256 == s[0] && FromBytes(s) / 256 == FromBytes(s[1..]);
    }
  }

  /** Unpacking in one order and packing in the other reverses the bytes. */
  lemma SwapsWord(s: seq<byte>, i: nat)
    requires i + 4 <= |s|
    ensures PackBig(UnpackLittle(s[i..i + 4])) == [s[i + 3], s[i + 2], s[i + 1], s[i]]
  {
    BytesReturn(s[i..i + 4]);
  }

  lemma FlipNext(s: seq<byte>, i: nat)
    requires i % 4 == 0 && i + 4 <= |s|
    ensures |Flip(s[..i])| == i
    ensures Flip(s[..i + 4]) == Flip(s[..i]) + [s[i + 3], s[i + 2], s[i + 1], s[i]]
  {
    var word := s[i..i + 4];
    FlipLength(s[..i]);
    FlipJoins(s[..i], word);
    assert s[..i + 4] == s[..i] + word;
    assert Flip(word) == [word[3], word[2], word[1], word[0]] + Flip(word[4..]);
  }

  lemma {:induction false} FlipsNext(s: seq<byte>, i: nat)
    requires i % 4 == 0 && i + 4 <= |s|
    ensures |Flip(s[..i])| == i && Flip(s[..i + 4]) == Flip(s[..i]) + PackBig(UnpackLittle(s[i..i + 4]))
  {
    SwapsWord(s, i);
    FlipNext(s, i);
  }

  /** pack_into */
  method PackInto(d: array<byte>, offset: nat, word: seq<byte>)
    requires offset + 4 <= d.Length && |word| == 4
    modifies d
    ensures d[..offset + 4] == old(d[..offset]) + word
  {
    d[offset], d[offset + 1], d[offset + 2], d[offset + 3] := word[0], word[1], word[2], word[3];
  }

  /** flip32 does to a whole buffer what the driver does to a swapped one; an
      incomplete last word is an error. */
  method Flip32(data: seq<byte>) returns (r: Result)
    ensures r == if |data| % 4 == 0 then Success(Flip(data)) else StructError
  {
    var d := new byte[|data|](_ => 0);
    var offset := 0;
    while offset < |data|
      invariant offset <= |data| && offset % 4 == 0
      invariant d[..offset] == Flip(data[..offset])
    {
      if |data| - offset < 4 {
        return StructError;
      }
      var word := PackBig(UnpackLittle(data[offset..offset + 4]));
      FlipsNext(data, offset);
      PackInto(d, offset, word);
      offset := offset + 4;
    }
    assert data[..offset] == data && d[..offset] == d[..];
    return Success(d[..]);
  }

  lemma {:induction false} FlipTwice(s: seq<byte>)
    requires |s| % 4 == 0
    ensures Flip(Flip(s)) == s
  {
    if s != [] {
      FlipTwice(s[4..]);
      assert Flip(s)[4..] == Flip(s[4..]);
      assert s == [s[0], s[1], s[2], s[3]] + s[4..];
    }
  }

  /** No byte starts a sync word, as in padding of 0xFF bytes. */
  ghost predicate Quiet(s: seq<byte>) { forall j :: 0 <= j < |s| ==> s[j] != NORMAL[0] && s[j] != SWAPPED[0] }

  lemma {:induction false} FlipQuiet(s: seq<byte>)
    requires Quiet(s)
    ensures Quiet(Flip(s))
  {
    if |s| >= 4 {
      FlipQuiet(s[4..]);
    }
  }

  lemma QuietHeader(s: seq<byte>, i: nat)
    requires SyncAt(s, i) && Quiet(s[..i])
    ensures FirstSync(s, i)
  {
    forall j | 0 <= j < i ensures !SyncAt(s, j) {
      assert s[..i][j] == s[j];
      assert j + 4 <= |s| ==> s[j..j + 4][0] == s[j];
    }
  }

  lemma FlipSplits(d: seq<byte>, i: nat)
    requires i % 4 == 0 && i <= |d|
    ensures |Flip(d[..i])| == i && Flip(d) == Flip(d[..i]) + Flip(d[i..])
    ensures i <= |Flip(d)| && Flip(d)[..i] == Flip(d[..i]) && Flip(d)[i..] == Flip(d[i..])
  {
    FlipJoins(d[..i], d[i..]);
    assert d == d[..i] + d[i..];
    FlipLength(d[..i]);
  }

  lemma FlipSync(s: seq<byte>)
    requires |s| >= 4 && s[..4] == SWAPPED
    ensures |Flip(s)| >= 4 && Flip(s)[..4] == NORMAL
  {
    assert s[0] == s[..4][0] && s[1] == s[..4][1] && s[2] == s[..4][2] && s[3] == s[..4][3];
  }

  lemma {:induction false} FlipHeader(d: seq<byte>, i: nat)
    requires i % 4 == 0 && i + 4 <= |d| && d[i..i + 4] == SWAPPED && Quiet(d[..i])
    ensures FirstSync(d, i) && FirstSync(Flip(d), i) && Flip(d)[i..i + 4] == NORMAL
    ensures Flip(d)[i..] == Flip(d[i..])
  {
    QuietHeader(d, i);
    FlipSplits(d, i);
    FlipQuiet(d[..i]);
    assert d[i..][..4] == d[i..i + 4];
    FlipSync(d[i..]);
    assert Flip(d)[i..i + 4] == Flip(d)[i..][..4];
    QuietHeader(Flip(d), i);
  }

  lemma WholeTail(d: seq<byte>, i: nat)
    requires |d| % 4 == 0 && i % 4 == 0 && i <= |d|
    ensures |d[i..]| % 4 == 0 && |Flip(d[i..])| % 4 == 0
  {
    assert (|d| - i) % 4 == 0;
    FlipLength(d[i..]);
  }

  /** Nothing is carried over from a stream of whole words. */
  lemma AllHandedOn(flag: bool, s: seq<byte>, d: State)
    requires Loaded(flag, s, d) && |s| % 4 == 0
    ensures d.endianSwap == flag && d.dma == FlipIf(flag, s) && d.residue == []
  {
    assert Whole(s) == s;
  }

  /** The bytes of a bit file and the bytes of the flipped file give the same DMA
      data: the driver swaps exactly the first of them. Each may be cut in its own
      way, provided its first piece reaches beyond the sync word. */
  lemma {:induction false} TwoFormats(d: seq<byte>, i: nat, first: seq<byte>, chunks: seq<seq<byte>>,
                   first': seq<byte>, chunks': seq<seq<byte>>)
    requires |d| % 4 == 0 && i % 4 == 0 && i + 4 < |d| && d[i..i + 4] == [0xAA, 0x99, 0x55, 0x66] && Quiet(d[..i])
    requires d == first + Flatten(chunks) && |first| > i + 4
    requires Flip(d) == first' + Flatten(chunks') && |first'| > i + 4
    ensures var a, b := Load(first, chunks), Load(first', chunks');
            && a.dma == b.dma == Flip(d[i..])
            && a.residue == b.residue == [] && a.endianSwap && !b.endianSwap
  {
    FlipHeader(d, i);
    WholeTail(d, i);
    var a, b := Load(first, chunks), Load(first', chunks');
    assert Loaded(true, d[i..], a) by {
      StreamSeen(d, i, first, chunks);
    }
    assert Loaded(false, Flip(d[i..]), b) by {
      StreamSeen(Flip(d), i, first', chunks');
    }
    AllHandedOn(true, d[i..], a);
    AllHandedOn(false, Flip(d[i..]), b);
  }
}
