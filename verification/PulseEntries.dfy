/** The pulse table: what the client asks for, the two 64-bit halves of an entry, and
    the four 32-bit words that carry it from the server to the gate controller. */
module PulseEntries {

  /** add_delay and add_pulse of the client, the phase as a fraction of 2^30 turns */
  datatype Call = Delay(gate: int, width: int) | Pulse(level: int, phase: int, width: int)

  /** The widths that leave the command code of a 64-bit command intact, and fields
      that fit their bits. */
  predicate InRange(c: Call) {
    && 1 <= c.width <= 0x1000_0000_0000_0000
    && match c
       case Delay(gate, _) => 0 <= gate <= 1
       case Pulse(level, phase, _) => 0 <= level < 0x1_0000 && 0 <= phase < 0x1_0000_0000
  }

  /** One entry: the countdown, and gate, level and phase. */
  datatype Slot = Slot(count: nat, fields: nat)

  function SlotOf(c: Call): (s: Slot)
    requires InRange(c)
    ensures s.count < 0x1000_0000_0000_0000 && s.fields < 0x2_0000_0000_0000
  {
    match c
    case Delay(gate, width) => Slot(width - 1, gate * 0x1_0000_0000_0000)
    case Pulse(level, phase, width) => Slot(width - 1, 0x1_0000_0000_0000 + level * 0x1_0000_0000 + phase)
  }

  /** The words of an entry in memory order. */
  function SlotWords(s: Slot): seq<nat> {
    [s.count % 0x1_0000_0000, s.count / 0x1_0000_0000, s.fields % 0x1_0000_0000, s.fields / 0x1_0000_0000]
  }

  function Words(slots: seq<Slot>): (words: seq<nat>)
    ensures |words| == 4 * |slots|
  {
    if slots == [] then [] else Words(slots[..|slots| - 1]) + SlotWords(slots[|slots| - 1])
  }

  /** A FIFO that takes 32-bit and returns 128-bit words, the first-written word in
      the low bits. */
  function Assemble(words: seq<nat>): seq<Slot> {
    if |words| < 4 then []
    else [Slot(words[0] + words[1] * 0x1_0000_0000, words[2] + words[3] * 0x1_0000_0000)] + Assemble(words[4..])
  }

  lemma {:induction false} WordsFront(slots: seq<Slot>)
    requires slots != []
    ensures Words(slots) == SlotWords(slots[0]) + Words(slots[1..])
  {
    var n := |slots| - 1;
    if n > 0 {
      WordsFront(slots[..n]);
      assert slots[..n][1..] == slots[1..][..n - 1];
    }
  }

  /** The width conversion undoes the layout: entries come out as they were stored. */
  lemma {:induction false} AssembleWords(slots: seq<Slot>)
    ensures Assemble(Words(slots)) == slots
  {
    if slots != [] {
      WordsFront(slots);
      assert Words(slots)[4..] == Words(slots[1..]);
      AssembleWords(slots[1..]);
      assert Assemble(Words(slots))[0] == slots[0];
      assert slots == [slots[0]] + slots[1..];
    }
  }
}
