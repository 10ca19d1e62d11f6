/** projects/pulsed_nmr/server/pulsed-nmr.c: commands decoded into the pulse table,
    and the loop that plays the table and returns the samples. */
module PulseServer {
  import opened Arithmetic
  import opened LittleEndian
  import opened PulseClient
  import opened PulseEntries
  import opened Streams
  import Dsp48

  /** Entries the table has room for. */
  const LIMIT: nat := 1048576

  function Code(command: nat): nat { command / CODE }
  function Data(command: nat): nat { command % CODE }

  /** The pulse table, or what is left of it after a write outside it. */
  datatype Table = Table(slots: seq<Slot>) | Undefined

  /** The table after one command. Code 9 fills in the last entry; with no entry at
      all it would write in front of the table. */
  function Decode(t: Table, command: nat): Table {
    if t.Undefined? then t
    else
      var n := |t.slots|;
      match Code(command)
      case 7 => Table([])
      case 8 => if n >= LIMIT then t else Table(t.slots + [Slot(Data(command), 0)])
      case 9 => if n == 0 then Undefined else Table(t.slots[n - 1 := Slot(t.slots[n - 1].count, Data(command))])
      case _ => t
  }

  /** The table after a list of commands. */
  function DecodeFrom(t: Table, commands: seq<nat>): Table {
    if commands == [] then t
    else Decode(DecodeFrom(t, commands[..|commands| - 1]), commands[|commands| - 1])
  }

  /** ... to a server without pulses. */
  function DecodeAll(commands: seq<nat>): Table { DecodeFrom(Table([]), commands) }

  function SlotsOf(calls: seq<Call>): (slots: seq<Slot>)
    requires forall i :: 0 <= i < |calls| ==> InRange(calls[i])
    ensures |slots| == |calls|
  {
    seq(|calls|, i requires 0 <= i < |calls| => SlotOf(calls[i]))
  }

  /** The table that a list of calls leaves: beyond the limit an entry is not added,
      but its fields still overwrite those of the last entry. */
  function Clipped(slots: seq<Slot>): seq<Slot> {
    if |slots| <= LIMIT then slots
    else slots[..LIMIT - 1] + [Slot(slots[LIMIT - 1].count, slots[|slots| - 1].fields)]
  }

  lemma CodeAndData(code: nat, data: nat)
    requires data < CODE
    ensures Code(code * CODE + data) == code && Data(code * CODE + data) == data
  {
  }

  /** The table after the two commands of one entry. */
  function DecodeEntry(t: Table, s: Slot): Table { Decode(Decode(t, 8 * CODE + s.count), 9 * CODE + s.fields) }

  /** One call, whether or not the table has room. */
  lemma DecodesEntry(slots: seq<Slot>, s: Slot)
    requires s.count < CODE && s.fields < CODE
    ensures DecodeEntry(Table(Clipped(slots)), s) == Table(Clipped(slots + [s]))
  {
    CodeAndData(8, s.count);
    CodeAndData(9, s.fields);
    var table := Clipped(slots);
    if |slots| < LIMIT {
      assert (slots + [Slot(s.count, 0)])[|slots| := s] == slots + [s];
    } else {
      assert table[LIMIT - 1 := Slot(table[LIMIT - 1].count, s.fields)] == Clipped(slots + [s]);
    }
  }

  lemma {:induction false} DecodeAllMore(calls: seq<Call>)
    requires calls != [] && forall i :: 0 <= i < |calls| ==> InRange(calls[i])
    ensures var n := |calls| - 1;
            DecodeAll(CommandsOf(calls)) == DecodeEntry(DecodeAll(CommandsOf(calls[..n])), SlotOf(calls[n]))
  {
    var n := |calls| - 1;
    var s := SlotOf(calls[n]);
    DecodesTwo(CommandsOf(calls[..n]), 8 * CODE + s.count, 9 * CODE + s.fields);
  }

  lemma DecodesTwo(commands: seq<nat>, a: nat, b: nat)
    ensures DecodeAll(commands + [a, b]) == Decode(Decode(DecodeAll(commands), a), b)
  {
    assert commands + [a, b] == (commands + [a]) + [b];
    DecodesMore(Table([]), commands, a);
    DecodesMore(Table([]), commands + [a], b);
  }

  /** Decoding the commands of any list of calls in range. */
  lemma {:induction false} DecodesCalls(calls: seq<Call>)
    requires forall i :: 0 <= i < |calls| ==> InRange(calls[i])
    ensures DecodeAll(CommandsOf(calls)) == Table(Clipped(SlotsOf(calls)))
  {
    if calls != [] {
      var n := |calls| - 1;
      DecodesCalls(calls[..n]);
      DecodeAllMore(calls);
      SlotsOfMore(calls);
      DecodesEntry(SlotsOf(calls[..n]), SlotOf(calls[n]));
    }
  }

  lemma SlotsOfMore(calls: seq<Call>)
    requires calls != [] && forall i :: 0 <= i < |calls| ==> InRange(calls[i])
    ensures SlotsOf(calls) == SlotsOf(calls[..|calls| - 1]) + [SlotOf(calls[|calls| - 1])]
  {
  }

  /** Decoding undoes the client's packing exactly while the table has room. */
  lemma {:induction false} RoundTripUpToLimit(calls: seq<Call>)
    requires forall i :: 0 <= i < |calls| ==> InRange(calls[i])
    ensures DecodeAll(CommandsOf(calls)) == Table(SlotsOf(calls)) <==> |calls| <= 0x10_0000
  {
    DecodesCalls(calls);
  }

  /** The commands survive the socket: eight bytes each, least significant first. */
  function Received(bytes: seq<byte>): seq<nat> {
    if |bytes| < 8 then [] else [FromBytes(bytes[..8])] + Received(bytes[8..])
  }

  lemma {:induction false} ReceivesSent(commands: seq<nat>, more: seq<byte>)
    requires forall i :: 0 <= i < |commands| ==> Packs(commands[i])
    ensures Received(BytesOf(commands) + more) == commands + Received(more)
  {
    if commands == [] {
      assert BytesOf(commands) + more == more;
    } else {
      var n := |commands| - 1;
      var last := ToBytes(commands[n], 8);
      ReceivesSent(commands[..n], last + more);
      assert BytesOf(commands) + more == BytesOf(commands[..n]) + (last + more);
      assert (last + more)[..8] == last && (last + more)[8..] == more;
      assert Limit(8) == 0x1_0000_0000_0000_0000;
      RoundTrip(commands[n], 8);
    }
  }

  /** The level after one command: one that makes no sample wrap the multiplier's output
      is taken, any other refused. */
  ghost function Level(level: nat, command: nat): nat {
    if Code(command) == 3 && Dsp48.NeverWraps(Data(command)) then Data(command) else level
  }

  ghost function LevelFrom(level: nat, commands: seq<nat>): nat {
    if commands == [] then level
    else Level(LevelFrom(level, commands[..|commands| - 1]), commands[|commands| - 1])
  }

  lemma LevelMore(level: nat, commands: seq<nat>, command: nat)
    ensures LevelFrom(level, commands + [command]) == Level(LevelFrom(level, commands), command)
  {
    assert (commands + [command])[..|commands|] == commands;
  }

  // ---------- The receive loop ----------

  /** recv into the command: fewer than eight bytes leave its upper bytes as they were. */
  function Overwritten(command: nat, part: seq<byte>): nat
    requires |part| <= 8
  {
    FromBytes(part + ToBytes(command, 8)[|part|..])
  }

  /** The commands of a connection, if one of them is in the variable at first: at the
      end of the stream recv returns what there is. */
  function Commands(command: nat, bytes: seq<byte>): seq<nat>
    decreases |bytes|
  {
    if bytes == [] then []
    else
      var n := Min(8, |bytes|);
      var next := Overwritten(command, bytes[..n]);
      [next] + Commands(next, bytes[n..])
  }

  lemma {:induction false} CommandsNext(command: nat, bytes: seq<byte>, i: nat, done: seq<nat>)
    requires i < |bytes|
    ensures var n := Min(8, |bytes| - i);
            var next := Overwritten(command, bytes[i..i + n]);
            done + Commands(command, bytes[i..]) == done + [next] + Commands(next, bytes[i + n..])
  {
    var n := Min(8, |bytes| - i);
    assert bytes[i..][..n] == bytes[i..i + n] && bytes[i..][n..] == bytes[i + n..];
    var next := Overwritten(command, bytes[i..i + n]);
    Regroup(done, [next], Commands(next, bytes[i + n..]));
  }

  /** The last command received, or the one that was there. */
  function LastOf(command: nat, commands: seq<nat>): nat {
    if commands == [] then command else commands[|commands| - 1]
  }

  /** The bytes after the last whole command. */
  function Remainder(bytes: seq<byte>): (rest: seq<byte>)
    ensures |rest| < 8
  {
    if |bytes| < 8 then bytes else Remainder(bytes[8..])
  }

  /** The command that an incomplete one at the end is merged into. */
  function Merged(command: nat, bytes: seq<byte>): nat {
    Overwritten(LastOf(command, Received(bytes)), Remainder(bytes))
  }

  /** Whole commands come as they were sent; an incomplete one at the end is executed
      with the upper bytes of the command before. */
  lemma {:induction false} CommandsOfBytes(command: nat, bytes: seq<byte>)
    ensures Commands(command, bytes)
            == Received(bytes) + if Remainder(bytes) == [] then [] else [Merged(command, bytes)]
    decreases |bytes|
  {
    if |bytes| >= 8 {
      var next := FromBytes(bytes[..8]);
      assert bytes[..8] + ToBytes(command, 8)[8..] == bytes[..8];
      CommandsOfBytes(next, bytes[8..]);
      assert LastOf(command, Received(bytes)) == LastOf(next, Received(bytes[8..]));
      Regroup([next], Received(bytes[8..]), if Remainder(bytes) == [] then [] else [Merged(command, bytes)]);
    } else if bytes != [] {
      assert bytes[..|bytes|] == bytes && bytes[|bytes|..] == [];
      assert Commands(Overwritten(command, bytes), []) == [];
    }
  }

  lemma DecodesMore(t: Table, commands: seq<nat>, command: nat)
    ensures DecodeFrom(t, commands + [command]) == Decode(DecodeFrom(t, commands), command)
  {
    assert (commands + [command])[..|commands|] == commands;
  }

  /** The commands that leave this table as it is. */
  predicate Keeps(t: Table, command: nat) {
    t.Table? ==>
      var n := |t.slots|;
      match Code(command)
      case 7 => n == 0
      case 8 => n >= LIMIT
      case 9 => n > 0 && t.slots[n - 1].fields == Data(command)
      case _ => true
  }

  lemma KeepsExactly(t: Table, command: nat)
    ensures Decode(t, command) == t <==> Keeps(t, command)
  {
    if t.Table? && |t.slots| > 0 {
      var last := |t.slots| - 1;
      assert t.slots[last := t.slots[last]] == t.slots;
      assert t.slots[last := Slot(t.slots[last].count, Data(command))][last].fields == Data(command);
    }
  }

  lemma {:induction false} RemainderLength(bytes: seq<byte>)
    ensures |Remainder(bytes)| == |bytes| % 8
  {
    if |bytes| >= 8 {
      RemainderLength(bytes[8..]);
    }
  }

  /** The table of a connection is that of its complete commands if and only if there is
      no incomplete one, or the merged command leaves the table as it is. */
  lemma {:induction false} IncompleteCommand(t: Table, command: nat, bytes: seq<byte>)
    ensures DecodeFrom(t, Commands(command, bytes)) == DecodeFrom(t, Received(bytes))
            <==> |bytes| % 8 == 0 || Keeps(DecodeFrom(t, Received(bytes)), Merged(command, bytes))
  {
    RemainderLength(bytes);
    CommandsOfBytes(command, bytes);
    if Remainder(bytes) == [] {
      assert Received(bytes) + [] == Received(bytes);
    } else {
      DecodesMore(t, Received(bytes), Merged(command, bytes));
      KeepsExactly(DecodeFrom(t, Received(bytes)), Merged(command, bytes));
    }
  }

  lemma {:induction false} BytesJoin(a: seq<byte>, b: seq<byte>)
    ensures FromBytes(a + b) == FromBytes(a) + Limit(|a|) * FromBytes(b)
    ensures FromBytes(a) < Limit(|a|)
  {
    if a == [] {
      assert a + b == b;
    } else {
      BytesJoin(a[1..], b);
      assert (a + b)[1..] == a[1..] + b;
      assert 256 * (Limit(|a| - 1) * FromBytes(b)) == Limit(|a|) * FromBytes(b);
    }
  }

  /** struct.pack accepts exactly the numbers that eight bytes can carry. */
  lemma {:induction false} PacksExactly(command: nat)
    ensures Packs(command) <==> FromBytes(ToBytes(command, 8)) == command
  {
    assert Limit(8) == 0x1_0000_0000_0000_0000;
    if command < Limit(8) {
      RoundTrip(command, 8);
    } else {
      BytesJoin(ToBytes(command, 8), []);
    }
  }

  lemma {:induction false} CodeInTopByte(bytes: seq<byte>)
    requires |bytes| == 8
    ensures Code(FromBytes(bytes)) == bytes[7] / 16
  {
    BytesJoin(bytes[..7], bytes[7..]);
    assert bytes == bytes[..7] + bytes[7..];
    assert Limit(7) == 0x100_0000_0000_0000;
    assert FromBytes(bytes[7..]) == bytes[7] + 256 * FromBytes(bytes[7..][1..]);
  }

  /** A merged command has the code of the command before it. */
  lemma {:induction false} MergedCode(command: nat, part: seq<byte>)
    requires |part| < 8 && command < Limit(8)
    ensures Code(Overwritten(command, part)) == Code(command)
  {
    var old' := ToBytes(command, 8);
    RoundTrip(command, 8);
    CodeInTopByte(old');
    CodeInTopByte(part + old'[|part|..]);
  }

  lemma {:induction false} LowByteOverwritten(command: nat, low: byte)
    requires command < Limit(8)
    ensures Overwritten(command, [low]) == command / 256 * 256 + low
  {
    var rest := ToBytes(command / 256, 7);
    RoundTrip(command / 256, 7);
    assert ToBytes(command, 8)[1..] == rest;
    assert ([low] + rest)[1..] == rest;
  }

  lemma {:induction false} ReceivesOne(command: nat, low: byte)
    requires command < Limit(8)
    ensures var bytes := ToBytes(command, 8) + [low]; Received(bytes) == [command] && Remainder(bytes) == [low]
  {
    var bytes := ToBytes(command, 8) + [low];
    RoundTrip(command, 8);
    assert bytes[..8] == ToBytes(command, 8) && bytes[8..] == [low];
    assert Received([low]) == [] && Remainder([low]) == [low];
  }

  /** A client that adds one entry of width 10 and closes after one more byte has added
      a second one, of width 6. */
  lemma {:induction false} HalfCommandAdds(command: nat)
    ensures var bytes := ToBytes(8 * CODE + 9, 8) + [5];
            && DecodeAll(Received(bytes)) == Table([Slot(9, 0)])
            && DecodeAll(Commands(command, bytes)) == Table([Slot(9, 0), Slot(5, 0)])
  {
    var c := 8 * CODE + 9;
    assert Limit(8) == 0x1_0000_0000_0000_0000;
    ReceivesOne(c, 5);
    LowByteOverwritten(c, 5);
    CommandsOfBytes(command, ToBytes(c, 8) + [5]);
    CodeAndData(8, 9);
    CodeAndData(8, 5);
    assert [c] == [] + [c];
    DecodesMore(Table([]), [], c);
    DecodesMore(Table([]), [c], 8 * CODE + 5);
  }

  class Server {
    const pulses: array<nat>
    var size: nat
    var txLevel: nat
    /** The variable that recv writes to. */
    var command: nat
    /** Something has been written in front of the array. */
    var outside: bool
    /** The entries that the words of the array stand for. */
    ghost var slots: seq<Slot>

    ghost predicate Valid()
      reads this, pulses
    {
      && pulses.Length == 4 * LIMIT
      && size == |slots| <= LIMIT
      && pulses[..4 * size] == Words(slots)
      && txLevel <= Dsp48.LEVEL_LIMIT
    }

    ghost function Contents(): Table
      reads this
    {
      if outside then Undefined else Table(slots)
    }

    constructor (command: nat)
      ensures this.command == command
      ensures Valid() && Contents() == Table([]) && txLevel == 0
      ensures fresh(pulses)
    {
      pulses := new nat[4 * LIMIT](_ => 0);
      this.command := command;
      size, txLevel, outside, slots := 0, 0, false, [];
    }

    /** memcpy of a 64-bit number to two words of the array. */
    method Copy(at: nat, data: nat)
      requires at + 2 <= pulses.Length
      modifies pulses
      ensures pulses[..] == old(pulses[..])[at := data % 0x1_0000_0000][at + 1 := data / 0x1_0000_0000]
    {
      pulses[at] := data % 0x1_0000_0000;
      pulses[at + 1] := data / 0x1_0000_0000;
    }

    method AddEntry(data: nat)
      requires Valid() && size < LIMIT && data < 0x1_0000_0000_0000_0000
      modifies this`size, this`slots, pulses
      ensures Valid() && slots == old(slots) + [Slot(data, 0)]
    {
      size := size + 1;
      Copy(4 * size - 2, 0);
      Copy(4 * size - 4, data);
      ghost var added := slots + [Slot(data, 0)];
      assert added[..|slots|] == slots;
      slots := added;
    }

    method SetFields(data: nat)
      requires Valid() && slots != [] && data < 0x1_0000_0000_0000_0000
      modifies this`slots, pulses
      ensures Valid() && slots == old(slots[..|slots| - 1] + [Slot(slots[|slots| - 1].count, data)])
    {
      Copy(4 * size - 2, data);
      ghost var last := Slot(slots[size - 1].count, data);
      ghost var changed := slots[..size - 1] + [last];
      assert changed[..size - 1] == slots[..size - 1];
      slots := changed;
    }

    method SetLevel(data: nat)
      requires txLevel <= Dsp48.LEVEL_LIMIT
      modifies this`txLevel
      ensures txLevel == if Dsp48.NeverWraps(data) then data else old(txLevel)
      ensures txLevel <= Dsp48.LEVEL_LIMIT && Dsp48.AlwaysExact(txLevel)
    {
      if data <= Dsp48.LEVEL_LIMIT {
        txLevel := data;
      }
      Dsp48.LevelLimitIsExact(data);
      Dsp48.NeverWrapsExact(txLevel);
    }

    /** The commands that concern the pulses and the level. */
    method Execute(command: nat)
      requires Valid()
      modifies this`size, this`txLevel, this`outside, this`slots, pulses
      ensures Valid() && Contents() == Decode(old(Contents()), command)
      ensures txLevel == Level(old(txLevel), command) && Dsp48.AlwaysExact(txLevel)
    {
      var data := Data(command);
      Dsp48.NeverWrapsExact(txLevel);
      match Code(command)
      case 3 =>
        SetLevel(data);
      case 7 =>
        size := 0;
        slots := [];
      case 8 =>
        if size < LIMIT {
          AddEntry(data);
        }
      case 9 =>
        if size == 0 {
          outside := true;
        } else {
          SetFields(data);
        }
      case _ =>
    }

    /** The receive loop, for the bytes of one connection. */
    method Serve(bytes: seq<byte>)
      requires Valid()
      modifies this`size, this`txLevel, this`outside, this`slots, this`command, pulses
      ensures Valid() && Contents() == DecodeFrom(old(Contents()), Commands(old(command), bytes))
      ensures command == LastOf(old(command), Commands(old(command), bytes))
      ensures txLevel == LevelFrom(old(txLevel), Commands(old(command), bytes))
      ensures Dsp48.AlwaysExact(txLevel)
    {
      var i := 0;
      ghost var done: seq<nat> := [];
      assert [] + Commands(command, bytes[0..]) == Commands(command, bytes);
      while i < |bytes|
        invariant Valid() && i <= |bytes|
        invariant Contents() == DecodeFrom(old(Contents()), done) && command == LastOf(old(command), done)
        invariant txLevel == LevelFrom(old(txLevel), done)
        invariant done + Commands(command, bytes[i..]) == Commands(old(command), bytes)
      {
        var n := Min(8, |bytes| - i);
        var next := Overwritten(command, bytes[i..i + n]);
        CommandsNext(command, bytes, i, done);
        DecodesMore(old(Contents()), done, next);
        LevelMore(old(txLevel), done, next);
        command := next;
        Execute(command);
        i, done := i + n, done + [next];
      }
      assert done + [] == done;
      Dsp48.NeverWrapsExact(txLevel);
    }
  }
}
