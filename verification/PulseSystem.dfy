/** The pulse path end to end: calls of the client, commands on the socket, the table
    of the server, the transmit FIFO and the gate controller. */
module PulseSystem {
  import opened Arithmetic
  import opened AxisGateController
  import opened LittleEndian
  import opened PulseClient
  import opened PulseEntries
  import opened PulseSequence
  import opened PulseServer
  import opened Streams

  /** What the user asked for with one call. */
  function Wanted(c: Call): Output
    requires InRange(c)
  {
    match c
    case Delay(gate, _) => Output(gate == 1, 0, 0)
    case Pulse(level, phase, _) => Output(true, level, phase)
  }

  /** The waveform the calls describe: each output for exactly `width` cycles. */
  function Waveform(calls: seq<Call>): seq<Output>
    requires forall i :: 0 <= i < |calls| ==> InRange(calls[i])
  {
    if calls == [] then []
    else
      var c := calls[0];
      assert InRange(c);
      Repeat(c.width, Wanted(c)) + Waveform(calls[1..])
  }

  lemma FieldsPlayAsWanted(c: Call)
    requires InRange(c)
    ensures OutputOf(Fields(SlotOf(c))) == Wanted(c)
    ensures SlotOf(c).count + 1 == c.width
  {
    if c.Pulse? {
      assert SlotOf(c).fields / 0x1_0000_0000 == 0x1_0000 + c.level;
    }
  }

  lemma {:induction false} ExpandsToWaveform(calls: seq<Call>)
    requires forall i :: 0 <= i < |calls| ==> InRange(calls[i])
    ensures Expand(SlotsOf(calls)) == Waveform(calls)
  {
    if calls != [] {
      FieldsPlayAsWanted(calls[0]);
      ExpandsToWaveform(calls[1..]);
      assert SlotsOf(calls)[1..] == SlotsOf(calls[1..]);
    }
  }

  /** Every level of 16 bits, phase of 32 bits and width of up to 2^60 can be asked for, and
      stands for exactly that output, for exactly that many clocks. */
  lemma {:induction false} OnePulse(level: int, phase: int, width: int)
    requires 0 <= level < 65536 && 0 <= phase < 0x1_0000_0000 && 1 <= width <= 0x1000_0000_0000_0000
    ensures InRange(Pulse(level, phase, width))
    ensures Expand([SlotOf(Pulse(level, phase, width))]) == seq(width, _ => Output(true, level, phase))
  {
    FieldsPlayAsWanted(Pulse(level, phase, width));
    assert [SlotOf(Pulse(level, phase, width))][1..] == [];
  }

  lemma {:induction false} OneDelay(open: bool, width: int)
    requires 1 <= width <= 0x1000_0000_0000_0000
    ensures var c := Delay(if open then 1 else 0, width);
            InRange(c) && Expand([SlotOf(c)]) == seq(width, _ => Output(open, 0, 0))
  {
    var c := Delay(if open then 1 else 0, width);
    FieldsPlayAsWanted(c);
    assert [SlotOf(c)][1..] == [];
  }

  /** What the gate controller receives: the client's bytes, received and decoded by
      the server, laid out in its array, and paired up by the FIFO. */
  function Loaded(calls: seq<Call>): seq<Slot>
    requires forall i :: 0 <= i < |calls| ==> InRange(calls[i])
  {
    var table := DecodeAll(Received(BytesOf([7 * CODE] + CommandsOf(calls))));
    if table.Table? then Assemble(Words(table.slots)) else []
  }

  lemma {:induction false} CommandsPack(calls: seq<Call>)
    requires forall i :: 0 <= i < |calls| ==> InRange(calls[i])
    ensures forall i :: 0 <= i < |CommandsOf(calls)| ==> Packs(CommandsOf(calls)[i])
  {
    if calls != [] {
      CommandsPack(calls[..|calls| - 1]);
    }
  }

  /** Clearing first makes the table that of the commands that follow. */
  lemma {:induction false} ClearedFirst(commands: seq<nat>)
    ensures DecodeAll([7 * CODE] + commands) == DecodeAll(commands)
  {
    if commands == [] {
      assert [7 * CODE] + commands == [7 * CODE];
      CodeAndData(7, 0);
      assert DecodeAll([7 * CODE][..0]) == Table([]);
    } else {
      var before := commands[..|commands| - 1];
      ClearedFirst(before);
      assert ([7 * CODE] + commands)[..|commands|] == [7 * CODE] + before;
    }
  }

  lemma LoadsEntries(calls: seq<Call>)
    requires forall i :: 0 <= i < |calls| ==> InRange(calls[i])
    ensures Loaded(calls) == Clipped(SlotsOf(calls))
  {
    var commands := [7 * CODE] + CommandsOf(calls);
    CommandsPack(calls);
    ReceivesSent(commands, []);
    assert BytesOf(commands) + [] == BytesOf(commands);
    assert Received(BytesOf(commands)) == commands;
    ClearedFirst(CommandsOf(calls));
    DecodesCalls(calls);
    AssembleWords(Clipped(SlotsOf(calls)));
  }

  /** The compilation preserves meaning. For every list of calls in range that fits
      the table, and however the FIFO interrupts it, the cycles in which the gate
      controller plays show the waveform the calls describe, from its start, with
      level and phase; in all other cycles the gate is closed. */
  lemma CompilesFaithfully(calls: seq<Call>, offers: seq<bool>)
    requires forall i :: 0 <= i < |calls| ==> InRange(calls[i])
    requires |calls| <= LIMIT
    ensures var s := Play(Loaded(calls), offers);
            && s.played <= Waveform(calls)
            && |s.played| + |s.idle| == |offers|
            && forall i :: 0 <= i < |s.idle| ==> !s.idle[i].dout
  {
    LoadsEntries(calls);
    ExpandsToWaveform(calls);
    PlaysWaveform(Loaded(calls), offers);
  }

  /** Without interruptions the waveform is exact cycle by cycle. */
  lemma {:induction false} CompilesExactly(calls: seq<Call>, offers: seq<bool>)
    requires forall i :: 0 <= i < |calls| ==> InRange(calls[i])
    requires |calls| <= LIMIT && Supplied(Loaded(calls), offers)
    ensures var s := Play(Loaded(calls), offers);
            && (|offers| <= |Waveform(calls)| ==> s.played == Waveform(calls)[..|offers|])
            && (|offers| > |Waveform(calls)| ==> s.played == Waveform(calls))
  {
    LoadsEntries(calls);
    ExpandsToWaveform(calls);
    NoGaps(Loaded(calls), offers);
  }

  // ---------- What the loop has written so far ----------

  lemma {:induction false} AssembleFront(words: seq<nat>, s: Slot)
    requires |words| >= 4 && words[..4] == SlotWords(s)
    ensures Assemble(words) == [s] + Assemble(words[4..])
  {
    assert words[0] == words[..4][0] && words[1] == words[..4][1];
    assert words[2] == words[..4][2] && words[3] == words[..4][3];
  }

  lemma {:induction false} AssemblePrefix(slots: seq<Slot>, words: seq<nat>)
    requires words <= Words(slots)
    ensures Assemble(words) <= slots
  {
    if |words| >= 4 {
      WordsFront(slots);
      var rest := Words(slots[1..]);
      assert words[4..] <= rest;
      AssemblePrefix(slots[1..], words[4..]);
      assert words[..4] == SlotWords(slots[0]);
      AssembleFront(words, slots[0]);
      assert slots == [slots[0]] + slots[1..];
    }
  }

  lemma {:induction false} ExpandJoins(a: seq<Slot>, b: seq<Slot>)
    ensures Expand(a + b) == Expand(a) + Expand(b)
  {
    if a == [] {
      assert a + b == b;
    } else {
      ExpandJoins(a[1..], b);
      assert (a + b)[1..] == a[1..] + b;
      Regroup(Repeat(a[0].count + 1, OutputOf(Fields(a[0]))), Expand(a[1..]), Expand(b));
    }
  }

  /** However much of the table the loop has written, what plays is the start of the
      waveform. */
  lemma {:induction false} PlaysPrefix(calls: seq<Call>, words: seq<nat>, offers: seq<bool>)
    requires forall i :: 0 <= i < |calls| ==> InRange(calls[i])
    requires words <= Words(SlotsOf(calls))
    ensures PlaysStart(calls, words, offers)
  {
    var slots, written := SlotsOf(calls), Assemble(words);
    AssemblePrefix(slots, words);
    assert slots == written + slots[|written|..];
    ExpandJoins(written, slots[|written|..]);
    ExpandsToWaveform(calls);
    PlaysWaveform(written, offers);
  }

  ghost predicate PlaysStart(calls: seq<Call>, words: seq<nat>, offers: seq<bool>)
    requires forall i :: 0 <= i < |calls| ==> InRange(calls[i])
  {
    var s := Play(Assemble(words), offers);
    && s.played <= Waveform(calls)
    && |s.played| + |s.idle| == |offers|
    && forall i :: 0 <= i < |s.idle| ==> !s.idle[i].dout
  }

  lemma CommandsMore(calls: seq<Call>, i: nat)
    requires (forall k :: 0 <= k < |calls| ==> InRange(calls[k])) && i < |calls|
    ensures BytesOf([7 * CODE] + CommandsOf(calls[..i + 1]))
            == BytesOf([7 * CODE] + CommandsOf(calls[..i]))
               + ToBytes(CountCommand(calls[i]), 8) + ToBytes(FieldsCommand(calls[i]), 8)
  {
    var before, c := [7 * CODE] + CommandsOf(calls[..i]), calls[i];
    var a, b := 8 * CODE + SlotOf(c).count, 9 * CODE + SlotOf(c).fields;
    CommandsOfCall(c);
    assert calls[..i + 1][..i] == calls[..i];
    var after := [7 * CODE] + CommandsOf(calls[..i + 1]);
    assert after == (before + [a]) + [b];
    assert after[..|after| - 1] == before + [a] && (before + [a])[..|before|] == before;
  }

  /** The table after the client's bytes. */
  lemma {:induction false} TableReceived(calls: seq<Call>)
    requires (forall i :: 0 <= i < |calls| ==> InRange(calls[i])) && |calls| <= LIMIT
    ensures DecodeAll(Received(BytesOf([7 * CODE] + CommandsOf(calls)))) == Table(SlotsOf(calls))
  {
    var commands := [7 * CODE] + CommandsOf(calls);
    CommandsPack(calls);
    ReceivesSent(commands, []);
    assert BytesOf(commands) + [] == BytesOf(commands);
    assert Received(BytesOf(commands)) == commands;
    ClearedFirst(CommandsOf(calls));
    DecodesCalls(calls);
  }

  lemma {:induction false} BytesOfLength(commands: seq<nat>)
    ensures |BytesOf(commands)| == 8 * |commands|
  {
    if commands != [] {
      BytesOfLength(commands[..|commands| - 1]);
    }
  }

  /** Whole commands come as they were sent, whatever the server received before. */
  lemma {:induction false} WholeCommands(command: nat, commands: seq<nat>)
    ensures Commands(command, BytesOf(commands)) == Received(BytesOf(commands))
  {
    BytesOfLength(commands);
    RemainderLength(BytesOf(commands));
    CommandsOfBytes(command, BytesOf(commands));
    assert Received(BytesOf(commands)) + [] == Received(BytesOf(commands));
  }

  /** A connected client clears the pulses and adds its calls. */
  method SendCalls(calls: seq<Call>) returns (socket: seq<byte>)
    requires forall i :: 0 <= i < |calls| ==> InRange(calls[i])
    ensures socket == BytesOf([7 * CODE] + CommandsOf(calls))
  {
    var client := new Client();
    client.idle := false;
    var ok := client.ClearPulses();
    assert [7 * CODE] + CommandsOf(calls[..0]) == [7 * CODE] && BytesOf([7 * CODE]) == ToBytes(7 * CODE, 8);
    for i := 0 to |calls|
      invariant !client.idle && client.socket == BytesOf([7 * CODE] + CommandsOf(calls[..i]))
    {
      CommandsMore(calls, i);
      AddedBytes(calls[i]);
      ok := client.Add(calls[i]);
    }
    assert calls[..|calls|] == calls;
    socket := client.socket;
  }

  /** The words of the array of a server that has received these bytes, whatever its
      command variable held. */
  method ReceiveCalls(ghost calls: seq<Call>, bytes: seq<byte>, command: nat) returns (words: seq<nat>)
    requires (forall i :: 0 <= i < |calls| ==> InRange(calls[i])) && |calls| <= LIMIT
    requires bytes == BytesOf([7 * CODE] + CommandsOf(calls))
    ensures words == Words(SlotsOf(calls))
  {
    var server := new Server(command);
    server.Serve(bytes);
    WholeCommands(command, [7 * CODE] + CommandsOf(calls));
    TableReceived(calls);
    words := server.pulses[..4 * server.size];
  }

  /** With all of the table written the whole waveform plays, and exactly, when the gate
      always finds an entry. */
  ghost predicate PlaysWhole(calls: seq<Call>, words: seq<nat>, offers: seq<bool>)
    requires forall i :: 0 <= i < |calls| ==> InRange(calls[i])
  {
    Supplied(Assemble(words), offers) ==>
      Play(Assemble(words), offers).played == Waveform(calls)[..Min(|offers|, |Waveform(calls)|)]
  }

  lemma {:induction false} PlaysToEnd(calls: seq<Call>, words: seq<nat>, offers: seq<bool>)
    requires (forall i :: 0 <= i < |calls| ==> InRange(calls[i])) && words == Words(SlotsOf(calls))
    ensures PlaysWhole(calls, words, offers)
  {
    AssembleWords(SlotsOf(calls));
    if Supplied(Assemble(words), offers) {
      ExpandsToWaveform(calls);
      NoGaps(Assemble(words), offers);
    }
  }

  /** The whole of a sequence: the client's calls, the server's table, and its loop.
      Whatever the loop has written and however the FIFO interrupts, the gate plays the
      start of the waveform that the calls describe. At most 4096 calls are written
      before the start. A table of any size is written to its end if and only if the
      last iteration has room at every word, for a FIFO that drains; then the gate
      plays the waveform to its end. */
  method Perform<S>(calls: seq<Call>, env: Environment<S>, data: nat, command: nat)
    returns (sent: seq<S>, ghost chunks: seq<Chunk>, tx: seq<nat>, ghost fills: seq<nat>, started: bool)
    requires forall i :: 0 <= i < |calls| ==> InRange(calls[i])
    requires |calls| <= LIMIT && KeepsFilling(env)
    ensures Sent(env, data, sent, chunks) && |sent| == SamplesAfter(env, data, |fills|)
    ensures (|sent| == data || !env.sendOk(|fills|)) && (started <==> fills != [])
    ensures forall offers :: PlaysStart(calls, tx, offers)
    ensures started && CountsWrites(env) && |calls| <= 4096 ==> fills[0] == 4 * |calls|
    ensures Fills(env, 4 * |calls|, fills) && Written(fills) <= 4 * |calls|
    ensures tx == Words(SlotsOf(calls)) <==> Written(fills) == 4 * |calls|
    ensures started && Drains(env) ==>
              (tx == Words(SlotsOf(calls)) <==> RoomFor(env, |fills| - 1, 0, 4 * |calls|))
    ensures tx == Words(SlotsOf(calls)) ==> forall offers :: PlaysWhole(calls, tx, offers)
  {
    var bytes := SendCalls(calls);
    var words := ReceiveCalls(calls, bytes, command);
    sent, chunks, tx, fills, started := StartSequence(env, data, words);
    forall offers ensures PlaysStart(calls, tx, offers) {
      PlaysPrefix(calls, tx, offers);
    }
    if started && Drains(env) {
      WritesAllExactly(env, |words|, fills);
    }
    if tx == words {
      forall offers ensures PlaysWhole(calls, tx, offers) {
        PlaysToEnd(calls, tx, offers);
      }
    }
  }
}
