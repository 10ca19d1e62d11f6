/** projects/pulsed_nmr/client/pulsed_nmr.py: pulses packed into 64-bit commands. */
module PulseClient {
  import opened LittleEndian
  import opened PulseEntries
  import opened Rounding

  /** The bitwise or of the client language. */
  function BitOr(a: nat, b: nat): nat
    decreases a + b
  {
    if a == 0 && b == 0 then 0
    else 2 * BitOr(a / 2, b / 2) + if a % 2 == 1 || b % 2 == 1 then 1 else 0
  }

  /** Or-ing signed numbers gives a negative one if either is negative. */
  function Or(a: int, b: int): int {
    if a < 0 || b < 0 then -1 else BitOr(a, b)
  }

  /** struct.pack("<Q", command) succeeds. */
  predicate Packs(command: int) { 0 <= command < 0x1_0000_0000_0000_0000 }

  const CODE := 0x1000_0000_0000_0000

  function CountCommand(c: Call): int { Or(8 * CODE, c.width - 1) }

  function FieldsCommand(c: Call): int {
    match c
    case Delay(gate, _) => Or(9 * CODE, gate * 0x1_0000_0000_0000)
    case Pulse(level, phase, _) =>
      Or(9 * CODE, Or(Or(0x1_0000_0000_0000, level * 0x1_0000_0000), phase))
  }

  lemma {:induction false} OrZero(a: nat)
    ensures BitOr(a, 0) == a
  {
    if a > 0 {
      OrZero(a / 2);
    }
  }

  /** Numbers without common bits: or is addition. */
  lemma {:induction false} OrIsSum(high: nat, k: nat, low: nat)
    requires low < Pow2(k)
    ensures BitOr(high * Pow2(k), low) == high * Pow2(k) + low
  {
    if k == 0 {
      OrZero(high);
    } else {
      var a := high * Pow2(k);
      assert a == 2 * (high * Pow2(k - 1));
      assert a / 2 == high * Pow2(k - 1) && a % 2 == 0;
      OrIsSum(high, k - 1, low / 2);
    }
  }

  lemma Powers()
    ensures Pow2(32) == 0x1_0000_0000 && Pow2(48) == 0x1_0000_0000_0000 && Pow2(60) == CODE
  {
    assert Pow2(10) == 0x400;
    assert Pow2(20) == 0x10_0000;
    assert Pow2(30) == 0x4000_0000;
    assert Pow2(40) == 0x100_0000_0000;
    assert Pow2(50) == 0x4_0000_0000_0000;
  }

  /** In range, the two commands are the code and the halves of the entry. */
  lemma CommandsOfCall(c: Call)
    requires InRange(c)
    ensures CountCommand(c) == 8 * CODE + SlotOf(c).count
    ensures FieldsCommand(c) == 9 * CODE + SlotOf(c).fields
  {
    Powers();
    OrIsSum(8, 60, c.width - 1);
    match c
    case Delay(gate, _) => OrIsSum(9, 60, gate * 0x1_0000_0000_0000);
    case Pulse(level, phase, _) =>
      OrIsSum(1, 48, level * 0x1_0000_0000);
      assert 0x1_0000_0000_0000 + level * 0x1_0000_0000 == (0x1_0000 + level) * 0x1_0000_0000;
      OrIsSum(0x1_0000 + level, 32, phase);
      OrIsSum(9, 60, 0x1_0000_0000_0000 + level * 0x1_0000_0000 + phase);
  }

  /** What a list of calls writes to the socket, in range. */
  function CommandsOf(calls: seq<Call>): seq<nat>
    requires forall i :: 0 <= i < |calls| ==> InRange(calls[i])
  {
    if calls == [] then []
    else
      var c := calls[|calls| - 1];
      CommandsOf(calls[..|calls| - 1]) + [8 * CODE + SlotOf(c).count, 9 * CODE + SlotOf(c).fields]
  }

  function BytesOf(commands: seq<nat>): seq<byte> {
    if commands == [] then [] else BytesOf(commands[..|commands| - 1]) + ToBytes(commands[|commands| - 1], 8)
  }

  /** In range nothing fails, and the bytes are those of the two commands. */
  lemma AddedBytes(c: Call)
    requires InRange(c)
    ensures Packs(CountCommand(c)) && Packs(FieldsCommand(c))
    ensures ToBytes(CountCommand(c), 8) + ToBytes(FieldsCommand(c), 8) == BytesOf(CommandsOf([c]))
  {
    CommandsOfCall(c);
    var a, b := CountCommand(c), FieldsCommand(c);
    assert CommandsOf([c]) == [a, b];
    assert BytesOf([a, b]) == BytesOf([a]) + ToBytes(b, 8) && BytesOf([a]) == ToBytes(a, 8);
  }

  class Client {
    var idle: bool
    /** Bytes written to the socket. */
    var socket: seq<byte>

    constructor ()
      ensures idle && socket == []
    {
      idle, socket := true, [];
    }

    /** struct.pack("<Q", command), which fails outside 64 bits, and a write. */
    method Write(command: int) returns (ok: bool)
      modifies this`socket
      ensures ok <==> Packs(command)
      ensures socket == if ok then old(socket) + ToBytes(command, 8) else old(socket)
    {
      ok := Packs(command);
      if ok {
        socket := socket + ToBytes(command, 8);
      }
    }

    method ClearPulses() returns (ok: bool)
      modifies this`socket
      ensures ok
      ensures socket == if idle then old(socket) else old(socket) + ToBytes(7 * CODE, 8)
    {
      if idle {
        return true;
      }
      ok := Write(7 * CODE);
    }

    /** add_delay and add_pulse. A field out of range raises an error, if it takes the
        command out of 64 bits, after the commands before it have been written. */
    method Add(c: Call) returns (ok: bool)
      modifies this`socket
      ensures idle ==> ok && socket == old(socket)
      ensures !idle ==> ok == (Packs(CountCommand(c)) && Packs(FieldsCommand(c)))
      ensures !idle && !Packs(CountCommand(c)) ==> socket == old(socket)
      ensures !idle && Packs(CountCommand(c)) && !ok ==> socket == old(socket) + ToBytes(CountCommand(c), 8)
      ensures !idle && ok ==>
                socket == old(socket) + ToBytes(CountCommand(c), 8) + ToBytes(FieldsCommand(c), 8)
    {
      if idle {
        return true;
      }
      ok := Write(CountCommand(c));
      if ok {
        ok := Write(FieldsCommand(c));
      }
    }
  }
}
