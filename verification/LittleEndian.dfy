/** Unsigned numbers as bytes, least significant byte first. */
module LittleEndian {

  type byte = n: nat | n < 256

  function ToBytes(n: nat, length: nat): (bytes: seq<byte>)
    ensures |bytes| == length
  {
    if length == 0 then [] else [n % 256] + ToBytes(n / 256, length - 1)
  }

  function FromBytes(bytes: seq<byte>): nat {
    if bytes == [] then 0 else bytes[0] + 256 * FromBytes(bytes[1..])
  }

  function Limit(length: nat): nat { if length == 0 then 1 else 256 * Limit(length - 1) }

  lemma {:induction false} RoundTrip(n: nat, length: nat)
    requires n < Limit(length)
    ensures FromBytes(ToBytes(n, length)) == n
  {
    if length > 0 {
      RoundTrip(n / 256, length - 1);
      assert ToBytes(n, length)[1..] == ToBytes(n / 256, length - 1);
    }
  }
}
