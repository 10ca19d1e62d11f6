/** The ring of 16-beat bursts in RAM that axis_ram_writer.v fills and
    axis_ram_reader.v reads. */
module BurstRing {
  import opened Arithmetic

  /** min_addr and cfg_data, the bytes of one bus word, and 2 to the address width */
  datatype Ring = Ring(minAddr: nat, cfg: nat, wordBytes: nat, space: nat) {
    ghost predicate Valid() { wordBytes > 0 && space > 0 }

    /** The number of words in the ring. */
    function Size(): nat { 16 * (cfg + 1) }

    /** The byte address of ring position `position`, truncated to the address width */
    function Address(position: nat): nat
      requires Valid()
    {
      (minAddr + position * 16 * wordBytes) % space
    }

    /** The address of burst k: the position counter runs from zero to cfg_data. */
    function BurstAddress(k: nat): nat
      requires Valid()
    {
      Address(k % (cfg + 1))
    }

    function BurstAddresses(n: nat): seq<nat>
      requires Valid()
    {
      seq(n, k requires 0 <= k < n => BurstAddress(k))
    }

    /** The address of word `slot` of the ring. */
    function SlotAddress(slot: nat): nat
      requires Valid()
    {
      (minAddr + slot * wordBytes) % space
    }

    /** Where an incrementing burst has beat j of its channel: the beats of every
        sixteen follow the address of their burst. */
    function BeatAddress(bursts: seq<nat>, j: nat): nat
      requires Valid() && j / 16 < |bursts|
    {
      (bursts[j / 16] + j % 16 * wordBytes) % space
    }
  }

  /** Ring position and beat number together are the slot number modulo the ring. */
  lemma {:induction false} SlotOfBeat(cfg: nat, j: nat)
    ensures j / 16 % (cfg + 1) * 16 + j % 16 == j % (16 * (cfg + 1))
  {
    var k, t := j / 16, j % 16;
    var z, q := k / (cfg + 1), k % (cfg + 1);
    assert k == z * (cfg + 1) + q;
    assert j == z * (16 * (cfg + 1)) + (q * 16 + t);
    UniqueDivision(j, 16 * (cfg + 1), z, q * 16 + t);
  }

  lemma BeatOffset(minAddr: nat, position: nat, beat: nat, slot: nat, w: nat, space: nat)
    requires space > 0 && position * 16 + beat == slot
    ensures ((minAddr + position * 16 * w) % space + beat * w) % space == (minAddr + slot * w) % space
  {
    Distribute(position * 16, beat, w);
    ModShift(minAddr + position * 16 * w, beat * w, minAddr + slot * w, space);
  }

  /** Beat j of a channel that bursts through the ring is at slot j modulo its size. */
  lemma {:induction false} BeatGoesToSlot(r: Ring, bursts: seq<nat>, j: nat)
    requires r.Valid() && j / 16 < |bursts| && bursts[j / 16] == r.BurstAddress(j / 16)
    ensures r.BeatAddress(bursts, j) == r.SlotAddress(j % r.Size())
  {
    var position, beat, slot := j / 16 % (r.cfg + 1), j % 16, j % r.Size();
    assert position * 16 + beat == slot by {
      SlotOfBeat(r.cfg, j);
    }
    BeatOffset(r.minAddr, position, beat, slot, r.wordBytes, r.space);
    var burst := (r.minAddr + position * 16 * r.wordBytes) % r.space;
    assert r.BeatAddress(bursts, j) == (burst + beat * r.wordBytes) % r.space;
  }

  lemma Offsets(minAddr: nat, i: nat, k: nat, size: nat, w: nat, space: nat)
    requires w > 0 && i < k < size && size * w <= space
    ensures minAddr + i * w < minAddr + k * w < minAddr + i * w + space
  {
    Apart(k, i, w);
    Apart(size, k, w);
    assert i * w >= 0;
  }

  lemma {:induction false} SlotsDiffer(r: Ring, i: nat, k: nat)
    requires r.Valid() && i < k < r.Size() && r.Size() * r.wordBytes <= r.space
    ensures r.SlotAddress(i) != r.SlotAddress(k)
  {
    Offsets(r.minAddr, i, k, r.Size(), r.wordBytes, r.space);
    DistinctMod(r.minAddr + i * r.wordBytes, r.minAddr + k * r.wordBytes, r.space);
  }
}
