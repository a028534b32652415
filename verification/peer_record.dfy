/** The record a node keeps about each known peer (pex.py lines 95-110):
    its identifier, its address, and a 16-bit counter that hands out packet
    ids 0, 1, ..., 65535, 0, ... */
module PeerRecords {
  import opened Swarm
  import opened Codec

  /** Packet ids live modulo 2^16. */
  const PACKET_ID_MODULUS: nat := 0x1_0000

  datatype PeerRecord = PeerRecord(identifier: PeerId, address: Address, nextPacketId: uint16)

  /** _PeerRecord.__init__: the counter starts at 0. */
  function NewRecord(identifier: PeerId, address: Address): PeerRecord
  {
    PeerRecord(identifier, address, 0)
  }

  /** A packet id handed out, and the record after handing it out. */
  datatype Generated = Generated(packetId: uint16, record: PeerRecord)

  /** generateNextPacketId: hand out the current counter and advance it,
      wrapping from 65535 back to 0; identifier and address stay. */
  function GenerateNextPacketId(r: PeerRecord): (g: Generated)
    ensures g.packetId == r.nextPacketId
    ensures g.record.identifier == r.identifier && g.record.address == r.address
    ensures g.record.nextPacketId == (g.packetId + 1) % PACKET_ID_MODULUS
  {
    Generated(r.nextPacketId, r.(nextPacketId := (r.nextPacketId + 1) % PACKET_ID_MODULUS))
  }

  /** The ids handed out by k successive calls, and the record afterwards. */
  datatype Run = Run(ids: seq<uint16>, record: PeerRecord)

  function GenerateMany(r: PeerRecord, k: nat): (run: Run)
    ensures |run.ids| == k
    decreases k
  {
    if k == 0 then Run([], r)
    else
      var g := GenerateNextPacketId(r);
      var rest := GenerateMany(g.record, k - 1);
      Run([g.packetId] + rest.ids, rest.record)
  }

  /** The j-th of k successive calls returns the starting counter plus j,
      modulo 2^16, and the counter ends k steps further on. */
  lemma {:induction false} GenerateManyCounts(r: PeerRecord, k: nat)
    ensures var run := GenerateMany(r, k);
      && |run.ids| == k
      && (forall j :: 0 <= j < k ==> run.ids[j] == (r.nextPacketId + j) % PACKET_ID_MODULUS)
      && run.record == r.(nextPacketId := (r.nextPacketId + k) % PACKET_ID_MODULUS)
    decreases k
  {
    if k > 0 {
      var g := GenerateNextPacketId(r);
      GenerateManyCounts(g.record, k - 1);
      var rest := GenerateMany(g.record, k - 1);
      var run := GenerateMany(r, k);
      forall j | 0 <= j < k
        ensures run.ids[j] == (r.nextPacketId + j) % PACKET_ID_MODULUS
      {
        if j > 0 {
          assert run.ids[j] == rest.ids[j - 1];
          ShiftMod(r.nextPacketId, j - 1);
        }
      }
      ShiftMod(r.nextPacketId, k - 1);
    }
  }

  lemma ShiftMod(c: nat, j: nat)
    ensures ((c + 1) % PACKET_ID_MODULUS + j) % PACKET_ID_MODULUS == (c + j + 1) % PACKET_ID_MODULUS
  {
  }

  /** A fresh record hands out 0, 1, ..., 65535, 0, 1, ...: the j-th id is
      j modulo 2^16. */
  lemma FreshRecordCycles(identifier: PeerId, address: Address, k: nat)
    ensures var run := GenerateMany(NewRecord(identifier, address), k);
      forall j :: 0 <= j < k ==> run.ids[j] == j % PACKET_ID_MODULUS
  {
    GenerateManyCounts(NewRecord(identifier, address), k);
  }

  /** Two calls fewer than 65536 calls apart never hand out the same id. */
  lemma NoRepeatWithinCycle(r: PeerRecord, k: nat, i: nat, j: nat)
    requires i < j < k
    requires j - i < PACKET_ID_MODULUS
    ensures GenerateMany(r, k).ids[i] != GenerateMany(r, k).ids[j]
  {
    GenerateManyCounts(r, k);
    var c := r.nextPacketId as nat;
    ModDistinct(c + i, c + j);
  }

  /** Numbers fewer than 2^16 apart have different residues modulo 2^16. */
  lemma ModDistinct(a: nat, b: nat)
    requires a < b < a + PACKET_ID_MODULUS
    ensures a % PACKET_ID_MODULUS != b % PACKET_ID_MODULUS
  {
  }
}
