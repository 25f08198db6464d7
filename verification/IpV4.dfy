/** Building an outgoing IPv4 packet in place. */
module IpV4 {
  import opened Bytes
  import opened Checksum

  const HEADER: nat := 20
  const CHECKSUM_FIELD: nat := 10

  /** A field as the network reads it: most significant byte first. */
  function NetworkWord(data: seq<u8>, k: nat): int
    requires k + 1 < |data|
  {
    var high: int := data[k];
    0x100 * high + data[k + 1]
  }

  /** The header that section 3.1 of RFC 791 lays out, without options, as this kernel fills it in. */
  ghost predicate HeaderOf(h: seq<u8>, length: nat, id: u16, protocol: u8, src: seq<u8>, dst: seq<u8>) {
    && |h| == HEADER
    && h[0] == 0x45 && h[1] == 0 && NetworkWord(h, 2) == length % 0x1_0000 && NetworkWord(h, 4) == id
    && NetworkWord(h, 6) == 0x4000 && h[8] == 64 && h[9] == protocol
    && h[12..16] == src && h[16..20] == dst
  }

  class Sender {
    var nextId: u16

    constructor ()
      ensures nextId == 0
    {
      nextId := 0;
    }

    /** A flipped 16-bit field is stored in the byte order of this machine. */
    static method StoreFlipped(packet: array<u8>, k: nat, v: u16)
      requires k + 1 < packet.Length
      modifies packet
      ensures packet[..] == old(packet[..])[k := v / 0x100][k + 1 := v % 0x100]
    {
      var w := Swapped(v);
      packet[k] := w % 0x100;
      packet[k + 1] := w / 0x100;
    }

    static method StoreBytes(packet: array<u8>, k: nat, data: seq<u8>)
      requires k + |data| <= packet.Length
      modifies packet
      ensures packet[..] == old(packet[..k]) + data + old(packet[k + |data|..])
    {
      var i := 0;
      while i < |data|
        invariant 0 <= i <= |data|
        invariant forall j :: 0 <= j < i ==> packet[k + j] == data[j]
        invariant forall j :: 0 <= j < packet.Length && !(k <= j < k + i) ==> packet[j] == old(packet[j])
      {
        packet[k + i] := data[i];
        i := i + 1;
      }
    }

    /**
     * `send` up to the hand-over to Ethernet: header fields in network order, the payload behind them, a header
     * checksum that verifies, and a fresh identifier (modulo 2^16) for each packet.
     */
    method BuildPacket(protocol: u8, src: seq<u8>, dst: seq<u8>, payload: seq<u8>) returns (packet: array<u8>)
      requires |src| == 4 && |dst| == 4
      modifies this
      ensures fresh(packet) && packet.Length == HEADER + |payload|
      ensures nextId == (old(nextId) + 1) % 0x1_0000
      ensures packet[HEADER..] == payload
      ensures HeaderOf(packet[..HEADER], HEADER + |payload|, old(nextId), protocol, src, dst)
      ensures InternetChecksum(packet[..HEADER]) == 0
      ensures Folded(0, SwappedWords(Words(packet[..HEADER], 0))) == 0xFFFF
    {
      hide InternetChecksum, Folded, Words, WordAt, SwappedWords;
      packet := new u8[HEADER + |payload|](_ => 0);
      FillHeader(packet, HEADER + |payload|, nextId, protocol, src, dst);
      nextId := (nextId + 1) % 0x1_0000;
      StoreBytes(packet, HEADER, payload);
      ghost var header := packet[..HEADER];
      assert HeaderOf(header, HEADER + |payload|, old(nextId), protocol, src, dst) && header[10] == 0 && header[11] == 0;
      var c := Compute(packet, HEADER);
      packet[CHECKSUM_FIELD] := c % 0x100;
      packet[CHECKSUM_FIELD + 1] := c / 0x100;
      assert packet[..HEADER] == PutWord(header, CHECKSUM_FIELD, c);
      ZeroField(header, CHECKSUM_FIELD);
      StoredChecksumVerifies(header, CHECKSUM_FIELD);
      ByteOrderDoesNotMatter(packet[..HEADER]);
      HeaderKept(header, packet[..HEADER], HEADER + |payload|, old(nextId), protocol, src, dst);
    }

    /** The header structure, its checksum still 0. */
    static method FillHeader(packet: array<u8>, length: nat, id: u16, protocol: u8, src: seq<u8>, dst: seq<u8>)
      requires packet.Length >= HEADER && |src| == 4 && |dst| == 4
      requires forall i :: 0 <= i < packet.Length ==> packet[i] == 0
      modifies packet
      ensures HeaderOf(packet[..HEADER], length, id, protocol, src, dst) && packet[10] == 0 && packet[11] == 0
    {
      packet[0] := 0x45;
      StoreFlipped(packet, 2, length % 0x1_0000);
      StoreFlipped(packet, 4, id);
      StoreFlipped(packet, 6, 0x4000);
      packet[8] := 64;
      packet[9] := protocol;
      StoreBytes(packet, 12, src);
      StoreBytes(packet, 16, dst);
    }
  }

  lemma ZeroField(data: seq<u8>, k: nat)
    requires Field(data, k) && data[k] == 0 && data[k + 1] == 0
    ensures WordAt(data, k) == 0
  {
  }

  lemma HeaderKept(h: seq<u8>, h': seq<u8>, length: nat, id: u16, protocol: u8, src: seq<u8>, dst: seq<u8>)
    requires HeaderOf(h, length, id, protocol, src, dst) && |h'| == |h|
    requires forall i :: 0 <= i < |h| && i != CHECKSUM_FIELD && i != CHECKSUM_FIELD + 1 ==> h'[i] == h[i]
    ensures HeaderOf(h', length, id, protocol, src, dst)
  {
  }
}
