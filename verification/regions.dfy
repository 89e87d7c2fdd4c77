/** How the DMA buffer is laid out: four regions of slots, seen by the CPU and by the AXI bus. */
module Regions {
  import opened Ring

  const DESC_SIZE: nat := 0x40
  const PACKET_SIZE: nat := 0x410
  const MAX_EGRESS_PACKETS: nat := 4
  const BUFFER_SIZE: nat := 0x40000

  datatype Region = Region(axiBase: nat, buffer: nat, bufferSize: nat, packetSize: nat) {
    function Buffer(index: nat): nat {
      buffer + packetSize * index
    }

    function AxiAddr(index: nat): nat {
      axiBase + packetSize * index
    }

    function Count(): nat
      requires packetSize > 0
    {
      bufferSize / packetSize
    }

    /** The slot after last. */
    function HsdpNext(last: int): int {
      if (last + 1) * packetSize < bufferSize then last + 1 else 0
    }
  }

  /** The layout as one expression. */
  function Layout(buffer: nat, physical: nat, n: nat): seq<Region> {
    [ Region(physical, buffer, n * DESC_SIZE, DESC_SIZE),
      Region(physical + n * DESC_SIZE, buffer + n * DESC_SIZE, n * DESC_SIZE, DESC_SIZE),
      Region(physical + 2 * n * DESC_SIZE, buffer + 2 * n * DESC_SIZE, n * PACKET_SIZE, PACKET_SIZE),
      Region(physical + 2 * n * DESC_SIZE + n * PACKET_SIZE, buffer + 2 * n * DESC_SIZE + n * PACKET_SIZE,
             n * PACKET_SIZE, PACKET_SIZE) ]
  }

  function LayoutSize(n: nat): nat {
    2 * n * DESC_SIZE + 2 * n * PACKET_SIZE
  }

  class Hsdp {
    var idesc: Region
    var edesc: Region
    var ipkts: Region
    var epkts: Region

    constructor ()
    {
      var none := Region(0, 0, 0, 0);
      idesc, edesc, ipkts, epkts := none, none, none, none;
    }

    /** The setup assigns the regions one after the other, each from the one before. */
    method Setup(buffer: nat, physical: nat, descCount: nat)
      modifies this
      ensures [idesc, edesc, ipkts, epkts] == Layout(buffer, physical, descCount)
    {
      idesc := idesc.(bufferSize := descCount * DESC_SIZE);
      idesc := idesc.(buffer := buffer);
      idesc := idesc.(axiBase := physical);
      idesc := idesc.(packetSize := DESC_SIZE);

      edesc := edesc.(bufferSize := idesc.bufferSize);
      edesc := edesc.(buffer := idesc.buffer + idesc.bufferSize);
      edesc := edesc.(axiBase := idesc.axiBase + idesc.bufferSize);
      edesc := edesc.(packetSize := idesc.packetSize);

      var packetBufferOffset := edesc.bufferSize * 2;
      ipkts := ipkts.(bufferSize := descCount * PACKET_SIZE);
      ipkts := ipkts.(buffer := buffer + packetBufferOffset);
      ipkts := ipkts.(axiBase := physical + packetBufferOffset);
      ipkts := ipkts.(packetSize := PACKET_SIZE);

      epkts := epkts.(bufferSize := ipkts.bufferSize);
      epkts := epkts.(buffer := ipkts.buffer + ipkts.bufferSize);
      epkts := epkts.(axiBase := ipkts.axiBase + ipkts.bufferSize);
      epkts := epkts.(packetSize := ipkts.packetSize);
    }
  }

  /** Every region has n slots; each slot lies inside the buffer, and the CPU and the bus see it at
      the same offset. */
  lemma SlotsAgree(buffer: nat, physical: nat, n: nat, k: nat, i: nat)
    requires k < 4 && i < n
    ensures var r := Layout(buffer, physical, n)[k];
            && r.packetSize > 0 && r.Count() == n
            && r.Buffer(i) - buffer == r.AxiAddr(i) - physical
            && buffer <= r.Buffer(i) && r.Buffer(i) + r.packetSize <= buffer + LayoutSize(n)
  {
    var r := Layout(buffer, physical, n)[k];
    if r.packetSize == DESC_SIZE {
      assert n * DESC_SIZE / DESC_SIZE == n;
    } else {
      assert n * PACKET_SIZE / PACKET_SIZE == n;
    }
  }

  /** No two slots overlap, whether of one region or of two, for the CPU or on the bus. */
  lemma SlotsDisjoint(buffer: nat, physical: nat, n: nat, k: nat, i: nat, l: nat, j: nat)
    requires k < 4 && l < 4 && i < n && j < n && (k, i) != (l, j)
    ensures var r, s := Layout(buffer, physical, n)[k], Layout(buffer, physical, n)[l];
            && (r.Buffer(i) + r.packetSize <= s.Buffer(j) || s.Buffer(j) + s.packetSize <= r.Buffer(i))
            && (r.AxiAddr(i) + r.packetSize <= s.AxiAddr(j) || s.AxiAddr(j) + s.packetSize <= r.AxiAddr(i))
  {
    SlotsAgree(buffer, physical, n, k, i);
    SlotsAgree(buffer, physical, n, l, j);
  }

  /** The slot arithmetic of HSDP_NEXT is the successor in the ring, from before the first use on. */
  lemma NextIsRingSuccessor(buffer: nat, physical: nat, n: nat, k: nat, last: int)
    requires k < 4 && n > 0 && -1 <= last < n
    ensures Layout(buffer, physical, n)[k].HsdpNext(last) == Next(n, last) == (last + 1) % n
  {
  }

  /** The slots of the two descriptor regions have 0x40 bytes, those of the two packet regions 0x410. */
  lemma SlotSizes(buffer: nat, physical: nat, n: nat, k: nat)
    requires k < 4
    ensures var r := Layout(buffer, physical, n)[k];
            r.packetSize == (if k < 2 then 0x40 else 0x410) && r.bufferSize == n * r.packetSize
            && (k >= 2 ==> r.packetSize == 4 * PACKET_WORDS)
  {
  }

  /** The layout fits the memory set aside exactly when its size says so; the shipped one does. */
  lemma ShippedLayoutFits(n: nat)
    ensures LayoutSize(n) <= BUFFER_SIZE <==> n <= 118
    ensures LayoutSize(MAX_EGRESS_PACKETS) == 2 * 4 * 0x40 + 2 * 4 * 0x410 <= BUFFER_SIZE == 0x4_0000
  {
  }
}
