/** The two-level L1/L2 address map of a qcow2 image (src/disk/qcow2.rs). Masks and shifts
    are written as division and remainder by powers of two. */
module ClusterMap {
  import opened Common
  import opened Arith

  /** What an L2 entry says about one guest cluster. */
  datatype Mapping =
    | Data(host: nat)
    | Zero
    | Unallocated
    | Compressed(offset: nat, csize: nat)

  /** The geometry a header fixes: cluster size exponent and the L1 table. */
  datatype Geometry = Geometry(bits: nat, l1: seq<nat>)

  predicate Plausible(g: Geometry) {
    9 <= g.bits <= 21
  }

  function ClusterSize(g: Geometry): (size: nat)
    requires Plausible(g)
    ensures size >= 512 && size % 8 == 0
  {
    Pow2From9(g.bits);
    Pow2(g.bits)
  }

  function L2Entries(g: Geometry): (n: nat)
    requires Plausible(g)
    ensures n >= 64 && ClusterSize(g) == 8 * n
  {
    hide Pow2;
    ClusterSize(g) / 8
  }

  /** Bits 9 to 55: `entry & 0x00ff_ffff_ffff_fe00`. */
  function OffsetBits(entry: nat): nat {
    entry / 512 % 0x8000_0000_0000 * 512
  }

  /** Bit 62. */
  predicate IsCompressed(entry: nat) {
    entry / 0x4000_0000_0000_0000 % 2 == 1
  }

  /** Number of low bits of a compressed descriptor that hold the host offset. */
  function OffsetWidth(bits: nat): nat
    requires 9 <= bits <= 21
  {
    62 - (bits - 8)
  }

  function DecodeCompressed(bits: nat, entry: nat): (m: Mapping)
    requires 9 <= bits <= 21
    ensures m.Compressed?
  {
    hide Quot, Rem, Pow2;
    var desc := entry % 0x4000_0000_0000_0000;
    var offset := Rem(desc, Pow2(OffsetWidth(bits)));
    var sectors := Quot(desc, Pow2(OffsetWidth(bits))) + 1;
    Compressed(offset, sectors * 512 - offset % 512)
  }

  function DecodeEntry(bits: nat, entry: nat): Mapping
    requires 9 <= bits <= 21
  {
    if IsCompressed(entry) then DecodeCompressed(bits, entry)
    else if entry % 2 == 1 then Zero
    else if OffsetBits(entry) == 0 then Unallocated
    else Data(OffsetBits(entry))
  }

  /** Index of the L1 entry, and of the slot in its L2 table, that serve `guest`. */
  function L1Index(g: Geometry, guest: nat): nat
    requires Plausible(g)
  {
    hide Quot, Pow2;
    Quot(Quot(guest, ClusterSize(g)), L2Entries(g))
  }

  function L2Index(g: Geometry, guest: nat): (j: nat)
    requires Plausible(g)
    ensures j < L2Entries(g)
  {
    hide Quot, Rem, Pow2;
    Rem(Quot(guest, ClusterSize(g)), L2Entries(g))
  }

  /** The L2 table that `l1[i]` points to, or 0 when none is allocated. */
  function Table(g: Geometry, i: nat): nat {
    if i < |g.l1| then OffsetBits(g.l1[i]) else 0
  }

  /** `map_cluster` over the host's bytes; None when the L2 entry lies outside the host. */
  function MapCluster(host: seq<byte>, g: Geometry, guest: nat): Option<Mapping>
    requires Plausible(g)
  {
    MapSlot(host, g, L1Index(g, guest), L2Index(g, guest))
  }

  function MapSlot(host: seq<byte>, g: Geometry, i: nat, j: nat): Option<Mapping>
    requires Plausible(g)
  {
    var at := Table(g, i) + j * 8;
    if Table(g, i) == 0 then Some(Unallocated)
    else if at + 8 <= |host| then Some(DecodeEntry(g.bits, Be64(host[at..at + 8])))
    else None
  }

  /** Every offset inside one cluster has that cluster's mapping. */
  lemma MapIsPerCluster(host: seq<byte>, g: Geometry, guest: nat, within: nat)
    requires Plausible(g)
    requires Rem(guest, ClusterSize(g)) == 0 && within < ClusterSize(g)
    ensures MapCluster(host, g, guest + within) == MapCluster(host, g, guest)
    ensures Rem(guest + within, ClusterSize(g)) == within
  {
    hide Quot, Rem, Pow2, MapSlot;
    WithinBlock(guest, within, ClusterSize(g));
  }

  /** A run that stays in the cluster of `pos` is mapped like that cluster's start. */
  lemma RunIsOneCluster(host: seq<byte>, g: Geometry, pos: nat, k: nat)
    requires Plausible(g) && Rem(pos, ClusterSize(g)) + k < ClusterSize(g)
    ensures Rem(pos, ClusterSize(g)) <= pos
    ensures MapCluster(host, g, pos + k) == MapCluster(host, g, pos - Rem(pos, ClusterSize(g)))
    ensures Rem(pos + k, ClusterSize(g)) == Rem(pos, ClusterSize(g)) + k
  {
    hide Quot, Rem, Pow2, MapCluster;
    AlignDown(pos, ClusterSize(g));
    StayInBlock(pos, k, ClusterSize(g));
    MapIsPerCluster(host, g, pos - Rem(pos, ClusterSize(g)), Rem(pos, ClusterSize(g)) + k);
  }

  // ---- Compressed cluster descriptors ----

  /** The descriptor that stores `sectors` 512-byte sectors starting in the one that holds `offset`. */
  function EncodeCompressed(bits: nat, offset: nat, sectors: nat): nat
    requires 9 <= bits <= 21 && 1 <= sectors
  {
    hide Mul, Pow2;
    0x4000_0000_0000_0000 + Mul(sectors - 1, Pow2(OffsetWidth(bits))) + offset
  }

  lemma WidthSplits(bits: nat)
    requires 9 <= bits <= 21
    ensures Mul(Pow2(bits - 8), Pow2(OffsetWidth(bits))) == 0x4000_0000_0000_0000
    ensures Pow2(bits - 8) * 512 == 2 * Pow2(bits)
  {
    Pow2Add(bits - 8, OffsetWidth(bits));
    Pow2From9(bits + 1);
    Pow2Of62();
  }

  lemma Pow2Of62()
    ensures Pow2(62) == 0x4000_0000_0000_0000
  {
    assert Pow2(10) == 1024;
    Pow2Add(10, 10);
    Pow2Add(20, 10);
    Pow2Add(30, 30);
    Pow2Add(60, 2);
  }

  lemma HighBitOnly(low: nat)
    requires low < 0x4000_0000_0000_0000
    ensures IsCompressed(0x4000_0000_0000_0000 + low)
    ensures (0x4000_0000_0000_0000 + low) % 0x4000_0000_0000_0000 == low
  {
  }

  /** Decoding undoes encoding, for every offset and sector count the fields can hold. */
  lemma DecodeUndoesEncode(bits: nat, offset: nat, sectors: nat)
    requires 9 <= bits <= 21
    requires offset < Pow2(OffsetWidth(bits)) && 1 <= sectors <= Pow2(bits - 8)
    ensures DecodeEntry(bits, EncodeCompressed(bits, offset, sectors))
            == Compressed(offset, sectors * 512 - offset % 512)
  {
    hide Mul, Quot, Rem, Pow2, IsCompressed;
    WidthSplits(bits);
    SplitBound(sectors - 1, Pow2(OffsetWidth(bits)), offset, Pow2(bits - 8));
    Split(sectors - 1, Pow2(OffsetWidth(bits)), offset);
    HighBitOnly(Mul(sectors - 1, Pow2(OffsetWidth(bits))) + offset);
  }

  lemma SectorArithmetic(offset: nat, sectors: nat)
    requires sectors >= 1
    ensures 1 <= sectors * 512 - offset % 512 <= sectors * 512
    ensures (offset + (sectors * 512 - offset % 512)) % 512 == 0
    ensures (sectors * 512 - offset % 512 + offset % 512) / 512 == sectors
  {
  }

  /** Every compressed entry decodes to a size between one byte and two clusters that ends on a
      sector boundary, and encoding the decoded fields restores the descriptor bits. */
  lemma CompressedBounds(bits: nat, entry: nat)
    requires 9 <= bits <= 21 && IsCompressed(entry)
    ensures var m := DecodeEntry(bits, entry);
            && m.Compressed?
            && m.offset < Pow2(OffsetWidth(bits))
            && 1 <= m.csize <= 2 * Pow2(bits)
            && (m.offset + m.csize) % 512 == 0
            && EncodeCompressed(bits, m.offset, (m.csize + m.offset % 512) / 512)
               == 0x4000_0000_0000_0000 + entry % 0x4000_0000_0000_0000
  {
    hide Mul, Quot, Rem, Pow2;
    WidthSplits(bits);
    var desc := entry % 0x4000_0000_0000_0000;
    var w := Pow2(OffsetWidth(bits));
    Rebuild(desc, w);
    QuotBound(desc, w, Pow2(bits - 8));
    SectorArithmetic(Rem(desc, w), Quot(desc, w) + 1);
  }

  // ---- Uncompressed entries ----

  /** An entry by its fields: the copied flag (bit 63), reserved bits 56 to 61, a host offset of `q`
      sectors, reserved bits 1 to 8, and the zero flag (bit 0). */
  function EntryOf(copied: nat, reserved: nat, q: nat, low: nat, zero: nat): nat {
    copied * 0x8000_0000_0000_0000 + reserved * 0x100_0000_0000_0000 + q * 512 + low * 2 + zero
  }

  lemma FieldsOfEntry(copied: nat, reserved: nat, q: nat, low: nat, zero: nat)
    requires copied <= 1 && reserved < 64 && q < 0x8000_0000_0000 && low < 256 && zero <= 1
    ensures var e := EntryOf(copied, reserved, q, low, zero);
            e < 0x1_0000_0000_0000_0000 && OffsetBits(e) == 512 * q && !IsCompressed(e) && e % 2 == zero
  {
    var e := EntryOf(copied, reserved, q, low, zero);
    DivUnique(e, 512, copied * 0x40_0000_0000_0000 + reserved * 0x8000_0000_0000 + q, low * 2 + zero);
    DivUnique(e / 512, 0x8000_0000_0000, copied * 128 + reserved, q);
    DivUnique(e, 0x4000_0000_0000_0000, copied * 2, reserved * 0x100_0000_0000_0000 + q * 512 + low * 2 + zero);
    DivUnique(e, 2, copied * 0x4000_0000_0000_0000 + reserved * 0x80_0000_0000_0000 + q * 256 + low, zero);
  }

  /** What an uncompressed entry says: the zero flag beats the offset, offset zero means nothing is
      allocated, any other offset is where the data lies; the other bits mean nothing. */
  lemma EntryMeans(bits: nat, copied: nat, reserved: nat, q: nat, low: nat, zero: nat)
    requires 9 <= bits <= 21 && copied <= 1 && reserved < 64 && q < 0x8000_0000_0000 && low < 256 && zero <= 1
    ensures DecodeEntry(bits, EntryOf(copied, reserved, q, low, zero)) ==
            if zero == 1 then Zero else if q == 0 then Unallocated else Data(512 * q)
  {
    hide OffsetBits, IsCompressed, EntryOf;
    FieldsOfEntry(copied, reserved, q, low, zero);
  }

  /** An L1 entry points `q` sectors into the file; no table is there when it points to the start. */
  lemma TableMeans(g: Geometry, i: nat, copied: nat, reserved: nat, q: nat, low: nat, zero: nat)
    requires copied <= 1 && reserved < 64 && q < 0x8000_0000_0000 && low < 256 && zero <= 1
    requires i < |g.l1| && g.l1[i] == EntryOf(copied, reserved, q, low, zero)
    ensures Table(g, i) == 512 * q
  {
    FieldsOfEntry(copied, reserved, q, low, zero);
  }

  /** Behind the L1 table, and where it points to no table, nothing is allocated; elsewhere the
      mapping is what the eight bytes of the slot say. */
  lemma SlotMeans(host: seq<byte>, g: Geometry, i: nat, j: nat, entry: nat)
    requires Plausible(g) && j < L2Entries(g) && entry < 0x1_0000_0000_0000_0000
    ensures i >= |g.l1| ==> MapCluster(host, g, GuestOf(g, i, j)) == Some(Unallocated)
    ensures i < |g.l1| && Table(g, i) == 0 ==> MapCluster(host, g, GuestOf(g, i, j)) == Some(Unallocated)
    ensures var at := Table(g, i) + 8 * j;
            Table(g, i) != 0 && at + 8 <= |host| && host[at..at + 8] == ToBe(entry, 8) ==>
              MapCluster(host, g, GuestOf(g, i, j)) == Some(DecodeEntry(g.bits, entry))
  {
    hide Pow2, L1Index, L2Index, DecodeEntry, OffsetBits, Be64, ToBe, GuestOf;
    SlotOfGuest(g, i, j);
    Reads64(entry);
  }

  // ---- The index bijection between guest clusters and L2 slots ----

  /** The first guest byte served by slot `j` of the table that `l1[i]` points to. */
  function GuestOf(g: Geometry, i: nat, j: nat): nat
    requires Plausible(g)
  {
    hide Mul, Pow2;
    Mul(Mul(i, L2Entries(g)) + j, ClusterSize(g))
  }

  /** Slot (i, j) serves exactly the guest cluster at GuestOf(i, j). */
  lemma SlotOfGuest(g: Geometry, i: nat, j: nat)
    requires Plausible(g) && j < L2Entries(g)
    ensures Rem(GuestOf(g, i, j), ClusterSize(g)) == 0
    ensures L1Index(g, GuestOf(g, i, j)) == i && L2Index(g, GuestOf(g, i, j)) == j
  {
    hide Mul, Quot, Rem, Pow2;
    Split(Mul(i, L2Entries(g)) + j, ClusterSize(g), 0);
    Split(i, L2Entries(g), j);
  }

  /** Every cluster-aligned guest offset is the one its slot serves. */
  lemma GuestOfSlot(g: Geometry, guest: nat)
    requires Plausible(g) && Rem(guest, ClusterSize(g)) == 0
    ensures guest == GuestOf(g, L1Index(g, guest), L2Index(g, guest))
  {
    hide Mul, Quot, Rem, Pow2;
    Rebuild(guest, ClusterSize(g));
    Rebuild(Quot(guest, ClusterSize(g)), L2Entries(g));
  }

  // ---- Which clusters are compressed ----

  predicate CompressedAt(host: seq<byte>, g: Geometry, guest: nat)
    requires Plausible(g)
  {
    var m := MapCluster(host, g, guest);
    m.Some? && m.value.Compressed?
  }

  predicate CompressedSlot(host: seq<byte>, g: Geometry, i: nat, j: nat)
    requires Plausible(g)
  {
    var m := MapSlot(host, g, i, j);
    m.Some? && m.value.Compressed?
  }

  /** No slot of the first `n` tables is compressed. */
  ghost predicate PlainTables(host: seq<byte>, g: Geometry, n: nat)
    requires Plausible(g)
  {
    forall i, j :: 0 <= i < n && 0 <= j < L2Entries(g) ==> !CompressedSlot(host, g, i, j)
  }

  /** A table read as one cluster shows in its `j`-th entry whether slot `j` is compressed. */
  lemma SlotInTable(host: seq<byte>, g: Geometry, i: nat, j: nat)
    requires Plausible(g) && j < L2Entries(g)
    requires Table(g, i) != 0 && Table(g, i) + ClusterSize(g) <= |host|
    ensures var l2 := host[Table(g, i)..Table(g, i) + ClusterSize(g)];
            CompressedSlot(host, g, i, j) <==> IsCompressed(Be64(l2[8 * j..8 * j + 8]))
  {
    hide Pow2, IsCompressed, DecodeCompressed, Be64, OffsetBits;
    SliceOfSlice(host, Table(g, i), ClusterSize(g), 8 * j, 8);
  }

  /** Beyond the L1 table nothing is allocated, so plain tables mean that no guest cluster at all
      is compressed. */
  lemma PlainMeansNoneCompressed(host: seq<byte>, g: Geometry, guest: nat)
    requires Plausible(g) && PlainTables(host, g, |g.l1|)
    ensures !CompressedAt(host, g, guest)
  {
    hide Quot, Rem, Pow2, DecodeEntry, L1Index, L2Index;
    assert CompressedAt(host, g, guest) == CompressedSlot(host, g, L1Index(g, guest), L2Index(g, guest));
  }

  /** A compressed slot of the L1 table serves a guest cluster that the table covers. */
  lemma CompressedSlotIsReached(host: seq<byte>, g: Geometry, i: nat, j: nat)
    requires Plausible(g) && j < L2Entries(g) && CompressedSlot(host, g, i, j)
    ensures L1Index(g, GuestOf(g, i, j)) == i && CompressedAt(host, g, GuestOf(g, i, j))
  {
    hide Mul, Quot, Rem, Pow2, L1Index, L2Index, MapSlot;
    SlotOfGuest(g, i, j);
  }

  lemma TableIsPlain(host: seq<byte>, g: Geometry, i: nat)
    requires Plausible(g) && PlainTables(host, g, i)
    requires Table(g, i) != 0 ==> Table(g, i) + ClusterSize(g) <= |host|
    requires Table(g, i) != 0 ==> Plain(host[Table(g, i)..Table(g, i) + ClusterSize(g)])
    ensures PlainTables(host, g, i + 1)
  {
    hide Pow2, CompressedSlot, IsCompressed, OffsetBits, Be64;
    forall j | 0 <= j < L2Entries(g)
      ensures !CompressedSlot(host, g, i, j)
    {
      if Table(g, i) == 0 {
        EmptySlot(host, g, i, j);
      } else {
        SlotInTable(host, g, i, j);
      }
    }
  }

  lemma EmptySlot(host: seq<byte>, g: Geometry, i: nat, j: nat)
    requires Plausible(g) && Table(g, i) == 0
    ensures !CompressedSlot(host, g, i, j)
  {
  }

  /** No entry of an L2 table is compressed. */
  ghost predicate Plain(l2: seq<byte>) {
    forall j :: 0 <= j < |l2| / 8 ==> !IsCompressed(Be64(l2[8 * j..8 * j + 8]))
  }
}
