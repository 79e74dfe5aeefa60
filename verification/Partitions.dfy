/** Partition tables: the MBR with its chain of extended boot records, and the GPT
    (src/part/mod.rs, src/part/mbr.rs, src/part/gpt.rs). */
module Partitions {
  import opened Arith
  import opened Common
  import opened Text

  const SECTOR: nat := 512

  datatype Partition = Partition(index: nat, start: nat, size: nat, typeId: string, uuid: Option<string>)

  // ---- Hexadecimal text ----

  function HexChar(d: nat): (c: char)
    requires d < 16
    ensures !IsSpace(c) && c != '-'
  {
    if d < 10 then ('0' as int + d) as char else ('a' as int + (d - 10)) as char
  }

  /** `{:02x}` of a byte. */
  function Hex2(b: nat): (s: string)
    requires b < 256
    ensures |s| == 2 && NoSpace(s)
  {
    [HexChar(b / 16), HexChar(b % 16)]
  }

  lemma Hex2Injective(a: nat, b: nat)
    requires a < 256 && b < 256 && Hex2(a) == Hex2(b)
    ensures a == b
  {
    assert HexChar(a / 16) == Hex2(a)[0] == Hex2(b)[0] == HexChar(b / 16);
    assert HexChar(a % 16) == Hex2(a)[1] == Hex2(b)[1] == HexChar(b % 16);
  }

  /** The bytes of a GUID in the order its text shows them; -1 stands for a hyphen. */
  const GUID_LAYOUT: seq<int> := [3, 2, 1, 0, -1, 5, 4, -1, 7, 6, -1, 8, 9, -1, 10, 11, 12, 13, 14, 15]

  function Layout(g: seq<byte>, layout: seq<int>): string
    requires |g| == 16 && forall i :: 0 <= i < |layout| ==> -1 <= layout[i] < 16
    ensures NoSpace(Layout(g, layout))
  {
    if layout == [] then []
    else (if layout[0] == -1 then "-" else Hex2(g[layout[0]])) + Layout(g, layout[1..])
  }

  /** `format_guid`: the first three fields are little-endian on disk. */
  function FormatGuid(g: seq<byte>): string
    requires |g| == 16
  {
    Layout(g, GUID_LAYOUT)
  }

  lemma {:induction false} LayoutInjective(a: seq<byte>, b: seq<byte>, layout: seq<int>, k: nat)
    requires |a| == 16 && |b| == 16 && forall i :: 0 <= i < |layout| ==> -1 <= layout[i] < 16
    requires Layout(a, layout) == Layout(b, layout) && k < |layout| && layout[k] != -1
    ensures a[layout[k]] == b[layout[k]]
  {
    var x := if layout[0] == -1 then "-" else Hex2(a[layout[0]]);
    var y := if layout[0] == -1 then "-" else Hex2(b[layout[0]]);
    var p, q := Layout(a, layout[1..]), Layout(b, layout[1..]);
    assert x + p == y + q && |x| == |y|;
    assert x == (x + p)[..|x|] && y == (y + q)[..|y|];
    assert p == (x + p)[|x|..] && q == (y + q)[|y|..];
    if k == 0 {
      Hex2Injective(a[layout[0]], b[layout[0]]);
    } else {
      LayoutInjective(a, b, layout[1..], k - 1);
    }
  }

  /** Position in the layout of each GUID byte. */
  function PlaceOf(i: nat): (k: nat)
    requires i < 16
    ensures k < |GUID_LAYOUT| && GUID_LAYOUT[k] == i
  {
    [3, 2, 1, 0, 6, 5, 9, 8, 11, 12, 14, 15, 16, 17, 18, 19][i]
  }

  /** Different GUIDs have different texts. */
  lemma FormatGuidInjective(a: seq<byte>, b: seq<byte>)
    requires |a| == 16 && |b| == 16 && FormatGuid(a) == FormatGuid(b)
    ensures a == b
  {
    forall i | 0 <= i < 16
      ensures a[i] == b[i]
    {
      LayoutInjective(a, b, GUID_LAYOUT, PlaceOf(i));
    }
  }

  // ---- MBR ----

  datatype RawEntry = RawEntry(kind: byte, lba: nat, sectors: nat)

  const EMPTY: byte := 0x00
  const EXTENDED_CHS: byte := 0x05
  const EXTENDED_LBA: byte := 0x0f
  const GPT_PROTECTIVE: byte := 0xee

  predicate IsExtended(e: RawEntry) {
    e.kind == EXTENDED_CHS || e.kind == EXTENDED_LBA
  }

  function EntryAt(sector: seq<byte>, i: nat): RawEntry
    requires |sector| == 512 && i < 4
  {
    var at := 446 + 16 * i;
    RawEntry(sector[at + 4], Le32(sector[at + 8..at + 12]), Le32(sector[at + 12..at + 16]))
  }

  function ParseEntries(sector: seq<byte>): (r: Option<seq<RawEntry>>)
    requires |sector| == 512
    ensures r.Some? ==> |r.value| == 4
  {
    if sector[510] != 0x55 || sector[511] != 0xaa then None
    else Some([EntryAt(sector, 0), EntryAt(sector, 1), EntryAt(sector, 2), EntryAt(sector, 3)])
  }

  function Signature(sector: seq<byte>): (sig: nat)
    requires |sector| == 512
    ensures sig < 0x1_0000_0000
  {
    Le32(sector[440..444])
  }

  /** `{disksig:08x}-{index:02x}`, or nothing without a signature. */
  function MbrUuid(sig: nat, index: nat): (r: Option<string>)
    requires sig < 0x1_0000_0000 && index < 256
    ensures r.Some? <==> sig != 0
    ensures r.Some? ==> NoSpace(r.value) && |r.value| == 11 && r.value[9..] == Hex2(index)
  {
    if sig == 0 then None
    else
      var s := Hex2(sig / 0x100_0000) + Hex2(sig / 0x1_0000 % 256) + Hex2(sig / 0x100 % 256) + Hex2(sig % 256);
      assert NoSpace(s + "-" + Hex2(index));
      Some(s + "-" + Hex2(index))
  }

  function MbrPartition(sig: nat, index: nat, base: nat, e: RawEntry): (p: Partition)
    requires sig < 0x1_0000_0000 && index < 256
    ensures p.index == index && p.uuid == MbrUuid(sig, index)
  {
    Partition(index, base + e.lba * SECTOR, e.sectors * SECTOR, "0x" + Hex2(e.kind), MbrUuid(sig, index))
  }

  /** A primary slot that becomes a partition. */
  predicate IsPrimary(e: RawEntry) {
    e.kind != EMPTY && e.sectors != 0 && e.kind != GPT_PROTECTIVE && !IsExtended(e)
  }

  /** The primaries among the first `n` slots. */
  function Primaries(sig: nat, entries: seq<RawEntry>, n: nat): seq<Partition>
    requires sig < 0x1_0000_0000 && n <= |entries| == 4
  {
    if n == 0 then []
    else
      var e := entries[n - 1];
      Primaries(sig, entries, n - 1) + if IsPrimary(e) then [MbrPartition(sig, n, 0, e)] else []
  }

  /** Where the extended partition starts: the last such slot wins. */
  function ExtendedStart(entries: seq<RawEntry>, n: nat): Option<nat>
    requires n <= |entries|
  {
    if n == 0 then None
    else if entries[n - 1].sectors != 0 && IsExtended(entries[n - 1]) then Some(entries[n - 1].lba * SECTOR)
    else ExtendedStart(entries, n - 1)
  }

  const EBR_CAP: nat := 128

  /** The extended boot record at `at`, unless it is out of bounds or unsigned. */
  function RecordAt(disk: seq<byte>, at: nat): (r: Option<seq<RawEntry>>)
    ensures r.Some? ==> |r.value| == 4
  {
    if at + 512 > |disk| then None else ParseEntries(disk[at..at + 512])
  }

  function Logical(sig: nat, index: nat, at: nat, data: RawEntry): (p: seq<Partition>)
    requires sig < 0x1_0000_0000 && index < 256
    ensures |p| <= 1
  {
    if data.kind != EMPTY && data.sectors != 0 then [MbrPartition(sig, index, at, data)] else []
  }

  /** The logical partitions found by following links for at most `left` more records. */
  function EbrWalk(disk: seq<byte>, sig: nat, base: nat, at: nat, index: nat, left: nat): seq<Partition>
    requires sig < 0x1_0000_0000 && index + left <= 255
    decreases left
  {
    hide RecordAt;
    var record := RecordAt(disk, at);
    if left == 0 || record.None? then []
    else
      var here, link := Logical(sig, index, at, record.value[0]), record.value[1];
      here + if IsExtended(link) then EbrWalk(disk, sig, base, base + link.lba * SECTOR, index + |here|, left - 1) else []
  }

  predicate Plausible(entries: seq<RawEntry>) {
    exists i :: 0 <= i < |entries| && entries[i].kind != EMPTY && entries[i].lba > 0 && entries[i].sectors > 0
  }

  /** `mbr::scan`. */
  function ScanMbr(disk: seq<byte>): Option<seq<Partition>> {
    if |disk| < SECTOR || ParseEntries(disk[..512]).None? then None
    else
      var entries, sig := ParseEntries(disk[..512]).value, Signature(disk[..512]);
      var ext := ExtendedStart(entries, 4);
      var all := Primaries(sig, entries, 4) + if ext.Some? then EbrWalk(disk, sig, ext.value, ext.value, 5, EBR_CAP) else [];
      if !Plausible(entries) || all == [] then None else Some(all)
  }

  /** The scan as it runs: slot by slot, then record by record. */
  method ScanMbrTable(disk: seq<byte>) returns (r: Option<seq<Partition>>)
    ensures r == ScanMbr(disk)
  {
    hide EntryAt, MbrPartition, Signature;
    if |disk| < SECTOR {
      return None;
    }
    var parsed := ParseEntries(disk[..512]);
    if parsed.None? || !Plausible(parsed.value) {
      return None;
    }
    var entries, sig := parsed.value, Signature(disk[..512]);
    var partitions := [];
    var extended: Option<nat> := None;
    for i := 0 to 4
      invariant partitions == Primaries(sig, entries, i) && extended == ExtendedStart(entries, i)
    {
      var e := entries[i];
      if e.kind == EMPTY || e.sectors == 0 || e.kind == GPT_PROTECTIVE {
        continue;
      }
      if IsExtended(e) {
        extended := Some(e.lba * SECTOR);
        continue;
      }
      partitions := partitions + [MbrPartition(sig, i + 1, 0, e)];
    }
    if extended.Some? {
      var logical := WalkEbr(disk, sig, extended.value);
      partitions := partitions + logical;
    }
    assert Primaries(sig, entries, 4) + [] == Primaries(sig, entries, 4);
    return if partitions == [] then None else Some(partitions);
  }

  /** One turn of the walk. */
  lemma EbrTurn(disk: seq<byte>, sig: nat, base: nat, at: nat, index: nat, left: nat)
    requires sig < 0x1_0000_0000 && index + left <= 255
    ensures left == 0 || RecordAt(disk, at).None? ==> EbrWalk(disk, sig, base, at, index, left) == []
    ensures left > 0 && RecordAt(disk, at).Some? ==>
              var here, link := Logical(sig, index, at, RecordAt(disk, at).value[0]), RecordAt(disk, at).value[1];
              EbrWalk(disk, sig, base, at, index, left) == here +
                if IsExtended(link) then EbrWalk(disk, sig, base, base + link.lba * SECTOR, index + |here|, left - 1) else []
  {
    hide RecordAt, Logical, IsExtended;
  }

  method WalkEbr(disk: seq<byte>, sig: nat, base: nat) returns (found: seq<Partition>)
    requires sig < 0x1_0000_0000
    ensures found == EbrWalk(disk, sig, base, base, 5, EBR_CAP)
  {
    hide RecordAt, Logical, IsExtended, EbrWalk;
    found := [];
    var at: nat, index: nat, left: nat := base, 5, EBR_CAP;
    while left > 0
      invariant index + left <= 5 + EBR_CAP
      invariant EbrWalk(disk, sig, base, base, 5, EBR_CAP) == found + EbrWalk(disk, sig, base, at, index, left)
    {
      var record := RecordAt(disk, at);
      EbrTurn(disk, sig, base, at, index, left);
      if record.None? {
        return;
      }
      var here, link := Logical(sig, index, at, record.value[0]), record.value[1];
      ghost var before := found;
      found, index := found + here, index + |here|;
      if !IsExtended(link) {
        assert before + (here + []) == found;
        return;
      }
      at, left := base + link.lba * SECTOR, left - 1;
      assert before + (here + EbrWalk(disk, sig, base, at, index, left)) == found + EbrWalk(disk, sig, base, at, index, left);
    }
    EbrTurn(disk, sig, base, at, index, left);
  }

  // ---- Numbering ----

  ghost predicate Increasing(parts: seq<Partition>) {
    forall i, j :: 0 <= i < j < |parts| ==> parts[i].index < parts[j].index
  }

  lemma {:induction false} PrimariesInOrder(sig: nat, entries: seq<RawEntry>, n: nat)
    requires sig < 0x1_0000_0000 && n <= |entries| == 4
    ensures var p := Primaries(sig, entries, n);
            Increasing(p) && forall i :: 0 <= i < |p| ==> 1 <= p[i].index <= n && p[i].uuid == MbrUuid(sig, p[i].index)
  {
    hide MbrUuid;
    if n > 0 {
      PrimariesInOrder(sig, entries, n - 1);
    }
  }

  /** Numbered consecutively from `index`, with the PARTUUIDs that go with the numbers. */
  ghost predicate Consecutive(sig: nat, index: nat, p: seq<Partition>)
    requires sig < 0x1_0000_0000 && index + |p| <= 255
  {
    forall i :: 0 <= i < |p| ==> p[i].index == index + i && p[i].uuid == MbrUuid(sig, p[i].index)
  }

  lemma ConsecutiveConcat(sig: nat, index: nat, at: nat, data: RawEntry, rest: seq<Partition>)
    requires sig < 0x1_0000_0000 && index < 255
    requires var here := Logical(sig, index, at, data);
             index + |here| + |rest| <= 255 && Consecutive(sig, index + |here|, rest)
    ensures Consecutive(sig, index, Logical(sig, index, at, data) + rest)
  {
    hide MbrPartition, MbrUuid;
  }

  /** However the records are linked, cycles included, the logical partitions are numbered
      consecutively and there is at most one per record visited. */
  lemma {:induction false} LogicalsAreConsecutive(disk: seq<byte>, sig: nat, base: nat, at: nat, index: nat, left: nat)
    requires sig < 0x1_0000_0000 && index + left <= 255
    ensures var p := EbrWalk(disk, sig, base, at, index, left);
            |p| <= left && Consecutive(sig, index, p)
    decreases left
  {
    hide RecordAt, Logical, IsExtended, Consecutive;
    var record := RecordAt(disk, at);
    NoneConsecutive(sig, index);
    if left > 0 && record.Some? {
      var data, link := record.value[0], record.value[1];
      var n := |Logical(sig, index, at, data)|;
      NoneConsecutive(sig, index + n);
      if IsExtended(link) {
        LogicalsAreConsecutive(disk, sig, base, base + link.lba * SECTOR, index + n, left - 1);
      }
      ConsecutiveConcat(sig, index, at, data,
        if IsExtended(link) then EbrWalk(disk, sig, base, base + link.lba * SECTOR, index + n, left - 1) else []);
    }
  }

  lemma NoneConsecutive(sig: nat, index: nat)
    requires sig < 0x1_0000_0000 && index <= 255
    ensures Consecutive(sig, index, [])
  {
  }

  /** Different numbers make different PARTUUIDs, all present with a signature and absent without. */
  lemma NumbersMakeUuids(sig: nat, p: seq<Partition>)
    requires sig < 0x1_0000_0000 && Increasing(p)
    requires forall i :: 0 <= i < |p| ==> p[i].index < 256 && p[i].uuid == MbrUuid(sig, p[i].index)
    ensures sig == 0 ==> forall i :: 0 <= i < |p| ==> p[i].uuid == None
    ensures sig != 0 ==> forall i :: 0 <= i < |p| ==> p[i].uuid.Some? && NoSpace(p[i].uuid.value)
    ensures sig != 0 ==> forall i, j :: 0 <= i < j < |p| ==> p[i].uuid != p[j].uuid
  {
    hide Hex2, NoSpace;
    forall i, j | 0 <= i < j < |p| && sig != 0
      ensures p[i].uuid != p[j].uuid
    {
      if p[i].uuid == p[j].uuid {
        Hex2Injective(p[i].index, p[j].index);
      }
    }
  }

  /** The number that comes after the first `i` partitions, once they are logical ones. */
  ghost predicate Follows(p: seq<Partition>, i: nat)
    requires i < |p|
  {
    p[i].index == if i > 0 && p[i - 1].index > 4 then p[i - 1].index + 1 else 5
  }

  /** Primaries keep their slot numbers 1 to 4, logicals count up from 5 without gaps; with a disk
      signature all PARTUUIDs differ, without one there are none. */
  lemma MbrNumbering(disk: seq<byte>)
    requires ScanMbr(disk).Some?
    ensures var p := ScanMbr(disk).value;
            && 1 <= |p| <= 4 + EBR_CAP
            && Increasing(p)
            && (forall i :: 0 <= i < |p| ==> 1 <= p[i].index)
            && (forall i :: 0 <= i < |p| && p[i].index > 4 ==> Follows(p, i))
            && (Signature(disk[..512]) == 0 ==> forall i :: 0 <= i < |p| ==> p[i].uuid == None)
            && (Signature(disk[..512]) != 0 ==>
                  && (forall i :: 0 <= i < |p| ==> p[i].uuid.Some? && NoSpace(p[i].uuid.value))
                  && (forall i, j :: 0 <= i < j < |p| ==> p[i].uuid != p[j].uuid))
  {
    hide ParseEntries, Signature, MbrUuid, Primaries, EbrWalk, NoSpace;
    var entries, sig := ParseEntries(disk[..512]).value, Signature(disk[..512]);
    PrimariesInOrder(sig, entries, 4);
    PrimariesAtMostFour(sig, entries, 4);
    var ext := ExtendedStart(entries, 4);
    var a, b := Primaries(sig, entries, 4), if ext.Some? then EbrWalk(disk, sig, ext.value, ext.value, 5, EBR_CAP) else [];
    NoneConsecutive(sig, 5);
    if ext.Some? {
      LogicalsAreConsecutive(disk, sig, ext.value, ext.value, 5, EBR_CAP);
    }
    PrimariesThenLogicals(sig, a, b);
    NumbersMakeUuids(sig, a + b);
  }

  lemma PrimariesThenLogicals(sig: nat, a: seq<Partition>, b: seq<Partition>)
    requires sig < 0x1_0000_0000 && |b| <= EBR_CAP && Increasing(a) && Consecutive(sig, 5, b)
    requires forall i :: 0 <= i < |a| ==> 1 <= a[i].index <= 4 && a[i].uuid == MbrUuid(sig, a[i].index)
    ensures var p := a + b;
            && Increasing(p)
            && (forall i :: 0 <= i < |p| ==> 1 <= p[i].index < 256 && p[i].uuid == MbrUuid(sig, p[i].index))
            && (forall i :: 0 <= i < |p| && p[i].index > 4 ==> Follows(p, i))
  {
    hide MbrUuid;
  }

  lemma {:induction false} PrimariesAtMostFour(sig: nat, entries: seq<RawEntry>, n: nat)
    requires sig < 0x1_0000_0000 && n <= |entries| == 4
    ensures |Primaries(sig, entries, n)| <= n
  {
    if n > 0 {
      PrimariesAtMostFour(sig, entries, n - 1);
    }
  }

  /** A record that links to itself is read until the cap: exactly that many logical partitions. */
  lemma {:induction false} SelfLinkHitsCap(disk: seq<byte>, sig: nat, base: nat, index: nat, left: nat)
    requires sig < 0x1_0000_0000 && index + left <= 255 && RecordAt(disk, base).Some?
    requires var e := RecordAt(disk, base).value;
             e[0].kind != EMPTY && e[0].sectors != 0 && IsExtended(e[1]) && e[1].lba == 0
    ensures |EbrWalk(disk, sig, base, base, index, left)| == left
    decreases left
  {
    hide RecordAt, MbrPartition, EbrWalk;
    if left > 0 {
      EbrTurn(disk, sig, base, base, index, left);
      SelfLinkHitsCap(disk, sig, base, index + 1, left - 1);
    } else {
      NoRecordsLeft(disk, sig, base, index);
    }
  }

  lemma NoRecordsLeft(disk: seq<byte>, sig: nat, base: nat, index: nat)
    requires sig < 0x1_0000_0000 && index <= 255
    ensures EbrWalk(disk, sig, base, base, index, 0) == []
  {
  }

  // ---- GPT ----

  function AllZero(b: seq<byte>): bool {
    forall i :: 0 <= i < |b| ==> b[i] == 0
  }

  /** The partition in slot `i`, unless it is unused or ends before it starts. */
  function GptSlot(e: seq<byte>, i: nat): Option<Partition>
    requires |e| >= 128
  {
    var first, last := Le64(e[32..40]), Le64(e[40..48]);
    if AllZero(e[..16]) || last < first then None
    else Some(Partition(i + 1, first * SECTOR, (last - first + 1) * SECTOR, FormatGuid(e[..16]),
                        if AllZero(e[16..32]) then None else Some(FormatGuid(e[16..32]))))
  }

  lemma SlotInside(i: nat, n: nat, size: nat)
    requires i < n
    ensures Mul(i, size) + size == Mul(i + 1, size) <= Mul(n, size)
  {
    MulMono(size, i + 1, n);
    assert size * (i + 1) == size * i + size;
  }

  /** The partitions in the first `n` slots of `table`. */
  function GptSlots(table: seq<byte>, size: nat, n: nat): seq<Partition>
    requires size >= 128 && Mul(n, size) <= |table|
  {
    hide Mul, GptSlot;
    if n == 0 then []
    else
      SlotInside(n - 1, n, size);
      var slot := GptSlot(table[Mul(n - 1, size)..Mul(n, size)], n - 1);
      GptSlots(table, size, n - 1) + if slot.Some? then [slot.value] else []
  }

  const EFI_PART: seq<byte> := [0x45, 0x46, 0x49, 0x20, 0x50, 0x41, 0x52, 0x54]

  /** A read of `n` bytes at `at`: a raw file fails like the system does and lets an empty read pass
      anywhere; other devices check their bounds first. */
  function ReadDisk(disk: seq<byte>, file: bool, at: nat, n: nat): (r: Result<seq<byte>>)
    ensures r.Ok? ==> |r.value| == n
  {
    if at + n <= |disk| then Ok(disk[at..at + n])
    else if file && n == 0 then Ok([])
    else Err(if file then Io else OutOfBounds)
  }

  /** `gpt::scan` of a raw file or another device: nothing without a signature, an error for an
      implausible or unreadable table. */
  function ScanGpt(disk: seq<byte>, file: bool): Result<Option<seq<Partition>>> {
    hide Mul, GptSlots, Le64, Le32;
    if |disk| < 2 * SECTOR + 92 || disk[SECTOR..SECTOR + 8] != EFI_PART then Ok(None)
    else
      var header := disk[SECTOR..SECTOR + 92];
      var at, n, size := Le64(header[72..80]) * SECTOR, Le32(header[80..84]), Le32(header[84..88]);
      if !(128 <= size <= 4096) || n > 4096 then Err(Gpt)
      else
        match ReadDisk(disk, file, at, Mul(n, size))
        case Err(e) => Err(e)
        case Ok(table) => Ok(Some(GptSlots(table, size, n)))
  }

  method ScanGptTable(disk: seq<byte>, file: bool) returns (r: Result<Option<seq<Partition>>>)
    ensures r == ScanGpt(disk, file)
  {
    hide Mul, GptSlots, Le64, Le32;
    if |disk| < 2 * SECTOR + 92 {
      return Ok(None);
    }
    var header := disk[SECTOR..SECTOR + 92];
    if header[..8] != EFI_PART {
      assert header[..8] == disk[SECTOR..SECTOR + 8];
      return Ok(None);
    }
    assert header[..8] == disk[SECTOR..SECTOR + 8];
    var at, n, size := Le64(header[72..80]) * SECTOR, Le32(header[80..84]), Le32(header[84..88]);
    if !(128 <= size <= 4096) || n > 4096 {
      return Err(Gpt);
    }
    var table := ReadDisk(disk, file, at, Mul(n, size));
    if table.Err? {
      return Err(table.error);
    }
    var partitions := ReadSlots(table.value, size, n);
    return Ok(Some(partitions));
  }

  method ReadSlots(table: seq<byte>, size: nat, n: nat) returns (partitions: seq<Partition>)
    requires size >= 128 && Mul(n, size) <= |table|
    ensures partitions == GptSlots(table, size, n)
  {
    hide Mul, GptSlot;
    partitions := [];
    NoSlots(size);
    for i := 0 to n
      invariant Mul(i, size) <= |table| && partitions == GptSlots(table, size, i)
    {
      SlotInside(i, n, size);
      var slot := GptSlot(table[Mul(i, size)..Mul(i + 1, size)], i);
      if slot.Some? {
        partitions := partitions + [slot.value];
      }
    }
  }

  lemma NoSlots(size: nat)
    ensures Mul(0, size) == 0
  {
  }

  /** GPT partitions keep their slot order and numbers, and their texts carry no whitespace. */
  lemma {:induction false} GptNumbering(table: seq<byte>, size: nat, n: nat)
    requires size >= 128 && Mul(n, size) <= |table|
    ensures var p := GptSlots(table, size, n);
            && Increasing(p)
            && forall i :: 0 <= i < |p| ==> 1 <= p[i].index <= n && (p[i].uuid.Some? ==> NoSpace(p[i].uuid.value))
  {
    hide Mul, GptSlot;
    if n > 0 {
      SlotInside(n - 1, n, size);
      GptNumbering(table, size, n - 1);
      GuidHasNoSpace(table[Mul(n - 1, size)..Mul(n, size)], n - 1);
    }
  }

  lemma GuidHasNoSpace(e: seq<byte>, i: nat)
    requires |e| >= 128
    ensures var slot := GptSlot(e, i);
            slot.Some? ==> slot.value.index == i + 1 && (slot.value.uuid.Some? ==> NoSpace(slot.value.uuid.value))
  {
    hide AllZero, Le64;
  }

  // ---- Either table ----

  /** `part::scan`: GPT, then MBR, then the bare disk as one partition. */
  function ScanDisk(disk: seq<byte>, file: bool): Result<seq<Partition>> {
    match ScanGpt(disk, file)
    case Err(e) => Err(e)
    case Ok(Some(parts)) => Ok(parts)
    case Ok(None) =>
      match ScanMbr(disk)
      case Some(parts) => Ok(parts)
      case None => Ok([Partition(1, 0, |disk|, "", None)])
  }

  function Lookup(parts: seq<Partition>, n: nat): Option<Partition> {
    if parts == [] then None else if parts[0].index == n then Some(parts[0]) else Lookup(parts[1..], n)
  }

  /** Every table a scan returns numbers its partitions in strictly increasing order, with
      PARTUUIDs free of whitespace. */
  lemma ScannedTables(disk: seq<byte>, file: bool)
    requires ScanDisk(disk, file).Ok?
    ensures var p := ScanDisk(disk, file).value;
            Increasing(p) && forall i :: 0 <= i < |p| && p[i].uuid.Some? ==> NoSpace(p[i].uuid.value)
  {
    hide Mul, GptSlots, ScanMbr, Le64, Le32;
    if ScanGpt(disk, file).Ok? && ScanGpt(disk, file).value.Some? {
      var header := disk[SECTOR..SECTOR + 92];
      var at, n, size := Le64(header[72..80]) * SECTOR, Le32(header[80..84]), Le32(header[84..88]);
      GptNumbering(ReadDisk(disk, file, at, Mul(n, size)).value, size, n);
    } else if ScanMbr(disk).Some? {
      MbrNumbering(disk);
    }
  }

  /** Looking a number up finds the one partition that has it. */
  lemma {:induction false} LookupIsUnique(parts: seq<Partition>, k: nat)
    requires Increasing(parts) && k < |parts|
    ensures Lookup(parts, parts[k].index) == Some(parts[k])
  {
    if k > 0 {
      assert parts[0].index < parts[k].index;
      assert forall i, j :: 0 <= i < j < |parts[1..]| ==> parts[1..][i].index < parts[1..][j].index;
      LookupIsUnique(parts[1..], k - 1);
    }
  }

  // ---- What the fields mean ----

  /** The value of a lower-case hexadecimal text. */
  function HexText(s: string): nat {
    if s == [] then 0 else 16 * HexText(s[..|s| - 1]) + HexOf(s[|s| - 1])
  }

  function HexOf(c: char): nat {
    if '0' <= c <= '9' then c as int - '0' as int
    else if 'a' <= c <= 'f' then c as int - 'a' as int + 10
    else 0
  }

  lemma HexText2(s: string, b: nat)
    requires b < 256
    ensures HexText(s + Hex2(b)) == 256 * HexText(s) + b
  {
    var t := s + Hex2(b);
    assert t[..|t| - 1] == s + [HexChar(b / 16)];
    assert t[..|t| - 1][..|s|] == s;
  }

  lemma HexText8(a: nat, b: nat, c: nat, d: nat)
    requires a < 256 && b < 256 && c < 256 && d < 256
    ensures HexText(Hex2(a) + Hex2(b) + Hex2(c) + Hex2(d)) == a * 0x100_0000 + b * 0x1_0000 + c * 0x100 + d
  {
    hide Hex2;
    HexTextOne(a);
    HexText2(Hex2(a), b);
    HexText2(Hex2(a) + Hex2(b), c);
    HexText2(Hex2(a) + Hex2(b) + Hex2(c), d);
  }

  lemma HexTextOne(a: nat)
    requires a < 256
    ensures HexText(Hex2(a)) == a
  {
    hide Hex2;
    HexText2("", a);
    assert "" + Hex2(a) == Hex2(a);
  }

  lemma FourBytes(sig: nat)
    requires sig < 0x1_0000_0000
    ensures sig / 0x100_0000 * 0x100_0000 + sig / 0x1_0000 % 256 * 0x1_0000 + sig / 0x100 % 256 * 0x100 + sig % 256 == sig
    ensures sig / 0x100_0000 < 256
  {
    var x, y := sig / 0x100, sig / 0x1_0000;
    assert x / 0x100 == y && y / 0x100 == sig / 0x100_0000;
  }

  /** A PARTUUID on an MBR disk: the signature's eight hexadecimal digits, a hyphen, and the
      partition's number in two. */
  lemma MbrUuidMeans(sig: nat, index: nat)
    requires 0 < sig < 0x1_0000_0000 && index < 256
    ensures var u := MbrUuid(sig, index).value;
            |u| == 11 && HexText(u[..8]) == sig && u[8] == '-' && HexText(u[9..]) == index
  {
    hide Hex2, HexText;
    var u := MbrUuid(sig, index).value;
    FourBytes(sig);
    var a, b, c, d := sig / 0x100_0000, sig / 0x1_0000 % 256, sig / 0x100 % 256, sig % 256;
    HexText8(a, b, c, d);
    HexTextOne(index);
    assert u[..8] == Hex2(a) + Hex2(b) + Hex2(c) + Hex2(d);
  }

  /** A GUID's text, group by group: three little-endian numbers, then bytes in order. */
  lemma GuidText(g: seq<byte>)
    requires |g| == 16
    ensures FormatGuid(g) ==
            Hex2(g[3]) + (Hex2(g[2]) + (Hex2(g[1]) + (Hex2(g[0]) + ("-" + (Hex2(g[5]) + (Hex2(g[4]) + ("-" +
            (Hex2(g[7]) + (Hex2(g[6]) + ("-" + (Hex2(g[8]) + (Hex2(g[9]) + ("-" + (Hex2(g[10]) + (Hex2(g[11]) +
            (Hex2(g[12]) + (Hex2(g[13]) + (Hex2(g[14]) + (Hex2(g[15]))))))))))))))))))))
  {
    hide Hex2, LaidOut, Layout;
    GuidTail(g);
    LayoutFrom(g, 9);
    LayoutFrom(g, 8);
    LayoutFrom(g, 7);
    LayoutFrom(g, 6);
    LayoutFrom(g, 5);
    LayoutFrom(g, 4);
    LayoutFrom(g, 3);
    LayoutFrom(g, 2);
    LayoutFrom(g, 1);
    LayoutFrom(g, 0);
    FromTheStart(g);
  }

  lemma FromTheStart(g: seq<byte>)
    requires |g| == 16
    ensures LaidOut(g, 0) == FormatGuid(g) && LaidOut(g, 20) == []
  {
    assert GUID_LAYOUT[0..] == GUID_LAYOUT && GUID_LAYOUT[20..] == [];
  }

  lemma GuidTail(g: seq<byte>)
    requires |g| == 16
    ensures LaidOut(g, 10) ==
            "-" + (Hex2(g[8]) + (Hex2(g[9]) + ("-" + (Hex2(g[10]) + (Hex2(g[11]) + (Hex2(g[12]) + (Hex2(g[13]) +
            (Hex2(g[14]) + (Hex2(g[15]))))))))))
  {
    hide Hex2, LaidOut, Layout, FormatGuid;
    LayoutFrom(g, 19);
    LayoutFrom(g, 18);
    LayoutFrom(g, 17);
    LayoutFrom(g, 16);
    LayoutFrom(g, 15);
    LayoutFrom(g, 14);
    LayoutFrom(g, 13);
    LayoutFrom(g, 12);
    LayoutFrom(g, 11);
    LayoutFrom(g, 10);
    FromTheStart(g);
    assert Hex2(g[15]) + [] == Hex2(g[15]);
  }

  /** The text from the `i`-th part on. */
  function LaidOut(g: seq<byte>, i: nat): string
    requires |g| == 16 && i <= |GUID_LAYOUT|
  {
    Layout(g, GUID_LAYOUT[i..])
  }

  lemma LayoutFrom(g: seq<byte>, i: nat)
    requires |g| == 16 && i < |GUID_LAYOUT|
    ensures LaidOut(g, i) == (if GUID_LAYOUT[i] == -1 then "-" else Hex2(g[GUID_LAYOUT[i]])) + LaidOut(g, i + 1)
  {
    hide Hex2;
    assert GUID_LAYOUT[i..][1..] == GUID_LAYOUT[i + 1..];
  }

  /** Slot `i` of the table holds a partition of its own: a type that is not empty, GPT's guard or an
      extended container, and a length. */
  predicate OwnPartition(sector: seq<byte>, i: nat)
    requires |sector| == 512 && i < 4
  {
    var at := 446 + 16 * i;
    sector[at + 4] !in {0x00, 0x05, 0x0f, 0xee} && Le32(sector[at + 12..at + 16]) != 0
  }

  lemma {:induction false} PrimaryInSlot(sig: nat, entries: seq<RawEntry>, n: nat, i: nat)
    requires sig < 0x1_0000_0000 && i < n <= |entries| == 4
    ensures IsPrimary(entries[i]) ==> MbrPartition(sig, i + 1, 0, entries[i]) in Primaries(sig, entries, n)
    ensures forall p :: p in Primaries(sig, entries, n) && p.index == i + 1 ==>
              IsPrimary(entries[i]) && p == MbrPartition(sig, i + 1, 0, entries[i])
  {
    hide MbrPartition, IsPrimary;
    PrimariesInOrder(sig, entries, n - 1);
    if i < n - 1 {
      PrimaryInSlot(sig, entries, n - 1, i);
    } else {
      forall p | p in Primaries(sig, entries, n - 1)
        ensures p.index <= n - 1
      {
        var k :| 0 <= k < |Primaries(sig, entries, n - 1)| && Primaries(sig, entries, n - 1)[k] == p;
      }
    }
  }

  /** A primary partition, in the terms of the sector's bytes: number from the slot, start and size in
      512-byte sectors; a slot without a partition of its own has none. */
  lemma PrimaryMeans(disk: seq<byte>, i: nat)
    requires i < 4 && ScanMbr(disk).Some?
    ensures var at := 446 + 16 * i; var parts := ScanMbr(disk).value;
            && (OwnPartition(disk[..512], i) <==> exists p :: p in parts && p.index == i + 1)
            && forall p :: p in parts && p.index == i + 1 ==>
                 p.start == 512 * Le32(disk[at + 8..at + 12]) && p.size == 512 * Le32(disk[at + 12..at + 16])
  {
    hide Le32, Primaries, EbrWalk, MbrUuid, Signature, Plausible, Hex2;
    var sector, sig := disk[..512], Signature(disk[..512]);
    var entries := ParseEntries(sector).value;
    var at := 446 + 16 * i;
    assert sector[at + 8..at + 12] == disk[at + 8..at + 12] && sector[at + 12..at + 16] == disk[at + 12..at + 16];
    assert entries[i] == EntryAt(sector, i);
    PrimaryInSlot(sig, entries, 4, i);
    var ext := ExtendedStart(entries, 4);
    if ext.Some? {
      LogicalsAreConsecutive(disk, sig, ext.value, ext.value, 5, EBR_CAP);
      var walk := EbrWalk(disk, sig, ext.value, ext.value, 5, EBR_CAP);
      assert forall p :: p in walk ==> p.index >= 5;
    }
  }

  /** The first logical partition, in the terms of the extended partition's first record: it starts
      that many sectors behind the record. */
  lemma FirstLogicalMeans(disk: seq<byte>, sig: nat, base: nat, left: nat)
    requires sig < 0x1_0000_0000 && 0 < left <= 250 && base + 512 <= |disk|
    requires disk[base + 510] == 0x55 && disk[base + 511] == 0xaa
    requires disk[base + 450] != 0 && Le32(disk[base + 458..base + 462]) != 0
    ensures var walk := EbrWalk(disk, sig, base, base, 5, left);
            && walk != [] && walk[0].index == 5 && walk[0].uuid == MbrUuid(sig, 5)
            && walk[0].start == base + 512 * Le32(disk[base + 454..base + 458])
            && walk[0].size == 512 * Le32(disk[base + 458..base + 462])
  {
    hide Le32, MbrUuid, Hex2;
    var record := disk[base..base + 512];
    SliceOfSlice(disk, base, 512, 454, 4);
    SliceOfSlice(disk, base, 512, 458, 4);
    assert RecordAt(disk, base).value[0] == EntryAt(record, 0);
    assert Logical(sig, 5, base, EntryAt(record, 0)) != [];
  }

  /** A link leads to the record that many sectors behind the start of the extended partition. */
  lemma LinkMeans(disk: seq<byte>, sig: nat, base: nat, at: nat, index: nat, left: nat)
    requires sig < 0x1_0000_0000 && 0 < left && index + left <= 255 && at + 512 <= |disk|
    requires disk[at + 510] == 0x55 && disk[at + 511] == 0xaa && disk[at + 466] in {0x05, 0x0f}
    ensures var own := if disk[at + 450] != 0 && Le32(disk[at + 458..at + 462]) != 0 then 1 else 0;
            var walk := EbrWalk(disk, sig, base, at, index, left);
            |walk| >= own
            && walk[own..] == EbrWalk(disk, sig, base, base + 512 * Le32(disk[at + 470..at + 474]), index + own, left - 1)
  {
    hide Le32, MbrUuid, Hex2, EbrWalk;
    var record := disk[at..at + 512];
    SliceOfSlice(disk, at, 512, 458, 4);
    SliceOfSlice(disk, at, 512, 470, 4);
    EbrTurn(disk, sig, base, at, index, left);
    assert RecordAt(disk, at).value[0] == EntryAt(record, 0) && RecordAt(disk, at).value[1] == EntryAt(record, 1);
  }

  /** The extended partition is the last slot with a container and a length. */
  lemma {:induction false} ExtendedMeans(entries: seq<RawEntry>, n: nat, i: nat)
    requires i < n <= |entries| && entries[i].kind in {0x05, 0x0f} && entries[i].sectors != 0
    requires forall j :: i < j < n ==> !(entries[j].kind in {0x05, 0x0f} && entries[j].sectors != 0)
    ensures ExtendedStart(entries, n) == Some(512 * entries[i].lba)
  {
    if i < n - 1 {
      ExtendedMeans(entries, n - 1, i);
    }
  }

  lemma {:induction false} GptInSlot(table: seq<byte>, size: nat, n: nat, i: nat)
    requires size >= 128 && Mul(n, size) <= |table| && i < n
    ensures Mul(i, size) + size == Mul(i + 1, size) <= |table|
    ensures var slot := GptSlot(table[Mul(i, size)..Mul(i + 1, size)], i);
            && (slot.Some? ==> slot.value in GptSlots(table, size, n))
            && forall p :: p in GptSlots(table, size, n) && p.index == i + 1 ==> slot == Some(p)
  {
    hide Mul, GptSlot;
    SlotInside(i, n, size);
    SlotInside(n - 1, n, size);
    if i < n - 1 {
      GptInSlot(table, size, n - 1, i);
      SlotIndex(table[Mul(n - 1, size)..Mul(n, size)], n - 1);
    } else {
      GptNumbering(table, size, n - 1);
      forall p | p in GptSlots(table, size, n - 1)
        ensures p.index <= n - 1
      {
        var k :| 0 <= k < |GptSlots(table, size, n - 1)| && GptSlots(table, size, n - 1)[k] == p;
      }
    }
  }

  lemma SlotIndex(e: seq<byte>, i: nat)
    requires |e| >= 128
    ensures GptSlot(e, i).Some? ==> GptSlot(e, i).value.index == i + 1
  {
    hide Le64, AllZero;
  }

  /** A GPT partition, in the terms of its slot's bytes: used when its type is not zero and it does
      not end before it starts; from its first sector up to its last, both included. */
  lemma GptSlotMeans(table: seq<byte>, size: nat, n: nat, i: nat)
    requires size >= 128 && Mul(n, size) <= |table| && i < n
    ensures Mul(i, size) + size <= |table|
    ensures var e := table[Mul(i, size)..Mul(i, size) + size]; var parts := GptSlots(table, size, n);
            var first, last := Le64(e[32..40]), Le64(e[40..48]);
            && ((exists k :: 0 <= k < 16 && e[k] != 0) && first <= last <==> exists p :: p in parts && p.index == i + 1)
            && forall p :: p in parts && p.index == i + 1 ==>
                 && p.start == 512 * first && p.start + p.size == 512 * (last + 1)
                 && p.typeId == FormatGuid(e[..16])
                 && p.uuid == if (forall k :: 16 <= k < 32 ==> e[k] == 0) then None else Some(FormatGuid(e[16..32]))
  {
    hide Mul, Le64, FormatGuid, GptSlots;
    GptInSlot(table, size, n, i);
    SlotFields(table[Mul(i, size)..Mul(i + 1, size)], i);
  }

  lemma SlotFields(e: seq<byte>, i: nat)
    requires |e| >= 128
    ensures var slot := GptSlot(e, i); var first, last := Le64(e[32..40]), Le64(e[40..48]);
            && (slot.Some? <==> (exists k :: 0 <= k < 16 && e[k] != 0) && first <= last)
            && (slot.Some? ==>
                  && slot.value.index == i + 1
                  && slot.value.start == 512 * first && slot.value.start + slot.value.size == 512 * (last + 1)
                  && slot.value.typeId == FormatGuid(e[..16])
                  && slot.value.uuid == if (forall k :: 16 <= k < 32 ==> e[k] == 0) then None else Some(FormatGuid(e[16..32])))
  {
    hide Le64, FormatGuid;
    assert forall k :: 0 <= k < 16 ==> e[..16][k] == e[k];
    assert forall k :: 16 <= k < 32 ==> e[16..32][k - 16] == e[k];
  }

  /** A GPT counts before an MBR, and a disk without either is one partition. */
  lemma TablePriority(disk: seq<byte>, file: bool)
    ensures ScanGpt(disk, file).Ok? && ScanGpt(disk, file).value.Some? ==> ScanDisk(disk, file) == Ok(ScanGpt(disk, file).value.value)
    ensures ScanGpt(disk, file) == Ok(None) && ScanMbr(disk).Some? ==> ScanDisk(disk, file) == Ok(ScanMbr(disk).value)
    ensures ScanGpt(disk, file) == Ok(None) && ScanMbr(disk).None? ==>
              ScanDisk(disk, file).Ok? && |ScanDisk(disk, file).value| == 1
              && ScanDisk(disk, file).value[0].start == 0 && ScanDisk(disk, file).value[0].size == |disk|
  {
    hide ScanGpt, ScanMbr;
  }

  /** A disk has an MBR exactly when its first sector is signed, some slot is plausible (a type, a
      start and a length), and some partition comes out of it. */
  lemma MbrIff(disk: seq<byte>)
    ensures ScanMbr(disk).Some? <==>
              && |disk| >= 512 && disk[510] == 0x55 && disk[511] == 0xaa
              && (exists i :: 0 <= i < 4 && PlausibleSlot(disk, i))
              && ((exists i :: 0 <= i < 4 && OwnPartition(disk[..512], i)) || LogicalsOf(disk) != [])
  {
    hide Le32, Primaries, EbrWalk, MbrUuid, Hex2, LogicalsOf;
    if |disk| >= 512 && disk[510] == 0x55 && disk[511] == 0xaa {
      var sector, sig := disk[..512], Signature(disk[..512]);
      var entries := ParseEntries(sector).value;
      forall i | 0 <= i < 4
        ensures PlausibleSlot(disk, i) <==> entries[i].kind != EMPTY && entries[i].lba > 0 && entries[i].sectors > 0
        ensures OwnPartition(sector, i) <==> IsPrimary(entries[i])
      {
        var at := 446 + 16 * i;
        assert sector[at + 8..at + 12] == disk[at + 8..at + 12] && sector[at + 12..at + 16] == disk[at + 12..at + 16];
        assert entries[i] == EntryAt(sector, i);
      }
      assert Plausible(entries) <==> exists i :: 0 <= i < 4 && PlausibleSlot(disk, i);
      SomePrimary(sig, entries);
      LogicalsAre(disk);
    }
  }

  predicate PlausibleSlot(disk: seq<byte>, i: nat)
    requires |disk| >= 512 && i < 4
  {
    var at := 446 + 16 * i;
    disk[at + 4] != 0 && Le32(disk[at + 8..at + 12]) > 0 && Le32(disk[at + 12..at + 16]) > 0
  }

  /** The logical partitions of a signed first sector. */
  function LogicalsOf(disk: seq<byte>): seq<Partition> {
    if |disk| < 512 || ParseEntries(disk[..512]).None? then []
    else
      var ext := ExtendedStart(ParseEntries(disk[..512]).value, 4);
      if ext.Some? then EbrWalk(disk, Signature(disk[..512]), ext.value, ext.value, 5, EBR_CAP) else []
  }

  lemma LogicalsAre(disk: seq<byte>)
    requires |disk| >= 512 && ParseEntries(disk[..512]).Some?
    ensures var entries := ParseEntries(disk[..512]).value; var all := Primaries(Signature(disk[..512]), entries, 4) + LogicalsOf(disk);
            ScanMbr(disk) == if !Plausible(entries) || all == [] then None else Some(all)
  {
    hide Primaries, EbrWalk, ParseEntries, Signature, Plausible;
  }

  lemma SomePrimary(sig: nat, entries: seq<RawEntry>)
    requires sig < 0x1_0000_0000 && |entries| == 4
    ensures Primaries(sig, entries, 4) != [] <==> exists i :: 0 <= i < 4 && IsPrimary(entries[i])
  {
    hide MbrPartition, Primaries, IsPrimary;
    forall i | 0 <= i < 4 && IsPrimary(entries[i])
      ensures Primaries(sig, entries, 4) != []
    {
      PrimaryInSlot(sig, entries, 4, i);
    }
    if Primaries(sig, entries, 4) != [] {
      PrimariesInOrder(sig, entries, 4);
      var p := Primaries(sig, entries, 4)[0];
      PrimaryInSlot(sig, entries, 4, p.index - 1);
      assert IsPrimary(entries[p.index - 1]);
    }
  }

  /** A GPT, in the terms of the header's bytes in the second sector: where its slots start, how many
      there are and how long each is. */
  lemma GptHeaderMeans(disk: seq<byte>, file: bool)
    requires |disk| >= 1116
    ensures disk[512..520] != EFI_PART ==> ScanGpt(disk, file) == Ok(None)
    ensures disk[512..520] == EFI_PART ==>
              var at, n, size := 512 * Le64(disk[584..592]), Le32(disk[592..596]), Le32(disk[596..600]);
              if size < 128 || size > 4096 || n > 4096 then ScanGpt(disk, file) == Err(Gpt)
              else if at + Mul(n, size) <= |disk| then ScanGpt(disk, file) == Ok(Some(GptSlots(disk[at..at + Mul(n, size)], size, n)))
              else n > 0 ==> ScanGpt(disk, file).Err?
  {
    hide Mul, GptSlots, Le64, Le32;
    SliceOfSlice(disk, 512, 92, 72, 8);
    SliceOfSlice(disk, 512, 92, 80, 4);
    SliceOfSlice(disk, 512, 92, 84, 4);
    var n, size := Le32(disk[592..596]), Le32(disk[596..600]);
    if n > 0 && size > 0 {
      Positive(n, size);
    }
  }

  lemma Positive(n: nat, size: nat)
    requires n > 0 && size > 0
    ensures Mul(n, size) > 0
  {
  }

  /** A GPT's mark is the text it stands for. */
  lemma GptMark()
    ensures |EFI_PART| == 8 && forall i :: 0 <= i < 8 ==> EFI_PART[i] == "EFI PART"[i] as int
  {
  }
}
