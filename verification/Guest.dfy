/** The walk over a disk's partitions and what they boot, Windows included (src/guest.rs). */
module Guest {
  import opened Common
  import opened Text
  import opened Files
  import opened BootEntries
  import opened Sweep
  import BootScan
  import Extlinux

  type Usize = n: nat | n < USIZE

  // ---- URIs and file names ----

  function Uri(part: Usize, path: string): string {
    "p" + ShowDec(part) + ":" + path
  }

  function UriPartition(uri: string): Option<nat> {
    if uri == [] || uri[0] != 'p' then None
    else
      var rest := uri[1..];
      var n := Until(rest, {':'});
      if n == |rest| then None else ParseUsize(rest[..n])
  }

  function PathOf(uri: string): string {
    var n := Until(uri, {':'});
    if n == |uri| then uri else uri[n + 1..]
  }

  /** A URI's halves can be read back, whatever the path holds. */
  lemma UriRoundTrip(part: Usize, path: string)
    ensures UriPartition(Uri(part, path)) == Some(part)
    ensures PathOf(Uri(part, path)) == path
  {
    hide ShowDec, DecValue;
    var digits, uri := ShowDec(part), Uri(part, path);
    UntilIs(uri, {':'}, 1 + |digits|);
    UntilIs(uri[1..], {':'}, |digits|);
    assert uri[1..][..|digits|] == digits && uri[2 + |digits|..] == path;
  }

  function Slashes(s: string): (t: string)
    ensures |t| == |s|
  {
    seq(|s|, i requires 0 <= i < |s| => if s[i] == '\\' then '/' else s[i])
  }

  function TrimSlashes(s: string): (t: string)
    ensures |t| <= |s| && t == s[|s| - |t|..] && forall i :: 0 <= i < |s| - |t| ==> s[i] == '/'
  {
    if s != [] && s[0] == '/' then TrimSlashes(s[1..]) else s
  }

  function Norm(s: string): string {
    Extlinux.Lower(TrimSlashes(Slashes(s)))
  }

  predicate SameFile(a: string, b: string) {
    Norm(a) == Norm(b) || Base(Norm(a)) == Base(Norm(b))
  }

  /** The name a path ends in: separators unified, case ignored. */
  function FileName(s: string): string {
    Extlinux.Lower(Base(Slashes(s)))
  }

  lemma BaseOfTail(s: string, t: string)
    requires |t| <= |s| && t == s[|s| - |t|..] && forall i :: 0 <= i < |s| - |t| ==> s[i] == '/'
    ensures Base(t) == Base(s)
  {
    hide AfterLast;
    var cut, n := |s| - |t|, AfterLast(t, '/');
    assert forall i :: cut <= i < |s| ==> s[i] == t[i - cut];
    AfterLastIs(s, '/', cut + n);
    assert t[n..] == s[cut + n..];
  }

  lemma BaseOfLower(s: string)
    ensures Base(Extlinux.Lower(s)) == Extlinux.Lower(Base(s))
  {
    hide AfterLast;
    AfterLastIs(Extlinux.Lower(s), '/', AfterLast(s, '/'));
  }

  lemma BaseOfNorm(s: string)
    ensures Base(Norm(s)) == FileName(s)
  {
    hide AfterLast, Slashes, TrimSlashes, Base, Extlinux.Lower;
    var slashed := Slashes(s);
    BaseOfTail(slashed, TrimSlashes(slashed));
    BaseOfLower(TrimSlashes(slashed));
  }

  /** Comparing whole paths adds nothing to comparing base names; so the comparison is an equivalence. */
  lemma SameFileIsSameName(a: string, b: string)
    ensures SameFile(a, b) <==> FileName(a) == FileName(b)
  {
    BaseOfNorm(a);
    BaseOfNorm(b);
  }

  const BOOT_MANAGER: seq<string> := ["EFI", "Microsoft", "Boot", "bootmgfw.efi"]
  const BCD: seq<string> := ["EFI", "Microsoft", "Boot", "BCD"]

  function Spelled(part: string): DirEntry -> bool {
    (f: DirEntry) => Extlinux.Lower(f.name) == Extlinux.Lower(part)
  }

  /** `find_path` from a directory. */
  function FindFrom(fs: FileSystem, path: string, parts: seq<string>): Option<string>
    decreases |parts|
  {
    if parts == [] then Some(path)
    else
      var dir := if path == [] then "/" else path;
      if dir !in fs.listings then None
      else
        match Position(fs.listings[dir], Spelled(parts[0]))
        case None => None
        case Some(i) => FindFrom(fs, path + "/" + fs.listings[dir][i].name, parts[1..])
  }

  function FindPath(fs: FileSystem, parts: seq<string>): Option<string> {
    FindFrom(fs, "", parts)
  }

  method FindOnDisk(fs: FileSystem, parts: seq<string>) returns (path: Option<string>)
    ensures path == FindPath(fs, parts)
  {
    hide Position;
    var at: string := "";
    assert parts[0..] == parts;
    for n := 0 to |parts|
      invariant FindFrom(fs, at, parts[n..]) == FindPath(fs, parts)
    {
      assert parts[n..][1..] == parts[n + 1..];
      var dir := if at == [] then "/" else at;
      if dir !in fs.listings {
        return None;
      }
      var i := Position(fs.listings[dir], Spelled(parts[n]));
      if i.None? {
        return None;
      }
      at := at + "/" + fs.listings[dir][i.value].name;
    }
    path := Some(at);
  }

  predicate PlainName(s: string) {
    forall c :: c in s ==> c != '/' && c != '\\'
  }

  lemma NameAfterSlash(dir: string, name: string, part: string)
    requires Extlinux.Lower(name) == Extlinux.Lower(part) && PlainName(part)
    ensures FileName(dir + "/" + name) == Extlinux.Lower(part)
  {
    hide AfterLast;
    forall i | 0 <= i < |name|
      ensures name[i] != '/' && name[i] != '\\'
    {
      assert Extlinux.Lower(name)[i] == Extlinux.Lower(part)[i] && part[i] in part;
    }
    var path := dir + "/" + name;
    AfterLastIs(Slashes(path), '/', |dir| + 1);
    assert Slashes(path)[|dir| + 1..] == name;
  }

  /** A path found by components ends in the last of them. */
  lemma {:induction false} FoundName(fs: FileSystem, path: string, parts: seq<string>)
    requires parts != [] && PlainName(parts[|parts| - 1]) && FindFrom(fs, path, parts).Some?
    ensures FileName(FindFrom(fs, path, parts).value) == Extlinux.Lower(parts[|parts| - 1])
    decreases |parts|
  {
    hide Position, FileName;
    var dir := if path == [] then "/" else path;
    var name := fs.listings[dir][Position(fs.listings[dir], Spelled(parts[0])).value].name;
    if |parts| == 1 {
      NameAfterSlash(path, name, parts[0]);
    } else {
      FoundName(fs, path + "/" + name, parts[1..]);
    }
  }

  // ---- The walk ----

  /** What a partition holds: nothing readable, an NTFS or ReFS volume (with or without a boot record
      that loads Windows), or a filesystem (with the architecture in its boot manager's header). */
  datatype Volume = Unknown | Ntfs(loader: bool) | Mounted(fs: FileSystem, arch: Option<string>)

  datatype Partition = Partition(index: Usize, windowsType: bool, volume: Volume)

  /** A disk: whether its MBR holds Windows' bootstrap, and its partitions. */
  datatype Disk = Disk(bootstrap: bool, partitions: seq<Partition>)

  datatype PartitionBoot = PartitionBoot(index: Usize, scan: Scan)

  datatype Install = Install(
    firmware: Option<Firmware>,
    bootManager: Option<string>,
    bcd: Option<string>,
    arch: Option<string>)

  datatype Walk = Walk(parts: seq<PartitionBoot>, windows: Option<Install>, biosPart: Option<Usize>)

  datatype Findings = Findings(
    parts: seq<PartitionBoot>,
    bootManager: Option<string>,
    bcd: Option<string>,
    arch: Option<string>,
    ntfsLoader: Option<Usize>,
    volumes: bool,
    winType: bool)

  const EMPTY := Scan([], None)

  /** One partition. */
  function Visit(f: Findings, p: Partition, wantEntries: bool): Findings {
    var f := f.(winType := f.winType || p.windowsType);
    match p.volume
    case Unknown => f
    case Ntfs(loader) =>
      f.(volumes := true, ntfsLoader := Or(f.ntfsLoader, if loader then Some(p.index) else None),
         parts := f.parts + [PartitionBoot(p.index, EMPTY)])
    case Mounted(fs, arch) =>
      var bm, bcd := FindPath(fs, BOOT_MANAGER), FindPath(fs, BCD);
      f.(arch := Or(f.arch, if bm.Some? then arch else None),
         bootManager := Or(f.bootManager, if bm.Some? then Some(Uri(p.index, bm.value)) else None),
         bcd := Or(f.bcd, if bcd.Some? then Some(Uri(p.index, bcd.value)) else None),
         parts := f.parts + [PartitionBoot(p.index, if wantEntries then BootScan.ScanOf(fs) else EMPTY)])
  }

  const NOTHING := Findings([], None, None, None, None, false, false)

  function Visits(ps: seq<Partition>, wantEntries: bool): Findings {
    if ps == [] then NOTHING else Visit(Visits(ps[..|ps| - 1], wantEntries), ps[|ps| - 1], wantEntries)
  }

  function Verdict(f: Findings, bootstrap: bool): Walk {
    var bios := if bootstrap then f.ntfsLoader else None;
    var firmware :=
      if f.bootManager.Some? then Some(if bios.Some? then Firmware.Both else Firmware.Uefi)
      else if bios.Some? then Some(Firmware.Bios) else None;
    var isWindows := firmware.Some? || f.winType || f.bcd.Some? || f.volumes;
    Walk(f.parts, if isWindows then Some(Install(firmware, f.bootManager, f.bcd, f.arch)) else None, bios)
  }

  function WalkOf(disk: Disk, wantEntries: bool): Walk {
    Verdict(Visits(disk.partitions, wantEntries), disk.bootstrap)
  }

  lemma VisitsNone(wantEntries: bool)
    ensures Visits([], wantEntries) == NOTHING
  {
  }

  lemma VisitsSnoc(ps: seq<Partition>, n: nat, wantEntries: bool)
    requires n < |ps|
    ensures Visits(ps[..n + 1], wantEntries) == Visit(Visits(ps[..n], wantEntries), ps[n], wantEntries)
  {
    hide Visit;
    assert ps[..n + 1][..n] == ps[..n];
  }

  /** `walk`. */
  method WalkDisk(disk: Disk, wantEntries: bool) returns (w: Walk)
    ensures w == WalkOf(disk, wantEntries)
  {
    hide FindPath, BootScan.ScanOf, Uri, Visits;
    VisitsNone(wantEntries);
    assert disk.partitions[..0] == [];
    var parts: seq<PartitionBoot> := [];
    var bootManager: Option<string>, bcd: Option<string>, arch: Option<string> := None, None, None;
    var ntfsLoader: Option<Usize> := None;
    var volumes, winType := false, false;
    for n := 0 to |disk.partitions|
      invariant Findings(parts, bootManager, bcd, arch, ntfsLoader, volumes, winType)
                == Visits(disk.partitions[..n], wantEntries)
    {
      VisitsSnoc(disk.partitions, n, wantEntries);
      var p := disk.partitions[n];
      winType := winType || p.windowsType;
      match p.volume {
        case Unknown =>
        case Ntfs(loader) =>
          volumes := true;
          if loader && ntfsLoader.None? {
            ntfsLoader := Some(p.index);
          }
          parts := parts + [PartitionBoot(p.index, EMPTY)];
        case Mounted(fs, peArch) =>
          var found := FindOnDisk(fs, BOOT_MANAGER);
          if found.Some? {
            if arch.None? {
              arch := peArch;
            }
            if bootManager.None? {
              bootManager := Some(Uri(p.index, found.value));
            }
          }
          found := FindOnDisk(fs, BCD);
          if found.Some? && bcd.None? {
            bcd := Some(Uri(p.index, found.value));
          }
          var scan := EMPTY;
          if wantEntries {
            scan := BootScan.ScanFiles(fs);
          }
          parts := parts + [PartitionBoot(p.index, scan)];
      }
    }
    assert disk.partitions[..|disk.partitions|] == disk.partitions;
    w := Verdict(Findings(parts, bootManager, bcd, arch, ntfsLoader, volumes, winType), disk.bootstrap);
  }

  // ---- What the verdict rests on ----

  function HasBootManager(): Partition -> bool {
    (p: Partition) => p.volume.Mounted? && FindPath(p.volume.fs, BOOT_MANAGER).Some?
  }

  function HasLoader(): Partition -> bool {
    (p: Partition) => p.volume.Ntfs? && p.volume.loader
  }

  /** The walk reports the first boot manager and the first NTFS boot record. */
  lemma {:induction false} VisitsFindFirst(ps: seq<Partition>, wantEntries: bool)
    ensures var f := Visits(ps, wantEntries); var b, l := Position(ps, HasBootManager()), Position(ps, HasLoader());
            && f.bootManager == (if b.Some? then Some(Uri(ps[b.value].index, FindPath(ps[b.value].volume.fs, BOOT_MANAGER).value)) else None)
            && f.ntfsLoader == (if l.Some? then Some(ps[l.value].index) else None)
  {
    hide FindPath, Uri, Position, BootScan.ScanOf;
    if ps == [] {
    } else {
      var init, last := ps[..|ps| - 1], ps[|ps| - 1];
      VisitsFindFirst(init, wantEntries);
      assert ps == init + [last];
      PositionConcat(init, [last], HasBootManager());
      PositionConcat(init, [last], HasLoader());
      PositionOne(last, HasBootManager());
      PositionOne(last, HasLoader());
    }
  }

  function FirmwareFor(uefi: bool, bios: bool): Option<Firmware> {
    match (uefi, bios)
    case (true, true) => Some(Firmware.Both)
    case (true, false) => Some(Firmware.Uefi)
    case (false, true) => Some(Firmware.Bios)
    case (false, false) => None
  }

  /** The firmware verdict for every disk: UEFI by the first boot manager found, BIOS by the first
      NTFS volume that loads Windows, and that only under Windows' own MBR bootstrap. */
  lemma VerdictRestsOnFirstFinds(disk: Disk, wantEntries: bool)
    ensures var w := WalkOf(disk, wantEntries); var ps := disk.partitions;
            var b, l := Position(ps, HasBootManager()), Position(ps, HasLoader());
            && w.biosPart == (if disk.bootstrap && l.Some? then Some(ps[l.value].index) else None)
            && (w.windows.Some? && w.windows.value.firmware.Some? <==> b.Some? || w.biosPart.Some?)
            && (w.windows.Some? ==> w.windows.value.firmware == FirmwareFor(b.Some?, w.biosPart.Some?))
            && (b.Some? ==> w.windows.value.bootManager == Some(Uri(ps[b.value].index, FindPath(ps[b.value].volume.fs, BOOT_MANAGER).value)))
            && (b.None? && w.windows.Some? ==> w.windows.value.bootManager == None)
  {
    hide FindPath, Uri, Position, Visits, HasBootManager, HasLoader;
    VisitsFindFirst(disk.partitions, wantEntries);
  }

  function HasIndex(index: nat): PartitionBoot -> bool {
    (pb: PartitionBoot) => pb.index == index
  }

  /** Every readable partition is listed, in order, with a sound scan of its own. */
  lemma {:induction false} VisitsListAll(ps: seq<Partition>, wantEntries: bool)
    ensures var parts := Visits(ps, wantEntries).parts;
            && (forall pb :: pb in parts ==> SoundScan(pb.scan))
            && (forall p :: p in ps && !p.volume.Unknown? ==> exists k :: 0 <= k < |parts| && parts[k].index == p.index)
  {
    hide FindPath, Uri, SoundScan, BootScan.ScanOf;
    if ps != [] {
      var init, last := ps[..|ps| - 1], ps[|ps| - 1];
      VisitsListAll(init, wantEntries);
      EmptyIsSound();
      if last.volume.Mounted? {
        ScanIsSound(last.volume.fs);
      }
      var before, parts := Visits(init, wantEntries).parts, Visits(ps, wantEntries).parts;
      forall p | p in ps && !p.volume.Unknown?
        ensures exists k :: 0 <= k < |parts| && parts[k].index == p.index
      {
        if p in init {
          var k :| 0 <= k < |before| && before[k].index == p.index;
          assert parts[k].index == p.index;
        } else {
          assert p == last && parts[|before|].index == p.index;
        }
      }
    }
  }

  /** What `boot::scan` promises about a partition's entries before Windows is merged in. */
  ghost predicate SoundScan(s: Scan) {
    && DefaultOk(s)
    && forall e :: e in s.entries ==>
         e.source != Source.Windows && e.windows.None? && (e.chainloader.Some? || e.kernel.Some?)
  }

  lemma EmptyIsSound()
    ensures SoundScan(EMPTY)
  {
  }

  lemma ScanIsSound(fs: FileSystem)
    ensures SoundScan(BootScan.ScanOf(fs))
  {
    hide BootScan.ScanOf, BootScan.Chosen;
    BootScan.ScanIsSound(fs);
  }

  // ---- The listing in full ----

  /** The partitions that something can be made of, in table order. */
  function Known(ps: seq<Partition>): seq<Partition> {
    if ps == [] then []
    else
      var last := ps[|ps| - 1];
      Known(ps[..|ps| - 1]) + if last.volume.Unknown? then [] else [last]
  }

  /** What is listed for a partition: the entries of its own filesystem, nothing for NTFS. */
  function ListedFor(p: Partition): PartitionBoot {
    PartitionBoot(p.index, if p.volume.Mounted? then BootScan.ScanOf(p.volume.fs) else EMPTY)
  }

  /** Each known partition is listed in its place with the scan of its own filesystem, and none besides. */
  lemma {:induction false} VisitsInOrder(ps: seq<Partition>)
    ensures var parts := Visits(ps, true).parts;
            |parts| == |Known(ps)| && forall k :: 0 <= k < |parts| ==> parts[k] == ListedFor(Known(ps)[k])
  {
    hide FindPath, Uri, BootScan.ScanOf;
    if ps != [] {
      VisitsInOrder(ps[..|ps| - 1]);
    }
  }

  lemma {:induction false} KnownIff(ps: seq<Partition>, p: Partition)
    ensures p in Known(ps) <==> p in ps && !p.volume.Unknown?
  {
    if ps != [] {
      KnownIff(ps[..|ps| - 1], p);
      assert ps == ps[..|ps| - 1] + [ps[|ps| - 1]];
    }
  }

  /** In particular every mounted partition is, wherever it comes in the table. */
  lemma MountedIsListed(disk: Disk, p: Partition) returns (i: nat)
    requires p in disk.partitions && p.volume.Mounted?
    ensures var parts := WalkOf(disk, true).parts;
            i < |parts| && parts[i] == PartitionBoot(p.index, BootScan.ScanOf(p.volume.fs))
  {
    hide Visits, BootScan.ScanOf;
    VisitsInOrder(disk.partitions);
    KnownIff(disk.partitions, p);
    i :| 0 <= i < |Known(disk.partitions)| && Known(disk.partitions)[i] == p;
  }

  function HasArch(): Partition -> bool {
    (p: Partition) => p.volume.Mounted? && FindPath(p.volume.fs, BOOT_MANAGER).Some? && p.volume.arch.Some?
  }

  function HasStore(): Partition -> bool {
    (p: Partition) => p.volume.Mounted? && FindPath(p.volume.fs, BCD).Some?
  }

  /** The architecture of partition `a`, if there is such a partition and it has one. */
  function ArchAt(ps: seq<Partition>, a: Option<nat>): Option<string> {
    if a.Some? && a.value < |ps| && ps[a.value].volume.Mounted? then ps[a.value].volume.arch else None
  }

  lemma {:induction false} VisitsFindArch(ps: seq<Partition>, wantEntries: bool)
    ensures Visits(ps, wantEntries).arch == ArchAt(ps, Position(ps, HasArch()))
  {
    hide FindPath, Uri, Position, BootScan.ScanOf;
    if ps != [] {
      var init, last := ps[..|ps| - 1], ps[|ps| - 1];
      VisitsFindArch(init, wantEntries);
      assert ps == init + [last];
      PositionConcat(init, [last], HasArch());
      PositionOne(last, HasArch());
    }
  }

  lemma {:induction false} VisitsFindStore(ps: seq<Partition>, wantEntries: bool)
    ensures Visits(ps, wantEntries).bcd.Some? <==> Position(ps, HasStore()).Some?
  {
    hide FindPath, Uri, Position, BootScan.ScanOf;
    if ps != [] {
      var init, last := ps[..|ps| - 1], ps[|ps| - 1];
      VisitsFindStore(init, wantEntries);
      assert ps == init + [last];
      PositionConcat(init, [last], HasStore());
      PositionOne(last, HasStore());
    }
  }

  lemma {:induction false} VisitsFindSigns(ps: seq<Partition>, wantEntries: bool)
    ensures Visits(ps, wantEntries).volumes <==> exists p :: p in ps && p.volume.Ntfs?
    ensures Visits(ps, wantEntries).winType <==> exists p :: p in ps && p.windowsType
  {
    hide FindPath, Uri, BootScan.ScanOf;
    if ps != [] {
      var init, last := ps[..|ps| - 1], ps[|ps| - 1];
      VisitsFindSigns(init, wantEntries);
      assert last in ps && forall p :: p in ps <==> p in init || p == last;
    }
  }

  /** A disk is called Windows exactly when it has a way to boot it, an NTFS volume, a partition type
      of Windows or its configuration store; its architecture is the first that a boot manager has. */
  lemma WindowsIff(disk: Disk)
    ensures var w := WalkOf(disk, true); var ps := disk.partitions; var a := Position(ps, HasArch());
            && (w.windows.Some? <==>
                  || Position(ps, HasBootManager()).Some? || Position(ps, HasStore()).Some?
                  || exists p :: p in ps && (p.volume.Ntfs? || p.windowsType))
            && (w.windows.Some? ==> w.windows.value.arch == ArchAt(ps, a))
  {
    hide Position, Visits, FindPath, Uri, HasBootManager, HasLoader, HasArch, HasStore;
    VisitsFindFirst(disk.partitions, true);
    VisitsFindArch(disk.partitions, true);
    VisitsFindStore(disk.partitions, true);
    VisitsFindSigns(disk.partitions, true);
    var l := Position(disk.partitions, HasLoader());
    if l.Some? {
      LoaderHasVolume(disk.partitions[l.value]);
      assert disk.partitions[l.value] in disk.partitions;
    }
  }

  lemma LoaderHasVolume(p: Partition)
    requires HasLoader()(p)
    ensures p.volume.Ntfs?
  {
  }
}
