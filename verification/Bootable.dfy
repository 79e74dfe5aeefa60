/** The merged answer: every partition that boots something (`bootable`, src/guest.rs). */
module Bootable {
  import opened Common
  import opened Text
  import opened Files
  import opened BootEntries
  import opened Sweep
  import opened Guest
  import BootScan
  import Extlinux
  import Fallback
  import NewestFirst

  // ---- Resolving chainloaders ----

  /** A `chainloader` item can be started only if it names the boot manager that was found. */
  predicate Startable(w: Option<Install>, e: BootEntry) {
    || e.chainloader.None?
    || (w.Some? && w.value.bootManager.Some? && SameFile(e.chainloader.value, PathOf(w.value.bootManager.value)))
  }

  predicate Declares(w: Option<Install>, e: BootEntry) {
    e.chainloader.Some? && Startable(w, e)
  }

  function Resolved(w: Option<Install>, e: BootEntry): BootEntry {
    if Declares(w, e) then e.(windows := Some(WindowsBoot(Uefi, w.value.arch, w.value.bootManager))) else e
  }

  function ResolvedAll(w: Option<Install>, entries: seq<BootEntry>): (r: seq<BootEntry>)
    ensures |r| == |entries| && forall i :: 0 <= i < |r| ==> r[i] == Resolved(w, entries[i])
  {
    seq(|entries|, i requires 0 <= i < |entries| => Resolved(w, entries[i]))
  }

  function StartableMask(w: Option<Install>, entries: seq<BootEntry>): (keep: seq<bool>)
    ensures |keep| == |entries| && forall i :: 0 <= i < |keep| ==> keep[i] == Startable(w, entries[i])
  {
    seq(|entries|, i requires 0 <= i < |entries| => Startable(w, entries[i]))
  }

  predicate DeclaresAny(w: Option<Install>, entries: seq<BootEntry>) {
    exists i :: 0 <= i < |entries| && Declares(w, entries[i])
  }

  /** What is left of one partition's entries. */
  function SweepScan(w: Option<Install>, s: Scan): Scan
    requires DefaultOk(s)
  {
    Retain(Scan(ResolvedAll(w, s.entries), s.default), StartableMask(w, s.entries))
  }

  /** The loop over one partition's entries. */
  method MarkEntries(w: Option<Install>, entries: seq<BootEntry>) returns (resolved: seq<BootEntry>, keep: seq<bool>, declared: bool)
    ensures resolved == ResolvedAll(w, entries) && keep == StartableMask(w, entries)
    ensures declared == DeclaresAny(w, entries)
  {
    hide SameFile, PathOf;
    resolved, keep, declared := entries, [], false;
    for n := 0 to |entries|
      invariant |resolved| == |entries| && |keep| == n
      invariant forall k :: 0 <= k < n ==> resolved[k] == Resolved(w, entries[k]) && keep[k] == Startable(w, entries[k])
      invariant forall k :: n <= k < |entries| ==> resolved[k] == entries[k]
      invariant declared == exists k :: 0 <= k < n && Declares(w, entries[k])
    {
      var e := entries[n];
      if e.chainloader.None? {
        keep := keep + [true];
      } else if w.Some? && w.value.bootManager.Some? && SameFile(e.chainloader.value, PathOf(w.value.bootManager.value)) {
        assert Declares(w, entries[n]);
        resolved := resolved[n := e.(windows := Some(WindowsBoot(Uefi, w.value.arch, w.value.bootManager)))];
        declared := true;
        keep := keep + [true];
      } else {
        keep := keep + [false];
      }
    }
  }

  // ---- Merging Windows in ----

  /** The partition that hosts the entry: the boot manager's, else the BIOS system volume. */
  function Host(w: Walk): Option<nat>
    requires w.windows.Some?
  {
    var bm := w.windows.value.bootManager;
    Or(if bm.Some? then UriPartition(bm.value) else None, w.biosPart)
  }

  function WindowsEntry(win: Install, firmware: Firmware): BootEntry {
    BLANK.(title := Some("Windows Boot Manager"), id := Some("windows"), source := Source.Windows,
           windows := Some(WindowsBoot(firmware, win.arch, win.bootManager)))
  }

  /** A scan with one more entry, which is the default only if there was none. */
  function WithEntry(s: Scan, e: BootEntry): Scan {
    Scan(s.entries + [e], Or(s.default, Some(|s.entries|)))
  }

  function AllOk(parts: seq<PartitionBoot>): bool {
    forall i :: 0 <= i < |parts| ==> DefaultOk(parts[i].scan)
  }

  function Swept(w: Option<Install>, parts: seq<PartitionBoot>): (r: seq<PartitionBoot>)
    requires AllOk(parts)
    ensures |r| == |parts|
    ensures forall i :: 0 <= i < |r| ==> r[i] == PartitionBoot(parts[i].index, SweepScan(w, parts[i].scan))
  {
    seq(|parts|, i requires 0 <= i < |parts| => PartitionBoot(parts[i].index, SweepScan(w, parts[i].scan)))
  }

  predicate Declared(w: Walk) {
    exists i :: 0 <= i < |w.parts| && DeclaresAny(w.windows, w.parts[i].scan.entries)
  }

  /** Windows boots but no configuration says so. */
  predicate Undeclared(w: Walk) {
    !Declared(w) && w.windows.Some? && w.windows.value.firmware.Some?
  }

  function Merged(parts: seq<PartitionBoot>, w: Walk): seq<PartitionBoot>
  {
    if !Undeclared(w) || Host(w).None? then parts
    else
      match Position(parts, HasIndex(Host(w).value))
      case None => parts
      case Some(i) =>
        parts[i := parts[i].(scan := WithEntry(parts[i].scan, WindowsEntry(w.windows.value, w.windows.value.firmware.value)))]
  }

  function NonEmptyParts(parts: seq<PartitionBoot>): seq<PartitionBoot> {
    if parts == [] then []
    else (if parts[0].scan.entries != [] then [parts[0]] else []) + NonEmptyParts(parts[1..])
  }

  function BootableOf(disk: Disk): seq<PartitionBoot> {
    var w := WalkOf(disk, true);
    WalkIsOk(disk);
    NonEmptyParts(Merged(Swept(w.windows, w.parts), w))
  }

  lemma WalkIsOk(disk: Disk)
    ensures AllOk(WalkOf(disk, true).parts)
    ensures forall pb :: pb in WalkOf(disk, true).parts ==> SoundScan(pb.scan)
  {
    hide Visits, DefaultOk;
    VisitsListAll(disk.partitions, true);
  }

  /** `bootable`. */
  method BootableParts(disk: Disk) returns (parts: seq<PartitionBoot>)
    ensures parts == BootableOf(disk)
  {
    hide WalkOf, DeclaresAny, Kept, Marked, SweepScan, Position, UriPartition, DefaultOk;
    var w := WalkDisk(disk, true);
    WalkIsOk(disk);
    parts := w.parts;
    var declared := false;
    for n := 0 to |parts|
      invariant |parts| == |w.parts|
      invariant forall k :: 0 <= k < n ==> parts[k] == PartitionBoot(w.parts[k].index, SweepScan(w.windows, w.parts[k].scan))
      invariant forall k :: n <= k < |parts| ==> parts[k] == w.parts[k]
      invariant declared == exists k :: 0 <= k < n && DeclaresAny(w.windows, w.parts[k].scan.entries)
    {
      var scan := parts[n].scan;
      var resolved, keep, found := MarkEntries(w.windows, scan.entries);
      SweepIs(w.windows, scan, resolved, keep);
      declared := declared || found;
      parts := parts[n := parts[n].(scan := SweepScan(w.windows, scan))];
    }
    assert parts == Swept(w.windows, w.parts);
    if !declared && w.windows.Some? && w.windows.value.firmware.Some? {
      var win := w.windows.value;
      var host := Host(w);
      if host.Some? {
        var i := Position(parts, HasIndex(host.value));
        if i.Some? {
          parts := parts[i.value := parts[i.value].(scan := WithEntry(parts[i.value].scan, WindowsEntry(win, win.firmware.value)))];
        }
      }
    }
    parts := NonEmptyParts(parts);
  }

  lemma SweepIs(w: Option<Install>, s: Scan, resolved: seq<BootEntry>, keep: seq<bool>)
    requires DefaultOk(s) && resolved == ResolvedAll(w, s.entries) && keep == StartableMask(w, s.entries)
    ensures SweepScan(w, s) == Retain(Scan(resolved, s.default), keep)
  {
  }

  // ---- The host is listed ----

  /** When there is a way to boot Windows, the partition it hangs on is among those listed. */
  lemma HostIsListed(disk: Disk)
    ensures var w := WalkOf(disk, true);
            w.windows.Some? && w.windows.value.firmware.Some? ==>
              Host(w).Some? && exists k :: 0 <= k < |w.parts| && w.parts[k].index == Host(w).value
  {
    hide FindPath, Uri, UriPartition, Visits, HasBootManager, HasLoader, Position;
    var w, ps := WalkOf(disk, true), disk.partitions;
    VerdictRestsOnFirstFinds(disk, true);
    VisitsListAll(ps, true);
    var b, l := Position(ps, HasBootManager()), Position(ps, HasLoader());
    if w.windows.Some? && w.windows.value.firmware.Some? {
      var p := ps[if b.Some? then b.value else l.value];
      if b.Some? {
        BootManagerIsMounted(p);
        UriRoundTrip(p.index, FindPath(p.volume.fs, BOOT_MANAGER).value);
      } else {
        LoaderIsNtfs(p);
      }
      assert p in ps && Host(w) == Some(p.index);
    }
  }

  lemma BootManagerIsMounted(p: Partition)
    requires HasBootManager()(p)
    ensures p.volume.Mounted? && FindPath(p.volume.fs, BOOT_MANAGER).Some?
  {
    hide FindPath;
  }

  lemma LoaderIsNtfs(p: Partition)
    requires HasLoader()(p)
    ensures p.volume.Ntfs?
  {
  }

  // ---- Soundness ----

  predicate Boots(e: BootEntry) {
    e.kernel.Some? || e.windows.Some?
  }

  /** What is promised of a partition's entries after the sweep, before Windows is added. */
  ghost predicate SweptOk(s: Scan) {
    && DefaultOk(s)
    && forall e :: e in s.entries ==> Boots(e) && e.source != Source.Windows && (e.chainloader.Some? ==> e.windows.Some?)
  }

  lemma ResolvedBoots(w: Option<Install>, e: BootEntry)
    requires Startable(w, e) && (e.chainloader.Some? || e.kernel.Some?) && e.source != Source.Windows
    ensures var r := Resolved(w, e);
            Boots(r) && r.source != Source.Windows && (r.chainloader.Some? ==> r.windows.Some?)
  {
    hide SameFile, PathOf;
  }

  lemma SweepIsSound(w: Option<Install>, s: Scan)
    requires SoundScan(s)
    ensures SweptOk(SweepScan(w, s))
  {
    hide Kept, Marked, Startable, Resolved, Boots, DefaultOk;
    var all := Scan(ResolvedAll(w, s.entries), s.default);
    var keep := StartableMask(w, s.entries);
    SameDefault(s, all);
    RetainCarriesDefault(all, keep);
    var r := SweepScan(w, s).entries;
    forall e | e in r
      ensures Boots(e) && e.source != Source.Windows && (e.chainloader.Some? ==> e.windows.Some?)
    {
      var k :| 0 <= k < |r| && r[k] == e;
      var i := KeptFrom(all.entries, keep, k);
      KeptAt(all.entries, keep, i);
      assert s.entries[i] in s.entries;
      ResolvedBoots(w, s.entries[i]);
    }
  }

  lemma SameDefault(s: Scan, t: Scan)
    requires DefaultOk(s) && |t.entries| == |s.entries| && t.default == s.default
    ensures DefaultOk(t) && (s.default.Some? ==> s.default.value < |s.entries|)
  {
  }

  function CountWindows(entries: seq<BootEntry>): nat {
    if entries == [] then 0
    else CountWindows(entries[..|entries| - 1]) + if entries[|entries| - 1].source == Source.Windows then 1 else 0
  }

  lemma {:induction false} NoWindows(entries: seq<BootEntry>)
    requires forall e :: e in entries ==> e.source != Source.Windows
    ensures CountWindows(entries) == 0
  {
    if entries != [] {
      NoWindows(entries[..|entries| - 1]);
    }
  }

  /** Entries of `parts` that no configuration declares. */
  function Synthesised(parts: seq<PartitionBoot>): nat {
    if parts == [] then 0 else CountWindows(parts[0].scan.entries) + Synthesised(parts[1..])
  }

  lemma {:induction false} NoneSynthesised(parts: seq<PartitionBoot>)
    requires forall i :: 0 <= i < |parts| ==> SweptOk(parts[i].scan)
    ensures Synthesised(parts) == 0
  {
    hide SweptOk;
    if parts != [] {
      SweptHasNoWindows(parts[0].scan);
      NoneSynthesised(parts[1..]);
    }
  }

  lemma SweptHasNoWindows(s: Scan)
    requires SweptOk(s)
    ensures CountWindows(s.entries) == 0
  {
    NoWindows(s.entries);
  }

  lemma {:induction false} OneSynthesised(parts: seq<PartitionBoot>, i: nat, pb: PartitionBoot)
    requires i < |parts| && CountWindows(pb.scan.entries) == CountWindows(parts[i].scan.entries) + 1
    ensures Synthesised(parts[i := pb]) == Synthesised(parts) + 1
  {
    hide CountWindows;
    if i == 0 {
      assert parts[i := pb][1..] == parts[1..];
    } else {
      OneSynthesised(parts[1..], i - 1, pb);
      assert parts[i := pb][1..] == parts[1..][i - 1 := pb];
    }
  }

  lemma {:induction false} FilterKeepsCount(parts: seq<PartitionBoot>)
    ensures Synthesised(NonEmptyParts(parts)) == Synthesised(parts)
  {
    hide CountWindows;
    if parts != [] {
      var rest := NonEmptyParts(parts[1..]);
      FilterKeepsCount(parts[1..]);
      if parts[0].scan.entries != [] {
        assert ([parts[0]] + rest)[1..] == rest;
      } else {
        NoWindows(parts[0].scan.entries);
        assert [] + rest == rest;
      }
    }
  }

  lemma {:induction false} FilterKeepsNonEmpty(parts: seq<PartitionBoot>)
    ensures forall pb :: pb in NonEmptyParts(parts) <==> pb in parts && pb.scan.entries != []
  {
    if parts != [] {
      FilterKeepsNonEmpty(parts[1..]);
      assert parts == [parts[0]] + parts[1..];
    }
  }

  /** A partition as `bootable` may return it. */
  ghost predicate Good(s: Scan) {
    DefaultOk(s) && forall e :: e in s.entries ==> Boots(e)
  }

  lemma AddingIsGood(s: Scan, e: BootEntry)
    requires SweptOk(s) && Boots(e) && e.source == Source.Windows
    ensures Good(WithEntry(s, e)) && CountWindows(WithEntry(s, e).entries) == CountWindows(s.entries) + 1
  {
    assert WithEntry(s, e).entries[..|s.entries|] == s.entries;
  }

  lemma MergedIsGood(parts: seq<PartitionBoot>, w: Walk)
    requires forall i :: 0 <= i < |parts| ==> SweptOk(parts[i].scan)
    requires Undeclared(w) ==> Host(w).Some? && exists k :: 0 <= k < |parts| && HasIndex(Host(w).value)(parts[k])
    ensures var merged := Merged(parts, w);
            (forall pb :: pb in merged ==> Good(pb.scan)) && Synthesised(merged) == if Undeclared(w) then 1 else 0
  {
    hide SweptOk, Good, Synthesised, Declared, UriPartition, Position, CountWindows, WithEntry, HasIndex;
    NoneSynthesised(parts);
    forall i | 0 <= i < |parts|
      ensures Good(parts[i].scan)
    {
      SweptIsGood(parts[i].scan);
    }
    if Undeclared(w) {
      var i := Position(parts, HasIndex(Host(w).value)).value;
      var win := w.windows.value;
      var e := WindowsEntry(win, win.firmware.value);
      AddingIsGood(parts[i].scan, e);
      OneSynthesised(parts, i, parts[i].(scan := WithEntry(parts[i].scan, e)));
    }
  }

  lemma SweptIsGood(s: Scan)
    requires SweptOk(s)
    ensures Good(s)
  {
  }

  /** End to end, for every disk: each returned partition has entries and a default among them, each
      entry has a kernel or a Windows target, and Windows is added exactly once when it boots and no
      configuration declares it, otherwise never. */
  lemma BootableIsSound(disk: Disk)
    ensures var parts := BootableOf(disk); var w := WalkOf(disk, true);
            && (forall pb :: pb in parts ==>
                  && pb.scan.entries != [] && pb.scan.default.Some? && pb.scan.default.value < |pb.scan.entries|
                  && forall e :: e in pb.scan.entries ==> Boots(e))
            && Synthesised(parts) == if Undeclared(w) then 1 else 0
  {
    hide WalkOf, Synthesised, SweepScan, SweptOk, SoundScan, Declared, UriPartition;
    var w := WalkOf(disk, true);
    WalkIsOk(disk);
    var swept := Swept(w.windows, w.parts);
    forall i | 0 <= i < |swept|
      ensures SweptOk(swept[i].scan)
    {
      assert w.parts[i] in w.parts;
      SweepIsSound(w.windows, w.parts[i].scan);
    }
    HostIsListed(disk);
    if Undeclared(w) {
      var k :| 0 <= k < |w.parts| && w.parts[k].index == Host(w).value;
      assert HasIndex(Host(w).value)(swept[k]);
    }
    MergedIsGood(swept, w);
    FilterKeepsCount(Merged(swept, w));
    FilterKeepsNonEmpty(Merged(swept, w));
  }

  // ---- Which entry boots ----

  lemma {:induction false} KeptResolved(w: Option<Install>, entries: seq<BootEntry>, keep: seq<bool>)
    requires |keep| == |entries|
    ensures Kept(ResolvedAll(w, entries), keep) == ResolvedAll(w, Kept(entries, keep))
  {
    hide Resolved;
    if entries != [] {
      KeptResolved(w, entries[1..], keep[1..]);
      assert ResolvedAll(w, entries)[1..] == ResolvedAll(w, entries[1..]);
    }
  }

  /** From the source to the final answer: the two sweeps of a partition amount to one sweep of what
      its configuration declares, by the conjunction of the two reasons to stay, default included. */
  lemma PartitionIsOneSweep(fs: FileSystem, w: Option<Install>)
    ensures DefaultOk(BootScan.ScanOf(fs)) && DefaultOk(BootScan.Chosen(fs))
    ensures var keep := Mask(BootScan.Chosen(fs).entries, e => BootScan.Alive(fs, e) && Startable(w, e));
            var r := Retain(BootScan.Chosen(fs), keep);
            SweepScan(w, BootScan.ScanOf(fs)) == Scan(ResolvedAll(w, r.entries), r.default)
  {
    hide BootScan.Chosen, Kept, Marked, Sweep.Both, BootScan.Alive, Startable, DefaultOk, BootScan.ChosenSource;
    BootScan.ScanIsSound(fs);
    BootScan.ChosenDefaultOk(fs);
    var chosen, scan := BootScan.Chosen(fs), BootScan.ScanOf(fs);
    var first := BootScan.AliveMask(fs, chosen.entries);
    var second := StartableMask(w, scan.entries);
    var both := Mask(chosen.entries, e => BootScan.Alive(fs, e) && Startable(w, e));
    KeptLength(chosen.entries, first);
    forall i | 0 <= i < |both|
      ensures Sweep.Both(first, second)[i] == both[i]
    {
      BothAt(first, second, i);
      if first[i] {
        KeptAt(chosen.entries, first, i);
      }
    }
    assert Sweep.Both(first, second) == both;
    TwoSweepsAreOne(chosen, first, second);
    SweepCommutes(w, scan, second);
  }

  lemma SweepCommutes(w: Option<Install>, s: Scan, keep: seq<bool>)
    requires |keep| == |s.entries| && DefaultOk(s)
    ensures var r := Retain(s, keep);
            Retain(Scan(ResolvedAll(w, s.entries), s.default), keep) == Scan(ResolvedAll(w, r.entries), r.default)
  {
    hide Kept, Marked, Resolved;
    KeptResolved(w, s.entries, keep);
  }

  lemma MergingExtends(parts: seq<PartitionBoot>, w: Walk, i: nat)
    requires i < |parts| && DefaultOk(parts[i].scan) && parts[i].scan.entries != []
    ensures |Merged(parts, w)| == |parts| && Merged(parts, w)[i].index == parts[i].index
    ensures Extends(Merged(parts, w)[i].scan, parts[i].scan)
  {
    hide Declared, UriPartition, Position, HasIndex, WindowsEntry;
  }

  /** `t` has the entries of `s`, perhaps more after them, and the same default. */
  predicate Extends(t: Scan, s: Scan) {
    s.entries <= t.entries && t.default == s.default
  }

  /** Nothing that a configuration declares and that can be started is lost, moved or replaced as
      the default by what comes after the sweep: each partition with such an entry is returned. */
  lemma DeclaredEntriesAreReturned(disk: Disk, i: nat) returns (pb: PartitionBoot)
    requires i < |WalkOf(disk, true).parts| && DefaultOk(WalkOf(disk, true).parts[i].scan)
    requires SweepScan(WalkOf(disk, true).windows, WalkOf(disk, true).parts[i].scan).entries != []
    ensures var w := WalkOf(disk, true);
            && pb in BootableOf(disk) && pb.index == w.parts[i].index
            && Extends(pb.scan, SweepScan(w.windows, w.parts[i].scan))
  {
    hide WalkOf, SweepScan, Extends, Merged, DefaultOk, SoundScan, SweptOk;
    var w := WalkOf(disk, true);
    WalkIsOk(disk);
    assert w.parts[i] in w.parts;
    SweepIsSound(w.windows, w.parts[i].scan);
    var swept := Swept(w.windows, w.parts);
    SweptDefault(swept[i].scan);
    MergingExtends(swept, w, i);
    pb := Merged(swept, w)[i];
    ExtendsNonEmpty(pb.scan, swept[i].scan);
    FilterKeepsNonEmpty(Merged(swept, w));
  }

  lemma SweptDefault(s: Scan)
    requires SweptOk(s)
    ensures DefaultOk(s)
  {
  }

  lemma ExtendsNonEmpty(t: Scan, s: Scan)
    requires Extends(t, s) && s.entries != []
    ensures t.entries != []
  {
  }

  /** When Windows boots undeclared, its entry is put last on its host partition, behind everything
      left there, and it is the default exactly when nothing is. */
  lemma WindowsIsDefaultIffAlone(disk: Disk) returns (i: nat, pb: PartitionBoot)
    requires Undeclared(WalkOf(disk, true))
    ensures var w := WalkOf(disk, true);
            && i < |w.parts| && Host(w) == Some(w.parts[i].index) && DefaultOk(w.parts[i].scan)
            && pb in BootableOf(disk) && pb.index == w.parts[i].index
            && pb.scan.entries == SweepScan(w.windows, w.parts[i].scan).entries
                                  + [WindowsEntry(w.windows.value, w.windows.value.firmware.value)]
            && pb.scan.default.Some?
            && (pb.scan.default.value == |pb.scan.entries| - 1 <==> SweepScan(w.windows, w.parts[i].scan).entries == [])
  {
    hide WalkOf, SweepScan, SoundScan, SweptOk, Declared, DefaultOk, Position, UriPartition;
    var w := WalkOf(disk, true);
    WalkIsOk(disk);
    HostIsListed(disk);
    var swept := Swept(w.windows, w.parts);
    var k :| 0 <= k < |w.parts| && w.parts[k].index == Host(w).value;
    assert HasIndex(Host(w).value)(swept[k]);
    i := Position(swept, HasIndex(Host(w).value)).value;
    assert w.parts[i] in w.parts;
    SweepIsSound(w.windows, w.parts[i].scan);
    SweptDefault(swept[i].scan);
    pb := Merged(swept, w)[i];
    LastIsDefaultIffAlone(swept[i].scan, WindowsEntry(w.windows.value, w.windows.value.firmware.value));
    FilterKeepsNonEmpty(Merged(swept, w));
  }

  lemma LastIsDefaultIffAlone(s: Scan, e: BootEntry)
    requires DefaultOk(s)
    ensures var t := WithEntry(s, e);
            t.entries != [] && t.default.Some? && (t.default.value == |t.entries| - 1 <==> s.entries == [])
  {
  }

  // ---- A disk on which Windows is not the default ----

  const EFI_DIR: string := "" + "/" + "EFI"
  const MICROSOFT_DIR: string := EFI_DIR + "/" + "Microsoft"
  const BOOT_DIR: string := MICROSOFT_DIR + "/" + "Boot"

  /** One filesystem with a kernel and with the Windows boot manager, and no configuration. */
  const DUAL: FileSystem := FileSystem(
    map[],
    map["/" := [DirEntry("EFI", true), DirEntry("vmlinuz-1", false)],
        EFI_DIR := [DirEntry("Microsoft", true)],
        MICROSOFT_DIR := [DirEntry("Boot", true)],
        BOOT_DIR := [DirEntry("bootmgfw.efi", false)]],
    map[],
    {"/vmlinuz-1"})

  const DUAL_DISK: Disk := Disk(false, [Partition(1, false, Mounted(DUAL, None))])

  lemma {:induction false} NoGrub(fs: FileSystem, paths: seq<string>, env: Env)
    requires fs.texts == map[]
    ensures BootScan.FirstGrub(fs, paths, env) == None
  {
    if paths != [] {
      NoGrub(fs, paths[..|paths| - 1], env);
    }
  }

  lemma {:induction false} NoExtlinux(fs: FileSystem, paths: seq<string>)
    requires fs.texts == map[]
    ensures BootScan.FirstExtlinux(fs, paths) == None
  {
    if paths != [] {
      NoExtlinux(fs, paths[..|paths| - 1]);
    }
  }

  lemma NoBls(fs: FileSystem, prefix: string, dir: string)
    requires dir == prefix + "/loader/entries" && dir !in fs.names
    ensures forall env, sdDefault :: BootScan.BlsAt(fs, prefix, env, sdDefault) == None
  {
  }

  lemma NothingConfigured(fs: FileSystem)
    requires fs.texts == map[] && "/loader/entries" !in fs.names && "/boot/loader/entries" !in fs.names
    ensures BootScan.Chosen(fs) == Fallback.Parse(fs)
  {
    hide Fallback.Parse, BootScan.LoadEnv, BootScan.SdDefault, BootScan.GrubPaths, BootScan.FirstGrub, BootScan.FirstExtlinux;
    hide BootScan.UsesBls, BootScan.BlsAt;
    NoBls(fs, "", "/loader/entries");
    NoBls(fs, "/boot", "/boot/loader/entries");
    NoGrub(fs, BootScan.GrubPaths(fs), BootScan.LoadEnv(fs));
    NoExtlinux(fs, BootScan.EXTLINUX_PATHS);
  }

  lemma DualKernels(fs: FileSystem) returns (initrds: seq<Fallback.Image>)
    requires fs.listings == DUAL.listings
    ensures Fallback.ItemsIn(fs, "") == [Fallback.Pair(Fallback.Image("1", "/vmlinuz-1"), initrds)]
  {
    hide Fallback.Pair, Fallback.Initrds;
    assert |EFI_DIR| == 4 && |MICROSOFT_DIR| == 14 && |BOOT_DIR| == 19;
    var listing := fs.listings["/"];
    initrds := Fallback.Initrds("", listing);
    assert Fallback.KernelVersion("vmlinuz-1") == Some("1");
    assert !Fallback.Special("1") by {
      assert forall n :: 0 <= n <= 1 ==> |From("1", n)| <= 1;
    }
    assert listing[..1] == [DirEntry("EFI", true)];
    assert Fallback.Kernels("", listing[..1]) == [];
    assert "" + "/" + "vmlinuz-1" == "/vmlinuz-1";
    assert Fallback.Kernels("", listing) == [Fallback.Image("1", "/vmlinuz-1")];
  }

  lemma DualEntry(fs: FileSystem) returns (e: BootEntry)
    requires fs.listings == DUAL.listings
    ensures Fallback.Parse(fs).entries == [e] && e.kernel == Some("/vmlinuz-1") && e.chainloader.None?
  {
    hide Fallback.ItemsIn, Fallback.DefaultOf, Position;
    var initrds := DualKernels(fs);
    var item := Fallback.Pair(Fallback.Image("1", "/vmlinuz-1"), initrds);
    e := item.entry;
    assert Fallback.ItemsIn(fs, "/boot") == [] by {
      assert |EFI_DIR| == 4 && EFI_DIR[1] == 'E' && |MICROSOFT_DIR| == 14 && |BOOT_DIR| == 19 && |"/boot"| == 5;
      NotListed(fs, "/boot");
    }
    assert PREFIXES[..1] == [""] && PREFIXES[..1][..0] == [];
    assert Fallback.Items(fs, PREFIXES[..1]) == [] + [item];
    assert Fallback.Items(fs, PREFIXES) == [item];
    assert [item][1..] == [];
    assert NewestFirst.Sort([item]) == [item];
  }

  lemma NotListed(fs: FileSystem, prefix: string)
    requires prefix != [] && prefix !in fs.listings
    ensures Fallback.ItemsIn(fs, prefix) == []
  {
  }

  /** The first entry of that directory has that name. */
  predicate FirstIn(fs: FileSystem, path: string, name: string) {
    var dir := if path == [] then "/" else path;
    dir in fs.listings && fs.listings[dir] != [] && fs.listings[dir][0].name == name
  }

  /** Following `parts` from a directory, each is the first entry there. */
  predicate Leads(fs: FileSystem, path: string, parts: seq<string>)
    decreases |parts|
  {
    parts == [] || (FirstIn(fs, path, parts[0]) && Leads(fs, path + "/" + parts[0], parts[1..]))
  }

  lemma {:induction false} LeadsThere(fs: FileSystem, path: string, parts: seq<string>)
    requires Leads(fs, path, parts)
    ensures FindFrom(fs, path, parts).Some?
    decreases |parts|
  {
    hide Position;
    if parts != [] {
      var dir := if path == [] then "/" else path;
      PositionIs(fs.listings[dir], Spelled(parts[0]), 0);
      LeadsThere(fs, path + "/" + parts[0], parts[1..]);
    }
  }

  lemma LeadsOn(fs: FileSystem, path: string, part: string, rest: seq<string>)
    requires FirstIn(fs, path, part) && Leads(fs, path + "/" + part, rest)
    ensures Leads(fs, path, [part] + rest)
  {
    hide FirstIn;
    assert ([part] + rest)[1..] == rest;
  }

  lemma DualHasBootManager()
    ensures FindPath(DUAL, BOOT_MANAGER).Some?
  {
    hide FindFrom, DUAL, EFI_DIR, MICROSOFT_DIR, BOOT_DIR, FirstIn, Leads;
    DualListings();
    var r0: seq<string> := [];
    LeadsNowhere(DUAL, BOOT_DIR + "/" + "bootmgfw.efi");
    LeadsOn(DUAL, BOOT_DIR, "bootmgfw.efi", r0);
    var r1 := ["bootmgfw.efi"] + r0;
    LeadsOn(DUAL, MICROSOFT_DIR, "Boot", r1);
    var r2 := ["Boot"] + r1;
    LeadsOn(DUAL, EFI_DIR, "Microsoft", r2);
    var r3 := ["Microsoft"] + r2;
    LeadsOn(DUAL, "", "EFI", r3);
    assert BOOT_MANAGER == ["EFI"] + r3;
    LeadsThere(DUAL, "", BOOT_MANAGER);
  }

  lemma LeadsNowhere(fs: FileSystem, path: string)
    ensures Leads(fs, path, [])
  {
  }

  lemma DualListings()
    ensures FirstIn(DUAL, "", "EFI") && FirstIn(DUAL, EFI_DIR, "Microsoft")
    ensures FirstIn(DUAL, MICROSOFT_DIR, "Boot") && FirstIn(DUAL, BOOT_DIR, "bootmgfw.efi")
    ensures "" + "/" + "EFI" == EFI_DIR && EFI_DIR + "/" + "Microsoft" == MICROSOFT_DIR && MICROSOFT_DIR + "/" + "Boot" == BOOT_DIR
  {
    assert |EFI_DIR| == 4 && |MICROSOFT_DIR| == 14 && |BOOT_DIR| == 19;
  }

  lemma DualWalk()
    ensures var w := WalkOf(DUAL_DISK, true);
            w.parts == [PartitionBoot(1, BootScan.ScanOf(DUAL))] && w.windows.Some? && w.windows.value.firmware.Some?
  {
    hide BootScan.ScanOf, FindPath, Uri;
    hide DUAL;
    DualHasBootManager();
    var p := DUAL_DISK.partitions[0];
    assert DUAL_DISK.partitions[..0] == [];
    assert Visits(DUAL_DISK.partitions, true) == Visit(NOTHING, p, true);
  }

  /** A kernel found beside the boot manager stays the default: Windows comes second. */
  lemma WindowsCanBeSecond() returns (pb: PartitionBoot)
    ensures Undeclared(WalkOf(DUAL_DISK, true)) && pb in BootableOf(DUAL_DISK)
    ensures |pb.scan.entries| == 2 && pb.scan.entries[1].source == Source.Windows && pb.scan.default == Some(0)
  {
    hide WalkOf, SweepScan, BootScan.ScanOf, BootScan.Chosen, DUAL, Kept, Marked;
    var w := WalkOf(DUAL_DISK, true);
    DualWalk();
    var e := DualEntry(DUAL);
    DualStays(w.windows, e);
    var i, host := WindowsIsDefaultIffAlone(DUAL_DISK);
    BootableIsSound(DUAL_DISK);
    pb := host;
  }

  /** The same files with the kernel gone: the entry is dropped although nothing else is left. */
  lemma TheOnlyEntryIsDropped()
    ensures var fs := DUAL.(names := {}); BootScan.Chosen(fs).entries != [] && BootScan.ScanOf(fs).entries == []
  {
    hide DUAL, BootScan.Chosen, BootScan.ScanOf, Fallback.Parse;
    var fs := DUAL.(names := {});
    DualHasNoTexts();
    NothingConfigured(fs);
    var e := DualEntry(fs);
    BootScan.AllStaleMeansNothing(fs);
  }

  lemma DualHasNoTexts()
    ensures DUAL.texts == map[]
  {
  }

  lemma DualStays(w: Option<Install>, e: BootEntry)
    requires Fallback.Parse(DUAL).entries == [e] && e.kernel == Some("/vmlinuz-1") && e.chainloader.None?
    ensures DefaultOk(BootScan.ScanOf(DUAL)) && SweepScan(w, BootScan.ScanOf(DUAL)).entries == [e]
    ensures !DeclaresAny(w, BootScan.ScanOf(DUAL).entries)
  {
    hide BootScan.ScanOf, BootScan.Chosen, Fallback.Parse;
    NothingConfigured(DUAL);
    BootScan.ScanIsSound(DUAL);
    PartitionIsOneSweep(DUAL, w);
    var keep := Mask(BootScan.Chosen(DUAL).entries, x => BootScan.Alive(DUAL, x) && Startable(w, x));
    assert keep == [true];
    assert Kept([e], [true]) == [e] by {
      assert [e][1..] == [] && [true][1..] == [];
    }
    forall x | x in BootScan.ScanOf(DUAL).entries
      ensures !Declares(w, x)
    {
      assert x in BootScan.Chosen(DUAL).entries;
    }
  }

  // ---- Which chainloaders stay ----

  /** With a boot manager found, an item is kept exactly when the file it names is called
      bootmgfw.efi, in any case and directory; without one, none is. */
  lemma KeptChainloaders(disk: Disk, e: BootEntry)
    requires e.chainloader.Some?
    ensures Startable(WalkOf(disk, true).windows, e) <==>
              && Position(disk.partitions, HasBootManager()).Some?
              && FileName(e.chainloader.value) == "bootmgfw.efi"
  {
    hide FindPath, Uri, PathOf, Visits, HasBootManager, HasLoader, Position, FileName, SameFile;
    VerdictRestsOnFirstFinds(disk, true);
    var b := Position(disk.partitions, HasBootManager());
    if b.Some? {
      var p := disk.partitions[b.value];
      BootManagerIsMounted(p);
      var path := FindPath(p.volume.fs, BOOT_MANAGER).value;
      UriRoundTrip(p.index, path);
      ManagerName(p.volume.fs);
      SameFileIsSameName(e.chainloader.value, path);
    }
  }

  lemma ManagerName(fs: FileSystem)
    requires FindPath(fs, BOOT_MANAGER).Some?
    ensures FileName(FindPath(fs, BOOT_MANAGER).value) == "bootmgfw.efi"
  {
    hide FindFrom, FileName;
    FoundName(fs, "", BOOT_MANAGER);
    assert Extlinux.Lower("bootmgfw.efi") == "bootmgfw.efi";
  }

  // ---- From partitions to results and back ----

  /** A mounted partition with an entry left is returned, with the entries and the default that its
      own configuration leaves. */
  lemma MountedIsReturned(disk: Disk, p: Partition)
    requires p in disk.partitions && p.volume.Mounted?
    ensures DefaultOk(BootScan.ScanOf(p.volume.fs))
    ensures var left := SweepScan(WalkOf(disk, true).windows, BootScan.ScanOf(p.volume.fs));
            left.entries != [] ==> exists pb :: pb in BootableOf(disk) && pb.index == p.index && Extends(pb.scan, left)
  {
    hide WalkOf, SweepScan, BootScan.ScanOf, Extends, BootableOf;
    SoundIsOk(p.volume.fs);
    var i := MountedIsListed(disk, p);
    if SweepScan(WalkOf(disk, true).windows, BootScan.ScanOf(p.volume.fs)).entries != [] {
      var pb := DeclaredEntriesAreReturned(disk, i);
    }
  }

  lemma SoundIsOk(fs: FileSystem)
    ensures DefaultOk(BootScan.ScanOf(fs))
  {
    hide BootScan.ScanOf, DefaultOk;
    Guest.ScanIsSound(fs);
  }

  /** Every result is a partition of the disk with what its own configuration leaves, perhaps with Windows added. */
  lemma ResultIsAPartition(disk: Disk, pb: PartitionBoot) returns (p: Partition)
    requires pb in BootableOf(disk)
    ensures p in disk.partitions && !p.volume.Unknown? && pb.index == p.index && DefaultOk(ListedFor(p).scan)
    ensures var w := WalkOf(disk, true); var left := SweepScan(w.windows, ListedFor(p).scan);
            || pb.scan == left
            || (Undeclared(w) && pb.scan == WithEntry(left, WindowsEntry(w.windows.value, w.windows.value.firmware.value)))
  {
    hide Visits, SweepScan, BootScan.ScanOf, DefaultOk, Declared, WindowsEntry, Position, UriPartition;
    var w := WalkOf(disk, true);
    WalkIsOk(disk);
    var merged := Merged(Swept(w.windows, w.parts), w);
    FilterKeepsNonEmpty(merged);
    var k :| 0 <= k < |merged| && merged[k] == pb;
    VisitsInOrder(disk.partitions);
    p := Known(disk.partitions)[k];
    assert p in Known(disk.partitions);
    KnownIff(disk.partitions, p);
  }

  function NonEmptyMask(parts: seq<PartitionBoot>): (keep: seq<bool>)
    ensures |keep| == |parts| && forall i :: 0 <= i < |keep| ==> keep[i] == (parts[i].scan.entries != [])
  {
    seq(|parts|, i requires 0 <= i < |parts| => parts[i].scan.entries != [])
  }

  /** The last filter keeps the partitions in order, too. */
  lemma {:induction false} FilterKeepsOrder(parts: seq<PartitionBoot>)
    ensures NonEmptyParts(parts) == Kept(parts, NonEmptyMask(parts))
  {
    if parts != [] {
      FilterKeepsOrder(parts[1..]);
      assert NonEmptyMask(parts)[1..] == NonEmptyMask(parts[1..]);
    }
  }

  /** The entry is hung on the partition of the first boot manager, else on the BIOS system volume. */
  lemma HostIsFirstManager(disk: Disk)
    ensures var w := WalkOf(disk, true); var b := Position(disk.partitions, HasBootManager());
            w.windows.Some? ==> Host(w) == if b.Some? then Some(disk.partitions[b.value].index) else w.biosPart
  {
    hide FindPath, Uri, UriPartition, Visits, HasBootManager, HasLoader, Position;
    VerdictRestsOnFirstFinds(disk, true);
    var b := Position(disk.partitions, HasBootManager());
    if b.Some? {
      var p := disk.partitions[b.value];
      BootManagerIsMounted(p);
      UriRoundTrip(p.index, FindPath(p.volume.fs, BOOT_MANAGER).value);
    }
  }

  /** What a kept chainloader item starts: the first boot manager found, under UEFI, with the first
      architecture found; it is otherwise as its configuration declares it. */
  lemma ChainloaderStartsManager(disk: Disk, e: BootEntry)
    requires e.chainloader.Some? && Startable(WalkOf(disk, true).windows, e)
    ensures var ps := disk.partitions; var b, a := Position(ps, HasBootManager()), Position(ps, HasArch());
            && b.Some? && HasBootManager()(ps[b.value]) && ps[b.value].volume.Mounted?
            && FindPath(ps[b.value].volume.fs, BOOT_MANAGER).Some?
            && Resolved(WalkOf(disk, true).windows, e) ==
               e.(windows := Some(WindowsBoot(Uefi, ArchAt(ps, a),
                    Some(Uri(ps[b.value].index, FindPath(ps[b.value].volume.fs, BOOT_MANAGER).value)))))
  {
    hide FindPath, Uri, Visits, HasBootManager, HasLoader, HasStore, HasArch, Position, SameFile, PathOf;
    VerdictRestsOnFirstFinds(disk, true);
    WindowsIff(disk);
    var b := Position(disk.partitions, HasBootManager());
    BootManagerIsMounted(disk.partitions[b.value]);
  }

  /** What is added for an undeclared Windows: an entry without a kernel that names the firmware the
      disk has, the boot manager and its architecture. */
  lemma AddedEntryMeans(disk: Disk)
    requires Undeclared(WalkOf(disk, true))
    ensures var w := WalkOf(disk, true); var win := w.windows.value; var ps := disk.partitions;
            var b, a := Position(ps, HasBootManager()), Position(ps, HasArch());
            var e := WindowsEntry(win, win.firmware.value);
            && e.kernel.None? && e.initrd == [] && e.cmdline.None? && e.chainloader.None?
            && e.id == Some("windows") && e.title == Some("Windows Boot Manager") && e.source == Source.Windows && e.windows.Some?
            && Some(e.windows.value.firmware) == FirmwareFor(b.Some?, w.biosPart.Some?)
            && (b.None? ==> e.windows.value.loader.None?)
            && (a.None? ==> e.windows.value.arch.None?)
  {
    hide FindPath, Uri, Visits, HasBootManager, HasLoader, HasStore, HasArch, Position, Declared;
    VerdictRestsOnFirstFinds(disk, true);
    WindowsIff(disk);
  }
}
