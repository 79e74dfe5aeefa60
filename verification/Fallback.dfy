/** Pairing kernels and initramfs images without a configuration (`fallback_scan`, src/boot/mod.rs). */
module Fallback {
  import opened Common
  import opened Text
  import opened Files
  import opened BootEntries
  import opened NewestFirst

  datatype Image = Image(version: string, path: string)

  /** The version in a kernel's file name; rescue and kdump images have none. */
  function KernelVersion(name: string): Option<string> {
    if "vmlinuz-" <= name then Some(name[8..]) else if "Image-" <= name then Some(name[6..]) else None
  }

  predicate Special(version: string) {
    HasPart(version, "rescue") || HasPart(version, "kdump")
  }

  function InitrdVersion(name: string): Option<string> {
    if "initramfs-" <= name then Some(TrimSuffix(name[10..], ".img"))
    else if "initrd.img-" <= name then Some(name[11..])
    else if "initrd-" <= name then Some(TrimSuffix(name[7..], ".img"))
    else None
  }

  function Kernels(prefix: string, listing: seq<DirEntry>): seq<Image> {
    if listing == [] then []
    else
      var f := listing[|listing| - 1];
      var v := KernelVersion(f.name);
      Kernels(prefix, listing[..|listing| - 1]) +
      if !f.isDir && v.Some? && !Special(v.value) then [Image(v.value, prefix + "/" + f.name)] else []
  }

  function Initrds(prefix: string, listing: seq<DirEntry>): seq<Image> {
    if listing == [] then []
    else
      var f := listing[|listing| - 1];
      var v := InitrdVersion(f.name);
      Initrds(prefix, listing[..|listing| - 1]) +
      if !f.isDir && KernelVersion(f.name).None? && v.Some? then [Image(v.value, prefix + "/" + f.name)] else []
  }

  /** The loop over one directory. */
  method ListImages(prefix: string, listing: seq<DirEntry>) returns (kernels: seq<Image>, initrds: seq<Image>)
    ensures kernels == Kernels(prefix, listing) && initrds == Initrds(prefix, listing)
  {
    hide KernelVersion, InitrdVersion, Special;
    kernels, initrds := [], [];
    for n := 0 to |listing|
      invariant kernels == Kernels(prefix, listing[..n]) && initrds == Initrds(prefix, listing[..n])
    {
      assert listing[..n + 1][..n] == listing[..n];
      var f := listing[n];
      if f.isDir {
        continue;
      }
      var path := prefix + "/" + f.name;
      var v := KernelVersion(f.name);
      if v.Some? {
        if !Special(v.value) {
          kernels := kernels + [Image(v.value, path)];
        }
      } else {
        v := InitrdVersion(f.name);
        if v.Some? {
          initrds := initrds + [Image(v.value, path)];
        }
      }
    }
    assert listing[..|listing|] == listing;
  }

  function OfVersion(version: string): Image -> bool {
    (image: Image) => image.version == version
  }

  /** A kernel with the first initramfs of its version in the same directory. */
  function Pair(kernel: Image, initrds: seq<Image>): Item {
    var i := Position(initrds, OfVersion(kernel.version));
    Item(kernel.version, kernel.version,
         BLANK.(kernel := Some(kernel.path), version := Some(kernel.version),
                initrd := if i.Some? then [initrds[i.value].path] else []))
  }

  function Pairs(kernels: seq<Image>, initrds: seq<Image>): (r: seq<Item>)
    ensures |r| == |kernels|
  {
    seq(|kernels|, i requires 0 <= i < |kernels| => Pair(kernels[i], initrds))
  }

  function ItemsIn(fs: FileSystem, prefix: string): seq<Item> {
    var dir := if prefix == [] then "/" else prefix;
    if dir in fs.listings then Pairs(Kernels(prefix, fs.listings[dir]), Initrds(prefix, fs.listings[dir])) else []
  }

  function Items(fs: FileSystem, prefixes: seq<string>): seq<Item> {
    if prefixes == [] then []
    else Items(fs, prefixes[..|prefixes| - 1]) + ItemsIn(fs, prefixes[|prefixes| - 1])
  }

  /** Entries whose kernel has this base name. */
  function KernelNamed(base: string): Item -> bool {
    (x: Item) => x.entry.kernel.Some? && Base(x.entry.kernel.value) == base
  }

  function LinkTarget(items: seq<Item>, fs: FileSystem, link: string): Option<nat> {
    if link in fs.links then Position(items, KernelNamed(Base(fs.links[link]))) else None
  }

  function DefaultOf(items: seq<Item>, fs: FileSystem): Option<nat> {
    Or(Or(LinkTarget(items, fs, "/vmlinuz"), LinkTarget(items, fs, "/boot/vmlinuz")),
       if items == [] then None else Some(0))
  }

  function Parse(fs: FileSystem): Scan {
    var items := Sort(Items(fs, PREFIXES));
    Scan(EntriesOf(items), DefaultOf(items, fs))
  }

  /** `fallback_scan`. */
  method FallbackScan(fs: FileSystem) returns (scan: Scan)
    ensures scan == Parse(fs)
  {
    hide Sort, Kernels, Initrds, Position, Pairs, DefaultOf;
    var items: seq<Item> := [];
    for n := 0 to |PREFIXES|
      invariant items == Items(fs, PREFIXES[..n])
    {
      assert PREFIXES[..n + 1][..n] == PREFIXES[..n];
      var prefix := PREFIXES[n];
      var dir := if prefix == [] then "/" else prefix;
      if dir in fs.listings {
        var kernels, initrds := ListImages(prefix, fs.listings[dir]);
        items := items + Pairs(kernels, initrds);
      }
    }
    assert PREFIXES[..|PREFIXES|] == PREFIXES;
    items := Sort(items);
    var default := PickDefault(items, fs);
    scan := Scan(EntriesOf(items), default);
  }

  const LINKS: seq<string> := ["/vmlinuz", "/boot/vmlinuz"]

  /** The loop over the links. */
  method PickDefault(items: seq<Item>, fs: FileSystem) returns (default: Option<nat>)
    ensures default == DefaultOf(items, fs)
  {
    hide Position, KernelNamed;
    default := if items == [] then None else Some(0);
    for n := 0 to |LINKS|
      invariant default == if items == [] then None else Some(0)
      invariant n > 0 ==> LinkTarget(items, fs, "/vmlinuz") == None
      invariant n > 1 ==> LinkTarget(items, fs, "/boot/vmlinuz") == None
    {
      var link := LINKS[n];
      assert link == if n == 0 then "/vmlinuz" else "/boot/vmlinuz";
      if link in fs.links {
        var i := Position(items, KernelNamed(Base(fs.links[link])));
        if i.Some? {
          return i;
        }
      }
    }
  }

  /** An entry of this scan: a kernel that is not a rescue image, with at most one initramfs. */
  predicate Plain(x: Item) {
    && x.entry.source == BootEntries.Fallback && x.entry.windows.None? && x.entry.chainloader.None?
    && x.entry.kernel.Some? && x.entry.version == Some(x.version)
    && |x.entry.initrd| <= 1 && x.entry.cmdline.None?
  }

  lemma {:induction false} KernelsAreNotSpecial(prefix: string, listing: seq<DirEntry>)
    ensures forall k :: k in Kernels(prefix, listing) ==> !Special(k.version)
  {
    hide Special, KernelVersion;
    if listing != [] {
      KernelsAreNotSpecial(prefix, listing[..|listing| - 1]);
    }
  }

  lemma {:induction false} ItemsArePlain(fs: FileSystem, prefixes: seq<string>)
    ensures forall x :: x in Items(fs, prefixes) ==> Plain(x) && !Special(x.version)
  {
    hide Special, Kernels, Initrds, Position;
    if prefixes != [] {
      ItemsArePlain(fs, prefixes[..|prefixes| - 1]);
      var prefix := prefixes[|prefixes| - 1];
      var dir := if prefix == [] then "/" else prefix;
      if dir in fs.listings {
        KernelsAreNotSpecial(prefix, fs.listings[dir]);
      }
    }
  }

  /** `image` is the file `f` of the directory, read as an initramfs. */
  predicate IsInitrd(prefix: string, f: DirEntry, image: Image) {
    !f.isDir && KernelVersion(f.name).None? && InitrdVersion(f.name) == Some(image.version) && image.path == prefix + "/" + f.name
  }

  lemma {:induction false} InitrdsAreListed(prefix: string, listing: seq<DirEntry>, image: Image)
    ensures image in Initrds(prefix, listing) <==> exists f :: f in listing && IsInitrd(prefix, f, image)
  {
    hide KernelVersion, InitrdVersion;
    if listing != [] {
      var init, last := listing[..|listing| - 1], listing[|listing| - 1];
      InitrdsAreListed(prefix, init, image);
      assert listing == init + [last];
      assert last in listing;
    }
  }

  /** `x` has the first initramfs of its version in its kernel's directory, and none only when no
      file there is one. */
  ghost predicate Paired(fs: FileSystem, prefix: string, x: Item) {
    var dir := if prefix == [] then "/" else prefix;
    && dir in fs.listings
    && var initrds := Initrds(prefix, fs.listings[dir]);
       && x.entry.kernel.Some? && Image(x.version, x.entry.kernel.value) in Kernels(prefix, fs.listings[dir])
       && if x.entry.initrd == [] then
            forall f, image :: f in fs.listings[dir] && IsInitrd(prefix, f, image) ==> image.version != x.version
          else FirstOf(initrds, x.version, x.entry.initrd)
  }

  /** `initrd` is just the path of the first image of that version. */
  ghost predicate FirstOf(initrds: seq<Image>, version: string, initrd: seq<string>) {
    exists i :: 0 <= i < |initrds| && initrd == [initrds[i].path] && initrds[i].version == version
                && forall j :: 0 <= j < i ==> initrds[j].version != version
  }

  lemma PairIsPaired(fs: FileSystem, prefix: string, x: Item)
    requires x in ItemsIn(fs, prefix)
    ensures Paired(fs, prefix, x)
  {
    hide Kernels, Initrds, IsInitrd, Position;
    var dir := if prefix == [] then "/" else prefix;
    var listing := fs.listings[dir];
    var initrds := Initrds(prefix, listing);
    forall f, image | f in listing && IsInitrd(prefix, f, image)
      ensures image in initrds
    {
      InitrdsAreListed(prefix, listing, image);
    }
  }

  /** Every entry of the scan is paired within the directory of its kernel. */
  lemma {:induction false} ItemsArePaired(fs: FileSystem, prefixes: seq<string>)
    ensures forall x :: x in Items(fs, prefixes) ==> exists prefix :: prefix in prefixes && Paired(fs, prefix, x)
  {
    hide ItemsIn, Paired;
    if prefixes != [] {
      var init, last := prefixes[..|prefixes| - 1], prefixes[|prefixes| - 1];
      ItemsArePaired(fs, init);
      assert last in prefixes;
      forall x | x in Items(fs, prefixes)
        ensures exists prefix :: prefix in prefixes && Paired(fs, prefix, x)
      {
        if x in Items(fs, init) {
          var prefix :| prefix in init && Paired(fs, prefix, x);
          assert prefix in prefixes;
        } else {
          PairIsPaired(fs, last, x);
        }
      }
    }
  }

  predicate Linked(items: seq<Item>, fs: FileSystem, link: string) {
    link in fs.links && exists x :: x in items && KernelNamed(Base(fs.links[link]))(x)
  }

  /** The result lists newest first; the default is what the distribution's link names when an
      entry has that kernel, `/vmlinuz` before `/boot/vmlinuz`, else a newest entry. */
  lemma DefaultIsLinkedElseNewest(fs: FileSystem)
    ensures var items := Sort(Items(fs, PREFIXES)); var scan := Parse(fs);
            && scan.entries == EntriesOf(items) && DefaultOk(scan)
            && (items != [] ==>
                  var x := items[scan.default.value];
                  if Linked(items, fs, "/vmlinuz") then KernelNamed(Base(fs.links["/vmlinuz"]))(x)
                  else if Linked(items, fs, "/boot/vmlinuz") then KernelNamed(Base(fs.links["/boot/vmlinuz"]))(x)
                  else forall y :: y in items ==> !Older(x, y))
  {
    hide Sort, Items, Position, Older, KernelNamed;
    var items := Sort(Items(fs, PREFIXES));
    SortIsStable(Items(fs, PREFIXES));
    if items != [] {
      VersionOrder(items[0], items[0], items[0]);
    }
  }

  // ---- What file names mean ----

  /** A kernel's name is `vmlinuz-` or `Image-` and its version. */
  lemma KernelVersionIff(name: string, v: string)
    ensures KernelVersion(name) == Some(v) <==> name == "vmlinuz-" + v || name == "Image-" + v
  {
    if "vmlinuz-" <= name {
      assert name == "vmlinuz-" + name[8..];
    } else if "Image-" <= name {
      assert name == "Image-" + name[6..];
    }
    assert ("vmlinuz-" + v)[8..] == v && ("Image-" + v)[6..] == v;
    assert ("Image-" + v)[0] == 'I' && ("vmlinuz-" + v)[0] == 'v';
  }

  /** An initramfs is `initramfs-`, `initrd-` or `initrd.img-` and its version, the first two perhaps with `.img` behind. */
  lemma InitrdVersionMeans(v: string)
    ensures InitrdVersion("initrd.img-" + v) == Some(v)
    ensures !EndsWith(v, ".img") ==>
              && InitrdVersion("initramfs-" + v) == Some(v) && InitrdVersion("initramfs-" + (v + ".img")) == Some(v)
              && InitrdVersion("initrd-" + v) == Some(v) && InitrdVersion("initrd-" + (v + ".img")) == Some(v)
  {
    hide TrimSuffix, EndsWith, InitrdVersion;
    DottedName(v);
    InitramfsName(v);
    InitramfsName(v + ".img");
    InitrdName(v);
    InitrdName(v + ".img");
    if !EndsWith(v, ".img") {
      NoSuffix(v);
    }
  }

  lemma DottedName(v: string)
    ensures InitrdVersion("initrd.img-" + v) == Some(v)
  {
    hide TrimSuffix;
    var name := "initrd.img-" + v;
    assert name[11..] == v && name[4] == 'r' && name[5] == 'd' && "initramfs-"[5] == 'a';
  }

  lemma NoSuffix(v: string)
    requires !EndsWith(v, ".img")
    ensures TrimSuffix(v, ".img") == v && TrimSuffix(v + ".img", ".img") == v
  {
    hide EndsWith, TrimSuffix;
    TrimSuffixMeans(v, ".img", 0);
    TrimSuffixMeans(v, ".img", 1);
    assert Repeated(".img", 0) == "" && Repeated(".img", 1) == "" + ".img" == ".img" && v + "" == v;
  }

  lemma InitramfsName(w: string)
    ensures InitrdVersion("initramfs-" + w) == Some(TrimSuffix(w, ".img"))
  {
    hide TrimSuffix;
    assert ("initramfs-" + w)[10..] == w;
  }

  lemma InitrdName(w: string)
    ensures InitrdVersion("initrd-" + w) == Some(TrimSuffix(w, ".img"))
  {
    hide TrimSuffix;
    var name := "initrd-" + w;
    assert name[7..] == w && name[6] == '-' && name[4] == 'r';
    assert "initramfs-"[4] == 'r' && "initramfs-"[5] == 'a' && name[5] == 'd' && "initrd.img-"[6] == '.';
  }

  /** Every kernel file of the directory that is no rescue or kdump image is found, and no other. */
  lemma {:induction false} KernelsAreListed(prefix: string, listing: seq<DirEntry>, image: Image)
    ensures image in Kernels(prefix, listing) <==>
            exists f :: f in listing && !f.isDir && KernelVersion(f.name) == Some(image.version)
                        && !Special(image.version) && image.path == prefix + "/" + f.name
  {
    hide KernelVersion, Special;
    if listing != [] {
      var init, last := listing[..|listing| - 1], listing[|listing| - 1];
      KernelsAreListed(prefix, init, image);
      assert listing == init + [last];
      assert last in listing;
    }
  }

  /** Rescue and kdump images are those with that word anywhere in their version. */
  lemma SpecialIff(v: string)
    ensures Special(v) <==> exists a, b :: v == a + "rescue" + b || v == a + "kdump" + b
  {
    hide HasPart;
    HasPartIff(v, "rescue");
    HasPartIff(v, "kdump");
    if Special(v) {
      if HasPart(v, "rescue") {
        var a, b :| v == a + "rescue" + b;
      } else {
        var a, b :| v == a + "kdump" + b;
      }
    }
  }
}
