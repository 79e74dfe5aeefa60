/** Opening a disk: sources, the qcow2 header and the backing chain, built as objects that refine
    the chain BackingChain describes (src/disk/mod.rs, src/source/mod.rs). */
module DiskOpen {
  import opened Common
  import opened ClusterMap
  import opened GuestDisk
  import opened DiskStack
  import opened RemoteDevice
  import opened BackingChain
  import Network
  import Remote

  /** What a locator leads to: a file, or a server together with what its cache directory holds
      and how its network will behave. */
  datatype Resource =
    | File(bytes: seq<byte>)
    | Web(server: Remote.Server, disk: map<nat, seq<byte>>, net: seq<Network.Step>)

  type World = map<Locator, Resource>

  function Bytes(r: Resource): seq<byte> {
    if r.File? then r.bytes else r.server.body
  }

  function Contents(world: World): Store {
    map loc | loc in world :: Bytes(world[loc])
  }

  /** Right-length cache files hold what the server would send. */
  ghost predicate Honest(world: World) {
    forall loc :: loc in world && world[loc].Web? ==>
      world[loc].server.chunk > 0 && Remote.HonestDisk(world[loc].server, world[loc].disk)
  }

  predicate AllFiles(world: World) {
    forall loc :: loc in world ==> world[loc].File?
  }

  /** `source::open`. */
  method OpenSource(world: World, loc: Locator) returns (r: Result<ByteSource>)
    requires Honest(world)
    ensures loc !in world ==> r == Err(Io)
    ensures loc in world && world[loc].File? ==> r.Ok?
    ensures r.Ok? ==> && loc in world
                      && fresh(r.value.Objects()) && r.value.Valid() && r.value.Intact()
                      && r.value.Content() == Bytes(world[loc])
                      && (world[loc].File? ==> r.value.LocalFile?)
  {
    if loc !in world {
      return Err(Io);
    }
    match world[loc]
    case File(bytes) =>
      return Ok(LocalFile(bytes));
    case Web(server, disk, net) =>
      var reader := RemoteReader.Build(server, disk, net);
      match reader
      case Err(e) =>
        return Err(e);
      case Ok(device) =>
        Remote.FreshIsGood(server, disk, net);
        return Ok(Url(device));
  }

  /** The header part of `Qcow2::open`, reading piece by piece. */
  method ReadHeader(src: ByteSource) returns (r: Result<Header>)
    requires src.Valid()
    modifies src.Objects()
    ensures src.Valid()
    ensures r.Ok? ==> Plausible(r.value.geo)
    ensures old(src.Intact()) && r.Ok? ==> src.Intact() && r == ParseHeader(src.Content())
    ensures src.LocalFile? ==> r == ParseHeader(src.Content())
  {
    hide Field32, Field64, Refusal, ReadFlags, ReadBackingName, ReadL1, ReadExact;
    var first := src.Fetch(0, 72);
    if first.Err? {
      return Err(first.error);
    }
    var hdr := first.value;
    if hdr[..4] != MAGIC || (Field32(hdr, 4) != 2 && Field32(hdr, 4) != 3) {
      return Err(Error.InvalidQcow2);
    }
    var flags := FetchFlags(src, hdr);
    if flags.Err? {
      return Err(flags.error);
    }
    if Refusal(hdr, flags.value).Some? {
      return Err(Refusal(hdr, flags.value).value);
    }
    var name := FetchBackingName(src, hdr);
    if name.Err? {
      return Err(name.error);
    }
    var l1 := FetchL1(src, hdr);
    if l1.Err? {
      return Err(l1.error);
    }
    PlausibleUnlessRefused(hdr, flags.value);
    return Ok(Header(Field64(hdr, 24), Geometry(Field32(hdr, 20), l1.value), name.value));
  }

  lemma PlausibleUnlessRefused(hdr: seq<byte>, flags: nat)
    requires |hdr| == 72 && Refusal(hdr, flags).None?
    ensures 9 <= Field32(hdr, 20) <= 21
  {
    hide Field32, FeatureError;
  }

  method FetchFlags(src: ByteSource, hdr: seq<byte>) returns (r: Result<nat>)
    requires src.Valid() && |hdr| == 72
    modifies src.Objects()
    ensures src.Valid()
    ensures old(src.Intact()) && r.Ok? ==> src.Intact() && r == ReadFlags(src.Content(), hdr)
    ensures src.LocalFile? ==> r == ReadFlags(src.Content(), hdr)
  {
    hide Field32, Be64, ReadExact;
    if Field32(hdr, 4) == 2 {
      return Ok(0);
    }
    var word := src.Fetch(72, 8);
    if word.Err? {
      return Err(word.error);
    }
    return Ok(Be64(word.value));
  }

  method FetchL1(src: ByteSource, hdr: seq<byte>) returns (r: Result<seq<nat>>)
    requires src.Valid() && |hdr| == 72
    modifies src.Objects()
    ensures src.Valid()
    ensures old(src.Intact()) && r.Ok? ==> src.Intact() && r == ReadL1(src.Content(), hdr)
    ensures src.LocalFile? ==> r == ReadL1(src.Content(), hdr)
  {
    hide Field32, Field64, L1Table, ReadExact;
    var raw := src.Fetch(Field64(hdr, 40), Field32(hdr, 36) * 8);
    if raw.Err? {
      return Err(raw.error);
    }
    return Ok(L1Table(raw.value));
  }

  method FetchBackingName(src: ByteSource, hdr: seq<byte>) returns (r: Result<Option<Locator>>)
    requires src.Valid() && |hdr| == 72
    modifies src.Objects()
    ensures src.Valid()
    ensures old(src.Intact()) && r.Ok? ==> src.Intact() && r == ReadBackingName(src.Content(), hdr)
    ensures src.LocalFile? ==> r == ReadBackingName(src.Content(), hdr)
  {
    hide Be32, Be64, ReadExact;
    var at, n := Field64(hdr, 8), Field32(hdr, 16);
    if at == 0 || n == 0 {
      return Ok(None);
    }
    if n > 1023 {
      return Err(Error.InvalidQcow2);
    }
    var name := src.Fetch(at, n);
    match name
    case Ok(bytes) => return Ok(Some(bytes));
    case Err(e) => return Err(e);
  }

  /** Sniff the magic; images shorter than four bytes are raw. */
  method IsQcow2(src: ByteSource) returns (r: Result<bool>)
    requires src.Valid()
    modifies src.Objects()
    ensures src.Valid()
    ensures old(src.Intact()) && r.Ok? ==> src.Intact() && r.value == HasMagic(src.Content())
    ensures src.LocalFile? ==> r == Ok(HasMagic(src.Content()))
  {
    if |src.Content()| < 4 {
      return Ok(false);
    }
    var magic := src.Fetch(0, 4);
    match magic
    case Err(e) => return Err(e);
    case Ok(bytes) => return Ok(bytes == MAGIC);
  }

  /** One file by itself, with the backing name it carries. */
  method OpenOne(codec: Codec, world: World, loc: Locator) returns (r: Result<(DiskImage, Option<Locator>)>)
    requires Honest(world)
    ensures r.Ok? ==> && loc in world && fresh(r.value.0.Objects()) && r.value.0.Valid() && r.value.0.Intact()
                      && (AllFiles(world) ==> r.value.0.Shown().local)
    ensures r.Ok? && r.value.0.RawDisk? ==>
              !HasMagic(Bytes(world[loc])) && r.value.1 == None && r.value.0.Shown().image == Raw(Bytes(world[loc]))
    ensures r.Ok? && r.value.0.Qcow2Disk? ==>
              var file, q := Bytes(world[loc]), r.value.0.q;
              && HasMagic(file) && ParseHeader(file).Ok? && q.codec == codec && q.backing == None
              && q.host.Content() == file && q.vsize == ParseHeader(file).value.vsize
              && q.geo == ParseHeader(file).value.geo && r.value.1 == ParseHeader(file).value.backing
              && q.view.image == Overlay(file, q.vsize, q.geo, None) && (AllFiles(world) ==> q.host.LocalFile?)
    ensures AllFiles(world) && r.Err? ==>
              if loc !in world then r.error == Io
              else HasMagic(Bytes(world[loc])) && ParseHeader(Bytes(world[loc])) == Err(r.error)
  {
    hide ParseHeader, HasMagic, Remote.Good, RemoteReader.Valid;
    var found := OpenSource(world, loc);
    if found.Err? {
      return Err(found.error);
    }
    var src := found.value;
    var layered := IsQcow2(src);
    if layered.Err? {
      return Err(layered.error);
    }
    if !layered.value {
      return Ok((RawDisk(src), None));
    }
    var header := ReadHeader(src);
    if header.Err? {
      return Err(header.error);
    }
    var q := new Qcow2(codec, src, header.value.vsize, header.value.geo);
    return Ok((Qcow2Disk(q), header.value.backing));
  }

  /** What a file by itself means for the chain: nothing is below a raw file, or an overlay that
      names no backing file; a file that cannot be opened fails with its own error. */
  lemma OpensAlone(store: Store, loc: Locator, depth: nat)
    requires depth <= MAX_BACKING_DEPTH
    ensures loc !in store ==> OpenAtDepth(store, loc, depth) == Err(Io)
    ensures loc in store && !HasMagic(store[loc]) ==> OpenAtDepth(store, loc, depth) == Ok(Raw(store[loc]))
    ensures loc in store && HasMagic(store[loc]) ==>
              match ParseHeader(store[loc]) {
                case Err(e) => OpenAtDepth(store, loc, depth) == Err(e)
                case Ok(h) => h.backing.None? ==> OpenAtDepth(store, loc, depth) == Ok(Overlay(store[loc], h.vsize, h.geo, None))
              }
  {
    hide ParseHeader, HasMagic;
  }

  lemma TooDeep(store: Store, loc: Locator)
    ensures OpenAtDepth(store, loc, MAX_BACKING_DEPTH + 1) == Err(Error.InvalidQcow2)
  {
  }

  lemma OpensOver(store: Store, loc: Locator, depth: nat)
    requires depth <= MAX_BACKING_DEPTH && loc in store && HasMagic(store[loc])
    requires ParseHeader(store[loc]).Ok? && ParseHeader(store[loc]).value.backing.Some?
    ensures var h := ParseHeader(store[loc]).value;
            match OpenAtDepth(store, ResolveRelative(loc, h.backing.value), depth + 1) {
              case Err(_) => OpenAtDepth(store, loc, depth) == Err(Error.InvalidQcow2)
              case Ok(below) => OpenAtDepth(store, loc, depth) == Ok(Overlay(store[loc], h.vsize, h.geo, Some(below)))
            }
  {
    hide ParseHeader, HasMagic;
  }

  /** `open_at_depth`: whatever it opens is the chain that the files describe, freshly allocated and
      in step; on local files it fails exactly when, and as, the description does. */
  method Open(codec: Codec, world: World, loc: Locator, depth: nat) returns (r: Result<DiskImage>)
    requires Honest(world) && depth <= MAX_BACKING_DEPTH + 1
    ensures r.Ok? ==> && fresh(r.value.Objects()) && r.value.Valid() && r.value.Intact()
                      && (r.value.Qcow2Disk? ==> r.value.q.codec == codec)
                      && OpenAtDepth(Contents(world), loc, depth) == Ok(r.value.Shown().image)
    ensures AllFiles(world) && r.Ok? ==> r.value.Shown().local
    ensures AllFiles(world) && r.Err? ==> OpenAtDepth(Contents(world), loc, depth) == Err(r.error)
    decreases MAX_BACKING_DEPTH + 1 - depth
  {
    hide ParseHeader, HasMagic, ResolveRelative, OpenAtDepth, Remote.Good, RemoteReader.Valid, Qcow2.Valid, Qcow2.Intact;
    if depth > MAX_BACKING_DEPTH {
      TooDeep(Contents(world), loc);
      return Err(Error.InvalidQcow2);
    }
    OpensAlone(Contents(world), loc, depth);
    var one := OpenOne(codec, world, loc);
    if one.Err? || one.value.1.None? {
      return if one.Err? then Err(one.error) else Ok(one.value.0);
    }
    OpensOver(Contents(world), loc, depth);
    var below := Open(codec, world, ResolveRelative(loc, one.value.1.value), depth + 1);
    if below.Err? {
      return Err(Error.InvalidQcow2);
    }
    var q := one.value.0.q;
    q.SetBacking(below.value);
    assert q.view.image == Overlay(Bytes(world[loc]), q.vsize, q.geo, Some(below.value.Shown().image));
    return Ok(Qcow2Disk(q));
  }
}
