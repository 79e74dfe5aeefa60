/** The read stack as objects: a source, qcow2 overlays with their cluster caches, their backing
    images and a partition window on top, all serving reads into the caller's buffer
    (src/disk/qcow2.rs, src/disk/mod.rs, src/blockdev.rs). */
module DiskStack {
  import opened Common
  import opened Arith
  import opened ClusterMap
  import opened GuestDisk
  import opened BackingChain
  import opened RemoteDevice
  import Remote
  import ClusterCache

  const CACHE_CLUSTERS: nat := 32

  /** Reading and inflating compressed data of one image, as the cluster cache sees it. */
  function InflaterOf(codec: Codec, host: seq<byte>, g: Geometry): ClusterCache.Inflater
    requires Plausible(g)
  {
    (req: ClusterCache.Request) => Inflated(codec, host, g, req.key, req.csize)
  }

  /** Every cached cluster is the inflation of some descriptor with that host offset. */
  ghost predicate SoundCache(codec: Codec, host: seq<byte>, g: Geometry, cache: ClusterCache.Cache)
    requires Plausible(g)
  {
    forall e :: e in cache ==>
      exists csize: nat :: Stores(host, g, e.key, csize) && Inflated(codec, host, g, e.key, csize) == Some(e.data)
  }

  /** One decompression keeps the cache sound and, when host offsets are fair keys, returns what
      inflating without a cache would. */
  lemma CachedClusterIsInflation(
    codec: Codec, host: seq<byte>, g: Geometry, cache: ClusterCache.Cache, offset: nat, csize: nat)
    requires Plausible(g) && SoundCache(codec, host, g, cache) && Stores(host, g, offset, csize)
    ensures var r := ClusterCache.Decompress(
                       InflaterOf(codec, host, g), CACHE_CLUSTERS, cache, ClusterCache.Request(offset, csize));
            && SoundCache(codec, host, g, r.1)
            && (CoherentKeys(codec, host, g) ==> r.0 == Inflated(codec, host, g, offset, csize))
  {
    hide Stores, Inflated;
    var hit := ClusterCache.Find(cache, offset);
    if hit.Some? {
      assert ClusterCache.Entry(offset, hit.value) in cache;
    } else {
      var r := ClusterCache.Decompress(
        InflaterOf(codec, host, g), CACHE_CLUSTERS, cache, ClusterCache.Request(offset, csize));
      assert forall e :: e in r.1 ==> e in cache || (e.key == offset && Inflated(codec, host, g, offset, csize) == Some(e.data));
    }
  }

  /** `read_exact_at` of a file into `buf[lo..hi]`. */
  method ReadFile(bytes: seq<byte>, offset: nat, buf: array<byte>, lo: nat, hi: nat) returns (r: Outcome)
    requires lo <= hi <= buf.Length
    modifies buf
    ensures SameOutside(old(buf[..]), buf[..], lo, hi)
    ensures r == if lo == hi || offset + (hi - lo) <= |bytes| then Done else Failed(Io)
    ensures r == Done && lo < hi ==> buf[lo..hi] == bytes[offset..offset + (hi - lo)]
  {
    if lo == hi {
      return Done;
    }
    if offset + (hi - lo) > |bytes| {
      return Failed(Io);
    }
    CopyInto(buf, lo, bytes[offset..offset + (hi - lo)]);
    return Done;
  }

  /** `read_at` of a remote reader: while it is in step, what succeeds is the server's bytes. */
  method ReadRemote(reader: RemoteReader, offset: nat, buf: array<byte>, lo: nat, hi: nat) returns (r: Outcome)
    requires reader.Valid() && lo <= hi <= buf.Length
    modifies reader, buf
    ensures reader.Valid() && SameOutside(old(buf[..]), buf[..], lo, hi)
    ensures r == Done ==> offset + (hi - lo) <= |reader.server.body|
    ensures old(Remote.Good(reader.server, reader.Current())) && (r == Done || reader.server.ranges) ==>
              Remote.Good(reader.server, reader.Current())
    ensures r == Done && old(Remote.Good(reader.server, reader.Current())) ==>
              buf[lo..hi] == reader.server.body[offset..offset + (hi - lo)]
  {
    hide Remote.ReadAt, Remote.Good, SameOutside;
    ghost var before := reader.Current();
    r := reader.ReadInto(offset, buf, lo, hi);
    if Remote.Good(reader.server, before) {
      Remote.ReadReturnsRemoteBytes(reader.server, before, offset, hi - lo);
    }
  }

  /** Where an image's bytes come from: a local file or a remote reader. */
  datatype ByteSource = LocalFile(bytes: seq<byte>) | Url(reader: RemoteReader) {
    ghost function Objects(): set<object> {
      match this
      case LocalFile(_) => {}
      case Url(reader) => {reader}
    }

    function Content(): seq<byte> {
      match this
      case LocalFile(bytes) => bytes
      case Url(reader) => reader.server.body
    }

    ghost predicate Valid()
      reads Objects()
    {
      Url? ==> reader.Valid()
    }

    /** No failed stream read has put the source out of step. */
    ghost predicate Intact()
      reads Objects()
    {
      Url? ==> Remote.Good(reader.server, reader.Current())
    }

    /** Failures cannot put this source out of step. */
    predicate Steady() {
      Url? ==> reader.server.ranges
    }

    /** `read_at` into `buf[lo..hi]`. */
    method ReadInto(offset: nat, buf: array<byte>, lo: nat, hi: nat) returns (r: Outcome)
      requires Valid() && lo <= hi <= buf.Length && buf !in Objects()
      modifies Objects(), buf
      ensures Valid() && SameOutside(old(buf[..]), buf[..], lo, hi)
      ensures old(Intact()) && (r == Done || Steady()) ==> Intact()
      ensures r == Done && lo < hi ==> offset + (hi - lo) <= |Content()|
      ensures r == Done && lo < hi && old(Intact()) ==> buf[lo..hi] == Content()[offset..offset + (hi - lo)]
      ensures LocalFile? ==> r == if lo == hi || offset + (hi - lo) <= |bytes| then Done else Failed(Io)
    {
      hide SameOutside, Remote.Good;
      match this {
        case LocalFile(bytes) => r := ReadFile(bytes, offset, buf, lo, hi);
        case Url(reader) => r := ReadRemote(reader, offset, buf, lo, hi);
      }
    }

    /** A read into a buffer of its own. */
    method Fetch(offset: nat, n: nat) returns (r: Result<seq<byte>>)
      requires Valid()
      modifies Objects()
      ensures Valid()
      ensures old(Intact()) && (r.Ok? || Steady()) ==> Intact()
      ensures r.Ok? ==> |r.value| == n && (n > 0 ==> offset + n <= |Content()|)
      ensures r.Ok? && old(Intact()) ==> r == ReadExact(Content(), offset, n)
      ensures LocalFile? ==> r == ReadExact(bytes, offset, n)
    {
      var buf := new byte[n];
      var outcome := ReadInto(offset, buf, 0, n);
      match outcome
      case Done =>
        assert buf[..] == buf[0..n];
        r := Ok(buf[..]);
      case Failed(e) => r := Err(e);
    }
  }

  /** What an opened image shows the layers above it. */
  datatype View = View(image: Image, local: bool, steady: bool)

  datatype DiskImage = RawDisk(src: ByteSource) | Qcow2Disk(q: Qcow2) {
    ghost function Objects(): set<object>
      reads if Qcow2Disk? then {q} else {}
    {
      match this
      case RawDisk(src) => src.Objects()
      case Qcow2Disk(q) => q.Repr
    }

    ghost function Shown(): View
      reads if Qcow2Disk? then {q} else {}
    {
      match this
      case RawDisk(src) => View(Raw(src.Content()), src.LocalFile?, src.Steady())
      case Qcow2Disk(q) => q.view
    }

    ghost predicate Valid()
      reads if Qcow2Disk? then {q} + q.Repr else src.Objects()
    {
      match this
      case RawDisk(src) => src.Valid()
      case Qcow2Disk(q) => q.Valid()
    }

    ghost predicate Intact()
      requires Valid()
      reads if Qcow2Disk? then {q} + q.Repr else src.Objects()
    {
      match this
      case RawDisk(src) => src.Intact()
      case Qcow2Disk(q) => q.Intact()
    }

    /** `read_at` by dispatch. */
    method ReadInto(ghost codec: Codec, offset: nat, buf: array<byte>, lo: nat, hi: nat) returns (r: Outcome)
      requires Valid() && lo <= hi <= buf.Length && buf !in Objects()
      requires Qcow2Disk? ==> q.codec == codec
      modifies Objects(), buf
      ensures Valid() && Objects() == old(Objects()) && Shown() == old(Shown()) && SameOutside(old(buf[..]), buf[..], lo, hi)
      ensures WellFormed(Shown().image)
      ensures old(Intact()) && (r == Done || Shown().steady) ==> Intact()
      ensures r == Done && lo < hi ==> offset + (hi - lo) <= GuestDisk.Size(Shown().image)
      ensures r == Done && old(Intact()) && Coherent(codec, Shown().image) ==>
                Shows(codec, Shown().image, offset, buf[lo..hi])
      ensures r.Failed? && Shown().local && old(Intact()) && Coherent(codec, Shown().image) ==>
                offset + (hi - lo) > GuestDisk.Size(Shown().image) || !Readable(codec, Shown().image, offset, hi - lo)
      decreases Objects(), 4
    {
      match this
      case RawDisk(src) => r := src.ReadInto(offset, buf, lo, hi);
      case Qcow2Disk(q) => r := q.ReadInto(offset, buf, lo, hi);
    }

    function Size(): nat
      reads if Qcow2Disk? then {q} else {}
    {
      match this
      case RawDisk(src) => |src.Content()|
      case Qcow2Disk(q) => q.vsize
    }
  }

  class Qcow2 {
    const codec: Codec
    const host: ByteSource
    const vsize: nat
    const geo: Geometry
    var backing: Option<DiskImage>
    var cache: ClusterCache.Cache
    ghost var view: View
    ghost var Repr: set<object>

    /** The image by itself: geometry, host and cluster cache. */
    ghost predicate OwnValid()
      reads this, host.Objects()
    {
      && Plausible(geo)
      && this !in host.Objects()
      && host.Valid()
      && forall e :: e in cache ==> |e.data| == ClusterSize(geo)
    }

    ghost predicate OwnIntact()
      requires Plausible(geo)
      reads this, host.Objects()
    {
      host.Intact() && SoundCache(codec, host.Content(), geo, cache)
    }

    ghost predicate Valid()
      reads this, Repr
      ensures Valid() ==> this in Repr && host.Objects() <= Repr && OwnValid()
      ensures Valid() ==> view.image.Overlay? && view.image.host == host.Content() && view.image.geo == geo
                          && view.image.vsize == vsize
      decreases Repr
    {
      && this in Repr && host.Objects() <= Repr
      && OwnValid()
      && match backing
         case None =>
           view == View(Overlay(host.Content(), vsize, geo, None), host.LocalFile?, host.Steady())
         case Some(RawDisk(src)) =>
           && src.Objects() <= Repr - {this} && src.Objects() !! host.Objects() && src.Valid()
           && view == Above(View(Raw(src.Content()), src.LocalFile?, src.Steady()))
         case Some(Qcow2Disk(q)) =>
           && q in Repr && q.Repr <= Repr - {this} && q.Repr !! host.Objects() && q.Valid() && q.codec == codec
           && view == Above(q.view)
    }

    /** The view of this overlay put on top of another image. */
    ghost function Above(below: View): View {
      View(Overlay(host.Content(), vsize, geo, Some(below.image)),
           host.LocalFile? && below.local, host.Steady() && below.steady)
    }

    lemma ViewIsWellFormed()
      requires Valid()
      ensures WellFormed(view.image)
      decreases Repr
    {
      match backing
      case Some(Qcow2Disk(q)) => q.ViewIsWellFormed();
      case _ =>
    }

    ghost predicate Intact()
      requires Valid()
      reads this, Repr
      ensures Intact() ==> OwnIntact()
      decreases Repr
    {
      && OwnIntact()
      && match backing
         case None => true
         case Some(RawDisk(src)) => src.Intact()
         case Some(Qcow2Disk(q)) => q.Intact()
    }

    constructor (codec: Codec, host: ByteSource, vsize: nat, geo: Geometry)
      requires Plausible(geo) && host.Valid()
      ensures Valid() && Repr == {this} + host.Objects() && this.codec == codec
      ensures view == View(Overlay(host.Content(), vsize, geo, None), host.LocalFile?, host.Steady())
      ensures host.Intact() ==> Intact()
      ensures this.host == host && backing == None && cache == []
    {
      this.codec, this.host, this.vsize, this.geo := codec, host, vsize, geo;
      backing, cache := None, [];
      view := View(Overlay(host.Content(), vsize, geo, None), host.LocalFile?, host.Steady());
      Repr := {this} + host.Objects();
    }

    /** `map_cluster`. */
    method MapAt(guest: nat) returns (r: Result<Mapping>)
      requires OwnValid()
      modifies host.Objects()
      ensures OwnValid()
      ensures old(host.Intact()) && (r.Ok? || host.Steady()) ==> host.Intact()
      ensures r.Ok? && old(host.Intact()) ==> MapCluster(host.Content(), geo, guest) == Some(r.value)
      ensures r.Err? && host.LocalFile? ==> MapCluster(host.Content(), geo, guest).None?
    {
      hide Quot, Rem, Pow2, DecodeEntry;
      var table := Table(geo, L1Index(geo, guest));
      if table == 0 {
        return Ok(Unallocated);
      }
      var entry := host.Fetch(table + L2Index(geo, guest) * 8, 8);
      match entry
      case Err(e) => r := Err(e);
      case Ok(raw) => r := Ok(DecodeEntry(geo.bits, Be64(raw)));
    }

    /** The inflate loop: call the inflater until a whole cluster is out or it stalls. */
    method InflateCluster(comp: seq<byte>) returns (r: Result<seq<byte>>)
      requires Plausible(geo)
      ensures r == if |codec(comp)| >= ClusterSize(geo) then Ok(codec(comp)[..ClusterSize(geo)]) else Err(Error.InvalidQcow2)
    {
      hide Pow2;
      var out := codec(comp);  // what the inflater would emit in all
      var totalOut := 0;
      while totalOut < ClusterSize(geo)
        invariant totalOut <= |out| && totalOut <= ClusterSize(geo)
        decreases ClusterSize(geo) - totalOut
      {
        var room, left := ClusterSize(geo) - totalOut, |out| - totalOut;
        // One call emits some of what is left, and stalls or ends only when nothing is.
        var n: nat :| n <= room && n <= left && (n == 0 ==> left == 0);
        if n == 0 {
          break;
        }
        totalOut := totalOut + n;
      }
      if totalOut != ClusterSize(geo) {
        return Err(Error.InvalidQcow2);
      }
      return Ok(out[..totalOut]);
    }

    lemma CompressedInput(host: seq<byte>, offset: nat, csize: nat)
      ensures var n := Min(csize, SaturatingSub(|host|, offset));
              ReadExact(host, offset, n) == Ok(host[Min(offset, |host|)..Min(offset + csize, |host|)])
    {
      if csize == 0 || offset >= |host| {
        assert host[Min(offset, |host|)..Min(offset + csize, |host|)] == [];
      }
    }

    /** `decompress_cluster`: one call is the sequential step of the cluster cache. */
    method DecompressCluster(offset: nat, csize: nat) returns (r: Result<seq<byte>>)
      requires OwnValid()
      modifies this`cache, host.Objects()
      ensures OwnValid()
      ensures r.Ok? ==> |r.value| == ClusterSize(geo)
      ensures old(host.Intact()) && (r.Ok? || host.Steady()) ==> host.Intact()
      ensures r.Err? ==> cache == old(cache)
      ensures old(host.Intact()) && (r.Ok? || host.LocalFile?) ==>
                ((if r.Ok? then Some(r.value) else None), cache)
                == ClusterCache.Decompress(
                     InflaterOf(codec, host.Content(), geo), CACHE_CLUSTERS, old(cache), ClusterCache.Request(offset, csize))
    {
      hide Pow2, ClusterSize, ReadExact;
      var hit := ClusterCache.Find(cache, offset);
      if hit.Some? {
        assert ClusterCache.Entry(offset, hit.value) in cache;
        return Ok(hit.value);
      }
      var avail := SaturatingSub(|host.Content()|, offset);
      var comp := host.Fetch(offset, Min(csize, avail));
      CompressedInput(host.Content(), offset, csize);
      if comp.Err? {
        return Err(comp.error);
      }
      r := InflateCluster(comp.value);
      if r.Ok? {
        cache := ClusterCache.Insert(cache, CACHE_CLUSTERS, ClusterCache.Entry(offset, r.value));
      }
    }

    /** A compressed cluster that the image stores: the cache stays sound, and with fair keys the
        result is the uncached inflation. */
    method FetchCompressed(offset: nat, csize: nat) returns (r: Result<seq<byte>>)
      requires OwnValid()
      modifies this`cache, host.Objects()
      ensures OwnValid()
      ensures r.Ok? ==> |r.value| == ClusterSize(geo)
      ensures old(OwnIntact()) && Stores(host.Content(), geo, offset, csize) && (r.Ok? || host.Steady()) ==> OwnIntact()
      ensures old(OwnIntact()) && Stores(host.Content(), geo, offset, csize) && CoherentKeys(codec, host.Content(), geo) ==>
                && (r.Ok? ==> Inflated(codec, host.Content(), geo, offset, csize) == Some(r.value))
                && (r.Err? && host.LocalFile? ==> Inflated(codec, host.Content(), geo, offset, csize).None?)
    {
      hide Pow2, ClusterSize, SoundCache, CoherentKeys, Stores, Inflated, ClusterCache.Decompress;
      ghost var before := cache;
      r := DecompressCluster(offset, csize);
      if old(OwnIntact()) && Stores(host.Content(), geo, offset, csize) {
        CachedClusterIsInflation(codec, host.Content(), geo, before, offset, csize);
      }
    }

    /** The compressed case of `ReadMapped`. */
    method ReadCompressed(offset: nat, csize: nat, within: nat, buf: array<byte>, lo: nat, hi: nat) returns (r: Outcome)
      requires OwnValid() && lo <= hi <= buf.Length && buf !in host.Objects()
      requires within + (hi - lo) <= ClusterSize(geo)
      modifies this`cache, host.Objects(), buf
      ensures OwnValid() && SameOutside(old(buf[..]), buf[..], lo, hi)
      ensures old(OwnIntact()) && Stores(host.Content(), geo, offset, csize) && (r == Done || host.Steady()) ==> OwnIntact()
      ensures old(OwnIntact()) && Stores(host.Content(), geo, offset, csize) && CoherentKeys(codec, host.Content(), geo) ==>
                var data := Inflated(codec, host.Content(), geo, offset, csize);
                && (r == Done ==> data.Some? && buf[lo..hi] == data.value[within..within + (hi - lo)])
                && (r.Failed? && host.LocalFile? ==> data.None?)
    {
      hide Pow2, ClusterSize, SoundCache, CoherentKeys, Stores, Inflated, SameOutside;
      SameOutsideRefl(buf[..], lo, hi);
      var data := FetchCompressed(offset, csize);
      if data.Err? {
        return Failed(data.error);
      }
      CopyInto(buf, lo, data.value[within..within + (hi - lo)]);
      assert lo + |data.value[within..within + (hi - lo)]| == hi;
      return Done;
    }

    /** The part of a cluster that this image maps by itself. */
    method ReadMapped(m: Mapping, within: nat, buf: array<byte>, lo: nat, hi: nat) returns (r: Outcome)
      requires OwnValid() && lo <= hi <= buf.Length && buf !in host.Objects()
      requires !m.Unallocated? && within + (hi - lo) <= ClusterSize(geo)
      modifies this`cache, host.Objects(), buf
      ensures OwnValid() && SameOutside(old(buf[..]), buf[..], lo, hi)
      ensures old(OwnIntact()) && StoresIfCompressed(m) && (r == Done || host.Steady()) ==> OwnIntact()
      ensures old(OwnIntact()) && StoresIfCompressed(m) && CoherentKeys(codec, host.Content(), geo) ==>
                && (r == Done ==> MappedShows(codec, host.Content(), geo, m, within, buf[lo..hi]))
                && (r.Failed? && lo < hi && host.LocalFile? ==>
                      !MappedReadable(codec, host.Content(), geo, m, within, hi - lo))
    {
      hide Pow2, ClusterSize, SoundCache, CoherentKeys, Stores, Inflated, SameOutside;
      match m
      case Data(at) =>
        r := host.ReadInto(at + within, buf, lo, hi);
        if r.Failed? && lo < hi && host.LocalFile? {
          assert MappedByte(codec, host.Content(), geo, m, within + (hi - lo) - 1).None?;
        }
      case Zero =>
        CopyInto(buf, lo, Zeros(hi - lo));
        assert lo + |Zeros(hi - lo)| == hi;
        r := Done;
      case Compressed(offset, csize) =>
        r := ReadCompressed(offset, csize, within, buf, lo, hi);
        assert lo < hi && Inflated(codec, host.Content(), geo, offset, csize).None? ==>
            MappedByte(codec, host.Content(), geo, m, within + 0).None?;
    }

    ghost predicate StoresIfCompressed(m: Mapping)
      requires Plausible(geo)
    {
      m.Compressed? ==> Stores(host.Content(), geo, m.offset, m.csize)
    }

    /** `map_cluster` within the stack. */
    method MapRun(guest: nat) returns (r: Result<Mapping>)
      requires Valid()
      modifies Repr
      ensures Valid() && Repr == old(Repr) && view == old(view)
      ensures old(Intact()) && (r.Ok? || view.steady) ==> Intact()
      ensures r.Ok? && old(Intact()) ==> MapCluster(host.Content(), geo, guest) == Some(r.value)
      ensures r.Err? && view.local ==> MapCluster(host.Content(), geo, guest).None?
    {
      hide Quot, Rem, Pow2, MapCluster, SoundCache;
      r := MapAt(guest);
    }

    /** `ReadMapped` within the stack. */
    method ReadOwn(m: Mapping, within: nat, buf: array<byte>, lo: nat, hi: nat) returns (r: Outcome)
      requires Valid() && lo <= hi <= buf.Length && buf !in Repr
      requires !m.Unallocated? && within + (hi - lo) <= ClusterSize(geo)
      modifies Repr, buf
      ensures Valid() && Repr == old(Repr) && view == old(view) && SameOutside(old(buf[..]), buf[..], lo, hi)
      ensures old(Intact()) && StoresIfCompressed(m) && (r == Done || view.steady) ==> Intact()
      ensures old(Intact()) && StoresIfCompressed(m) && CoherentKeys(codec, host.Content(), geo) ==>
                && (r == Done ==> MappedShows(codec, host.Content(), geo, m, within, buf[lo..hi]))
                && (r.Failed? && lo < hi && view.local ==>
                      !MappedReadable(codec, host.Content(), geo, m, within, hi - lo))
    {
      hide Pow2, SoundCache, MappedShows, MappedReadable, CoherentKeys, Stores, StoresIfCompressed;
      r := ReadMapped(m, within, buf, lo, hi);
    }

    /** A range that the backing image covers. */
    method ReadBelow(offset: nat, buf: array<byte>, lo: nat, hi: nat) returns (r: Outcome)
      requires Valid() && WellFormed(view.image) && lo < hi <= buf.Length && buf !in Repr
      requires view.image.backing.Some?
      modifies Repr, buf
      ensures Valid() && Repr == old(Repr) && view == old(view) && SameOutside(old(buf[..]), buf[..], lo, hi)
      ensures old(Intact()) && (r == Done || view.steady) ==> Intact()
      ensures var below := view.image.backing.value;
              old(Intact()) && Coherent(codec, below) && offset + (hi - lo) <= GuestDisk.Size(below) ==>
                && (r == Done ==> Shows(codec, below, offset, buf[lo..hi]))
                && (r.Failed? && view.local ==> !Readable(codec, below, offset, hi - lo))
      decreases Repr, 0
    {
      hide Pow2, GuestByte, Shows, Readable, Coherent, SoundCache;
      r := backing.value.ReadInto(codec, offset, buf, lo, hi);
    }

    lemma BackingSize()
      requires Valid()
      ensures backing.Some? <==> view.image.backing.Some?
      ensures backing.Some? ==> backing.value.Size() == GuestDisk.Size(view.image.backing.value)
    {
    }

    /** `read_backing`: an unallocated range of the guest disk. */
    method ReadBacking(offset: nat, buf: array<byte>, lo: nat, hi: nat) returns (r: Outcome)
      requires Valid() && WellFormed(view.image) && lo <= hi <= buf.Length && buf !in Repr
      modifies Repr, buf
      ensures Valid() && Repr == old(Repr) && view == old(view) && SameOutside(old(buf[..]), buf[..], lo, hi)
      ensures old(Intact()) && (r == Done || view.steady) ==> Intact()
      ensures old(Intact()) && Coherent(codec, view.image) ==>
                && (r == Done ==> BackingShows(codec, view.image.backing, offset, buf[lo..hi]))
                && (r.Failed? && view.local ==> !BackingReadable(codec, view.image.backing, offset, hi - lo))
      decreases Repr, 1
    {
      hide Pow2, GuestByte, Shows, Readable, BackingShows, BackingReadable, CoherentKeys, Valid, Intact, OwnValid, OwnIntact, SameOutside;
      ghost var below := view.image.backing;
      SameOutsideRefl(buf[..], lo, hi);
      BackingSize();
      var n := 0;
      if backing.Some? {
        n := Min(hi - lo, SaturatingSub(backing.value.Size(), offset));
        if below.Some? && BackingReadable(codec, below, offset, hi - lo) {
          ServedIsReadable(codec, below.value, offset, hi - lo);
        }
        if n > 0 {
          r := ReadBelow(offset, buf, lo, lo + n);
          SameOutsideWidens(old(buf[..]), buf[..], lo, lo + n, lo, hi);
          if r.Failed? {
            return;
          }
        }
      }
      ghost var middle, head := buf[..], buf[lo..lo + n];
      CopyInto(buf, lo + n, Zeros(hi - lo - n));
      assert lo + n + |Zeros(hi - lo - n)| == hi;
      WriteExtends(middle, buf[..], lo, lo + n, hi);
      SameOutsideWidens(middle, buf[..], lo + n, hi, lo, hi);
      SameOutsideTrans(old(buf[..]), middle, buf[..], lo, hi);
      if old(Intact()) && Coherent(codec, view.image) {
        if below.Some? && n == 0 {
          NothingShown(codec, below.value, offset, head);
        }
        ServedThenZeros(codec, below, offset, hi - lo, head);
      }
      return Done;
    }

    /** One turn of the `read_at` loop: a range inside one guest cluster. */
    method ReadRun(pos: nat, buf: array<byte>, lo: nat, hi: nat) returns (r: Outcome)
      requires Valid() && WellFormed(view.image) && lo < hi <= buf.Length && buf !in Repr
      requires pos + (hi - lo) <= vsize && Rem(pos, ClusterSize(geo)) + (hi - lo) <= ClusterSize(geo)
      modifies Repr, buf
      ensures Valid() && Repr == old(Repr) && view == old(view) && SameOutside(old(buf[..]), buf[..], lo, hi)
      ensures old(Intact()) && (r == Done || view.steady) ==> Intact()
      ensures old(Intact()) && Coherent(codec, view.image) ==>
                && (r == Done ==> Shows(codec, view.image, pos, buf[lo..hi]))
                && (r.Failed? && view.local ==> !Readable(codec, view.image, pos, hi - lo))
      decreases Repr, 2
    {
      hide Quot, Rem, Pow2, MapCluster, CoherentKeys, Shows, Readable, SoundCache, MappedShows, MappedReadable;
      hide BackingReadable, BackingShows, Valid, Intact, OwnValid, OwnIntact, SameOutside;
      var within := Rem(pos, ClusterSize(geo));
      AlignDown(pos, ClusterSize(geo));
      if Readable(codec, view.image, pos, hi - lo) {
        ReadableRun(codec, view.image, pos, hi - lo);
      }
      SameOutsideRefl(buf[..], lo, hi);
      var m := MapRun(pos - within);
      if m.Err? {
        return Failed(m.error);
      }
      if m.value.Unallocated? {
        r := ReadBacking(pos, buf, lo, hi);
      } else {
        assert old(Intact()) ==> StoresIfCompressed(m.value);
        r := ReadOwn(m.value, within, buf, lo, hi);
      }
      if old(Intact()) && Coherent(codec, view.image) && r == Done {
        RunIsShown(codec, view.image, m.value, pos, buf[lo..hi]);
      }
    }

    /** `read_at` into `buf[lo..hi]`: cluster by cluster. */
    method ReadInto(offset: nat, buf: array<byte>, lo: nat, hi: nat) returns (r: Outcome)
      requires Valid() && lo <= hi <= buf.Length && buf !in Repr
      modifies Repr, buf
      ensures Valid() && Repr == old(Repr) && view == old(view) && SameOutside(old(buf[..]), buf[..], lo, hi)
      ensures WellFormed(view.image)
      ensures old(Intact()) && (r == Done || view.steady) ==> Intact()
      ensures offset + (hi - lo) > vsize ==> r == Failed(OutOfBounds) && buf[..] == old(buf[..])
      ensures r == Done ==> offset + (hi - lo) <= vsize
      ensures r == Done && old(Intact()) && Coherent(codec, view.image) ==>
                Shows(codec, view.image, offset, buf[lo..hi])
      ensures r.Failed? && view.local && old(Intact()) && Coherent(codec, view.image) ==>
                offset + (hi - lo) > vsize || !Readable(codec, view.image, offset, hi - lo)
      decreases Repr, 3
    {
      hide Quot, Rem, Pow2, GuestByte, Coherent, Shows, Readable, Valid, Intact, OwnValid, OwnIntact, ClusterSize, SameOutside;
      ViewIsWellFormed();
      SameOutsideRefl(buf[..], lo, hi);
      if offset + (hi - lo) > vsize {
        return Failed(OutOfBounds);
      }
      var at, pos := lo, offset;
      assert Shows(codec, view.image, offset, buf[lo..at]) by {
        NothingShown(codec, view.image, offset, buf[lo..at]);
      }
      while at < hi
        invariant lo <= at <= hi && pos == offset + (at - lo)
        invariant Valid() && Repr == old(Repr) && view == old(view) && SameOutside(old(buf[..]), buf[..], lo, hi)
        invariant old(Intact()) ==> Intact()
        invariant old(Intact()) && Coherent(codec, view.image) ==> Shows(codec, view.image, offset, buf[lo..at])
      {
        var run := Min(ClusterSize(geo) - Rem(pos, ClusterSize(geo)), hi - at);
        ghost var before := buf[..];
        r := ReadRun(pos, buf, at, at + run);
        SameOutsideWidens(before, buf[..], at, at + run, lo, hi);
        SameOutsideTrans(old(buf[..]), before, buf[..], lo, hi);
        if r.Failed? {
          if Readable(codec, view.image, offset, hi - lo) {
            ReadablePart(codec, view.image, offset, hi - lo, pos, run);
          }
          return;
        }
        WriteExtends(before, buf[..], lo, at, at + run);
        if old(Intact()) && Coherent(codec, view.image) {
          ShowsConcat(codec, view.image, offset, before[lo..at], buf[at..at + run]);
        }
        at, pos := at + run, pos + run;
      }
      return Done;
    }

    /** The scan of one L2 table: the first compressed entry, if any. */
    method FirstCompressed(l2: seq<byte>) returns (r: Option<nat>)
      ensures r.Some? ==> r.value < |l2| / 8 && IsCompressed(Be64(l2[8 * r.value..8 * r.value + 8]))
      ensures r.None? ==> Plain(l2)
    {
      hide IsCompressed, Be64;
      for j := 0 to |l2| / 8
        invariant forall k :: 0 <= k < j ==> !IsCompressed(Be64(l2[8 * k..8 * k + 8]))
      {
        if IsCompressed(Be64(l2[8 * j..8 * j + 8])) {
          return Some(j);
        }
      }
      return None;
    }

    /** `has_compressed_clusters`: scan the present L2 tables, stop at the first compressed entry. */
    method HasCompressedClusters() returns (r: Result<bool>)
      requires OwnValid()
      modifies host.Objects()
      ensures OwnValid()
      ensures old(host.Intact()) && (r.Ok? || host.Steady()) ==> host.Intact()
      ensures r == Ok(true) && old(host.Intact()) ==>
                exists guest: nat :: L1Index(geo, guest) < |geo.l1| && CompressedAt(host.Content(), geo, guest)
      ensures r == Ok(false) && old(host.Intact()) ==> forall guest: nat :: !CompressedAt(host.Content(), geo, guest)
      ensures r.Err? && host.LocalFile? ==>
                exists i: nat :: Table(geo, i) != 0 && Table(geo, i) + ClusterSize(geo) > |host.Content()|
    {
      hide Pow2, ClusterSize, IsCompressed, CompressedSlot, CompressedAt, MapCluster, L1Index, OffsetBits, Be64;
      hide PlainTables, Plain;
      if old(host.Intact()) {
        NoTablesArePlain(host.Content(), geo);
      }
      for i := 0 to |geo.l1|
        invariant OwnValid()
        invariant old(host.Intact()) ==> host.Intact() && PlainTables(host.Content(), geo, i)
      {
        var table := Table(geo, i);
        if table != 0 {
          var l2 := host.Fetch(table, ClusterSize(geo));
          if l2.Err? {
            return Err(l2.error);
          }
          var hit := FirstCompressed(l2.value);
          if hit.Some? {
            if old(host.Intact()) {
              SlotInTable(host.Content(), geo, i, hit.value);
              CompressedSlotIsReached(host.Content(), geo, i, hit.value);
            }
            return Ok(true);
          }
        }
        if old(host.Intact()) {
          TableIsPlain(host.Content(), geo, i);
        }
      }
      if old(host.Intact()) {
        forall guest: nat
          ensures !CompressedAt(host.Content(), geo, guest)
        {
          PlainMeansNoneCompressed(host.Content(), geo, guest);
        }
      }
      return Ok(false);
    }

    /** `set_backing`, right after opening. */
    method SetBacking(below: DiskImage)
      requires Valid() && backing == None && below.Valid() && below.Objects() !! Repr
      requires below.Qcow2Disk? ==> below.q.codec == codec && below.q in below.Objects()
      modifies this
      ensures Valid() && Repr == old(Repr) + below.Objects()
      ensures view == Above(below.Shown())
      ensures old(Intact()) && old(below.Intact()) ==> Intact()
    {
      hide SoundCache;
      Repr := Repr + below.Objects();
      view := Above(below.Shown());
      backing := Some(below);
    }
  }

  lemma NothingShown(codec: Codec, img: Image, offset: nat, data: seq<byte>)
    requires WellFormed(img) && data == []
    ensures Shows(codec, img, offset, data)
  {
  }

  /** A partition's window on a disk (`Slice`, src/blockdev.rs). */
  datatype Slice = Slice(parent: DiskImage, start: nat, len: nat) {
    /** Reads into the first `n` bytes of the buffer. */
    method ReadInto(ghost codec: Codec, offset: nat, buf: array<byte>, n: nat) returns (r: Outcome)
      requires parent.Valid() && n <= buf.Length && buf !in parent.Objects()
      requires parent.Qcow2Disk? ==> parent.q.codec == codec
      modifies parent.Objects(), buf
      ensures parent.Valid() && parent.Objects() == old(parent.Objects()) && parent.Shown() == old(parent.Shown())
      ensures WellFormed(parent.Shown().image) && SameOutside(old(buf[..]), buf[..], 0, n)
      ensures offset + n > len ==> r == Failed(OutOfBounds) && buf[..] == old(buf[..])
      ensures old(parent.Intact()) && (r == Done || parent.Shown().steady) ==> parent.Intact()
      ensures r == Done && old(parent.Intact()) && Coherent(codec, parent.Shown().image) ==>
                Shows(codec, parent.Shown().image, start + offset, buf[..n])
      ensures r.Failed? && offset + n <= len && parent.Shown().local && old(parent.Intact())
              && Coherent(codec, parent.Shown().image) ==>
                || start + offset + n > GuestDisk.Size(parent.Shown().image)
                || !Readable(codec, parent.Shown().image, start + offset, n)
    {
      hide GuestByte, Shows, Readable, Coherent;
      if offset + n > len {
        ShownIsWellFormed(parent);
        return Failed(OutOfBounds);
      }
      r := parent.ReadInto(codec, start + offset, buf, 0, n);
      assert buf[0..n] == buf[..n];
    }
  }

  lemma ShownIsWellFormed(disk: DiskImage)
    requires disk.Valid()
    ensures WellFormed(disk.Shown().image)
  {
    match disk
    case RawDisk(_) =>
    case Qcow2Disk(q) => q.ViewIsWellFormed();
  }

  lemma NoTablesArePlain(host: seq<byte>, g: Geometry)
    requires Plausible(g)
    ensures PlainTables(host, g, 0)
  {
  }
}
