/** What a disk image means: the guest-visible bytes of a raw file or of a chain of qcow2
    overlays, and how a chain is opened (src/disk/mod.rs, src/disk/qcow2.rs). */
module GuestDisk {
  import opened Arith
  import opened Common
  import opened ClusterMap

  /** Raw inflate, an external crate: everything a compressed byte string decodes to before its
      end or its first corruption. */
  type Codec = seq<byte> -> seq<byte>

  datatype Image =
    | Raw(bytes: seq<byte>)
    | Overlay(host: seq<byte>, vsize: nat, geo: Geometry, backing: Option<Image>)

  predicate WellFormed(img: Image) {
    img.Overlay? ==>
      Plausible(img.geo) && (img.backing.Some? ==> WellFormed(img.backing.value))
  }

  function Size(img: Image): nat {
    match img
    case Raw(bytes) => |bytes|
    case Overlay(_, vsize, _, _) => vsize
  }

  /** One cluster inflated from the `csize` bytes at `offset`, as far as the file has them;
      None when they yield less than a cluster. */
  function Inflated(codec: Codec, host: seq<byte>, g: Geometry, offset: nat, csize: nat): (r: Option<seq<byte>>)
    requires Plausible(g)
    ensures r.Some? ==> |r.value| == ClusterSize(g)
  {
    hide Pow2;
    var lo, hi := Min(offset, |host|), Min(offset + csize, |host|);
    var out := codec(host[lo..hi]);
    if |out| >= ClusterSize(g) then Some(out[..ClusterSize(g)]) else None
  }

  /** The byte a mapping other than Unallocated yields at distance `within` into its cluster. */
  function MappedByte(codec: Codec, host: seq<byte>, g: Geometry, m: Mapping, within: nat): Option<byte>
    requires Plausible(g) && within < ClusterSize(g) && !m.Unallocated?
  {
    match m
    case Data(h) => if h + within < |host| then Some(host[h + within]) else None
    case Zero => Some(0)
    case Compressed(offset, csize) =>
      var data := Inflated(codec, host, g, offset, csize);
      if data.Some? then Some(data.value[within]) else None
  }

  /** The guest disk, byte by byte; None where a read has to fail. */
  function GuestByte(codec: Codec, img: Image, at: nat): Option<byte>
    requires WellFormed(img)
  {
    match img
    case Raw(bytes) => if at < |bytes| then Some(bytes[at]) else None
    case Overlay(host, vsize, g, backing) =>
      if at >= vsize then None
      else
        var m := MapCluster(host, g, at);
        if m.None? then None
        else if m.value.Unallocated? then BackingByte(codec, backing, at)
        else MappedByte(codec, host, g, m.value, Rem(at, ClusterSize(g)))
  }

  /** `read_backing` at one byte: zero without a backing image and past its end. */
  function BackingByte(codec: Codec, backing: Option<Image>, at: nat): Option<byte>
    requires backing.Some? ==> WellFormed(backing.value)
  {
    if backing.None? || at >= Size(backing.value) then Some(0)
    else GuestByte(codec, backing.value, at)
  }

  /** `data` is what the guest sees at `offset`. */
  ghost predicate Shows(codec: Codec, img: Image, offset: nat, data: seq<byte>)
    requires WellFormed(img)
  {
    forall i :: 0 <= i < |data| ==> GuestByte(codec, img, offset + i) == Some(data[i])
  }

  ghost predicate Readable(codec: Codec, img: Image, offset: nat, len: nat)
    requires WellFormed(img)
  {
    forall i :: offset <= i < offset + len ==> GuestByte(codec, img, i).Some?
  }

  ghost predicate BackingShows(codec: Codec, backing: Option<Image>, offset: nat, data: seq<byte>)
    requires backing.Some? ==> WellFormed(backing.value)
  {
    forall i :: 0 <= i < |data| ==> BackingByte(codec, backing, offset + i) == Some(data[i])
  }

  ghost predicate BackingReadable(codec: Codec, backing: Option<Image>, offset: nat, len: nat)
    requires backing.Some? ==> WellFormed(backing.value)
  {
    forall i :: offset <= i < offset + len ==> BackingByte(codec, backing, i).Some?
  }

  // ---- What a written cluster reads as ----

  /** The `k`-th byte of the guest cluster of slot (i, j), for every kind of entry written there:
      data is read where it lies, a zero entry reads zero, an unallocated one from below, and a
      compressed one is the inflation of its sectors as far as the file has them. */
  lemma WrittenClusterReads(codec: Codec, img: Image, i: nat, j: nat, entry: nat, k: nat)
    requires WellFormed(img) && img.Overlay? && j < L2Entries(img.geo) && k < ClusterSize(img.geo)
    requires entry < 0x1_0000_0000_0000_0000 && GuestOf(img.geo, i, j) + k < img.vsize
    requires var at := Table(img.geo, i) + 8 * j;
             Table(img.geo, i) != 0 && at + 8 <= |img.host| && img.host[at..at + 8] == ToBe(entry, 8)
    ensures var p := GuestOf(img.geo, i, j) + k;
            match DecodeEntry(img.geo.bits, entry) {
              case Data(h) => GuestByte(codec, img, p) == if h + k < |img.host| then Some(img.host[h + k]) else None
              case Zero => GuestByte(codec, img, p) == Some(0)
              case Unallocated => GuestByte(codec, img, p) == BackingByte(codec, img.backing, p)
              case Compressed(offset, csize) =>
                offset + csize <= |img.host| && |codec(img.host[offset..offset + csize])| >= ClusterSize(img.geo) ==>
                  GuestByte(codec, img, p) == Some(codec(img.host[offset..offset + csize])[k])
            }
  {
    hide Pow2, MapCluster, DecodeEntry, GuestOf, Table, ClusterSize, L2Entries;
    SlotMeans(img.host, img.geo, i, j, entry);
    AlignedGuest(img.geo, i, j);
    MapIsPerCluster(img.host, img.geo, GuestOf(img.geo, i, j), k);
  }

  lemma AlignedGuest(g: Geometry, i: nat, j: nat)
    requires Plausible(g) && j < L2Entries(g)
    ensures Rem(GuestOf(g, i, j), ClusterSize(g)) == 0
  {
    hide Pow2, ClusterSize, L2Entries, GuestOf;
    SlotOfGuest(g, i, j);
  }

  /** The disk as a whole: a guest cluster whose entry is written with a host offset reads as the file's bytes there. */
  lemma WrittenDataReads(codec: Codec, img: Image, i: nat, j: nat, copied: nat, q: nat, k: nat)
    requires WellFormed(img) && img.Overlay? && j < L2Entries(img.geo) && k < ClusterSize(img.geo)
    requires copied <= 1 && 0 < q < 0x8000_0000_0000 && GuestOf(img.geo, i, j) + k < img.vsize && 512 * q + k < |img.host|
    requires var at := Table(img.geo, i) + 8 * j;
             && Table(img.geo, i) != 0 && at + 8 <= |img.host|
             && img.host[at..at + 8] == ToBe(EntryOf(copied, 0, q, 0, 0), 8)
    ensures GuestByte(codec, img, GuestOf(img.geo, i, j) + k) == Some(img.host[512 * q + k])
  {
    hide Pow2, DecodeEntry, GuestOf, Table, ClusterSize, L2Entries, EntryOf, ToBe, GuestByte;
    FieldsOfEntry(copied, 0, q, 0, 0);
    EntryMeans(img.geo.bits, copied, 0, q, 0, 0);
    WrittenClusterReads(codec, img, i, j, EntryOf(copied, 0, q, 0, 0), k);
  }

  lemma ShowsConcat(codec: Codec, img: Image, offset: nat, a: seq<byte>, b: seq<byte>)
    requires WellFormed(img) && Shows(codec, img, offset, a) && Shows(codec, img, offset + |a|, b)
    ensures Shows(codec, img, offset, a + b)
  {
    hide GuestByte;
    forall i | 0 <= i < |a + b|
      ensures GuestByte(codec, img, offset + i) == Some((a + b)[i])
    {
      if i >= |a| {
        assert GuestByte(codec, img, offset + |a| + (i - |a|)) == Some(b[i - |a|]);
      }
    }
  }

  lemma ReadablePart(codec: Codec, img: Image, offset: nat, len: nat, at: nat, n: nat)
    requires WellFormed(img) && offset <= at && at + n <= offset + len && Readable(codec, img, offset, len)
    ensures Readable(codec, img, at, n)
  {
    hide GuestByte;
  }

  /** How much of a range the backing image can serve; the rest reads as zero. */
  function Served(backing: Image, offset: nat, len: nat): nat {
    Min(len, SaturatingSub(Size(backing), offset))
  }

  lemma ServedThenZeros(codec: Codec, backing: Option<Image>, offset: nat, len: nat, head: seq<byte>)
    requires backing.Some? ==> WellFormed(backing.value)
    requires |head| == (if backing.Some? then Served(backing.value, offset, len) else 0) <= len
    requires backing.Some? ==> Shows(codec, backing.value, offset, head)
    ensures BackingShows(codec, backing, offset, head + Zeros(len - |head|))
  {
    hide GuestByte;
  }

  lemma ServedIsReadable(codec: Codec, backing: Image, offset: nat, len: nat)
    requires WellFormed(backing) && BackingReadable(codec, Some(backing), offset, len)
    ensures Readable(codec, backing, offset, Served(backing, offset, len))
  {
    hide GuestByte;
    forall i | offset <= i < offset + Served(backing, offset, len)
      ensures GuestByte(codec, backing, i).Some?
    {
      assert BackingByte(codec, Some(backing), i).Some?;
    }
  }

  /** `data` is what mapping `m` yields from distance `within` into the cluster on. */
  ghost predicate MappedShows(codec: Codec, host: seq<byte>, g: Geometry, m: Mapping, within: nat, data: seq<byte>)
    requires Plausible(g) && !m.Unallocated? && within + |data| <= ClusterSize(g)
  {
    forall k :: 0 <= k < |data| ==> MappedByte(codec, host, g, m, within + k) == Some(data[k])
  }

  ghost predicate MappedReadable(codec: Codec, host: seq<byte>, g: Geometry, m: Mapping, within: nat, n: nat)
    requires Plausible(g) && !m.Unallocated? && within + n <= ClusterSize(g)
  {
    forall k :: within <= k < within + n ==> MappedByte(codec, host, g, m, k).Some?
  }

  /** The run of bytes at `pos`, inside one cluster that is mapped to `m`. */
  ghost predicate RunShows(codec: Codec, img: Image, m: Mapping, pos: nat, data: seq<byte>)
    requires WellFormed(img) && img.Overlay? && Rem(pos, ClusterSize(img.geo)) + |data| <= ClusterSize(img.geo)
  {
    if m.Unallocated? then BackingShows(codec, img.backing, pos, data)
    else MappedShows(codec, img.host, img.geo, m, Rem(pos, ClusterSize(img.geo)), data)
  }

  ghost predicate RunReadable(codec: Codec, img: Image, m: Mapping, pos: nat, n: nat)
    requires WellFormed(img) && img.Overlay? && Rem(pos, ClusterSize(img.geo)) + n <= ClusterSize(img.geo)
  {
    if m.Unallocated? then BackingReadable(codec, img.backing, pos, n)
    else MappedReadable(codec, img.host, img.geo, m, Rem(pos, ClusterSize(img.geo)), n)
  }

  lemma RunIsShown(codec: Codec, img: Image, m: Mapping, pos: nat, data: seq<byte>)
    requires WellFormed(img) && img.Overlay? && Rem(pos, ClusterSize(img.geo)) + |data| <= ClusterSize(img.geo)
    requires pos + |data| <= img.vsize && RunShows(codec, img, m, pos, data)
    requires Rem(pos, ClusterSize(img.geo)) <= pos
    requires MapCluster(img.host, img.geo, pos - Rem(pos, ClusterSize(img.geo))) == Some(m)
    ensures Shows(codec, img, pos, data)
  {
    hide Quot, Rem, Pow2, MapCluster, MappedByte;
    forall k | 0 <= k < |data|
      ensures GuestByte(codec, img, pos + k) == Some(data[k])
    {
      RunIsOneCluster(img.host, img.geo, pos, k);
    }
  }

  /** A readable run has a readable mapping, and what is behind the mapping is readable. */
  lemma ReadableRun(codec: Codec, img: Image, pos: nat, n: nat)
    requires WellFormed(img) && img.Overlay? && Rem(pos, ClusterSize(img.geo)) + n <= ClusterSize(img.geo)
    requires 0 < n && Rem(pos, ClusterSize(img.geo)) <= pos && Readable(codec, img, pos, n)
    ensures var m := MapCluster(img.host, img.geo, pos - Rem(pos, ClusterSize(img.geo)));
            m.Some? && RunReadable(codec, img, m.value, pos, n)
  {
    hide Quot, Rem, Pow2, MapCluster, MappedByte;
    var within := Rem(pos, ClusterSize(img.geo));
    RunIsOneCluster(img.host, img.geo, pos, 0);
    assert GuestByte(codec, img, pos).Some?;
    var m := MapCluster(img.host, img.geo, pos - within).value;
    if m.Unallocated? {
      forall i | pos <= i < pos + n
        ensures BackingByte(codec, img.backing, i).Some?
      {
        RunIsOneCluster(img.host, img.geo, pos, i - pos);
        assert GuestByte(codec, img, i).Some?;
      }
    } else {
      forall k | within <= k < within + n
        ensures MappedByte(codec, img.host, img.geo, m, k).Some?
      {
        RunIsOneCluster(img.host, img.geo, pos, k - within);
        assert GuestByte(codec, img, pos + (k - within)).Some?;
      }
    }
  }

  // ---- The cluster cache is keyed by host offset alone ----

  ghost predicate Stores(host: seq<byte>, g: Geometry, offset: nat, csize: nat)
    requires Plausible(g)
  {
    exists at: nat :: MapCluster(host, g, at) == Some(Compressed(offset, csize))
  }

  /** Any two compressed clusters at one host offset inflate alike, so the offset is a fair cache key. */
  ghost predicate CoherentKeys(codec: Codec, host: seq<byte>, g: Geometry)
    requires Plausible(g)
  {
    forall offset, c, d :: Stores(host, g, offset, c) && Stores(host, g, offset, d) ==>
      Inflated(codec, host, g, offset, c) == Inflated(codec, host, g, offset, d)
  }

  ghost predicate Coherent(codec: Codec, img: Image)
    requires WellFormed(img)
  {
    img.Overlay? ==>
      && CoherentKeys(codec, img.host, img.geo)
      && (img.backing.Some? ==> Coherent(codec, img.backing.value))
  }

  // ---- Backing chains ----

  datatype Layer = RawLayer(bytes: seq<byte>) | OverlayLayer(host: seq<byte>, vsize: nat, geo: Geometry)

  /** The images of a chain, topmost first. */
  function Layers(img: Image): seq<Layer> {
    match img
    case Raw(bytes) => [RawLayer(bytes)]
    case Overlay(host, vsize, g, backing) =>
      [OverlayLayer(host, vsize, g)] + if backing.Some? then Layers(backing.value) else []
  }

  function LayerSize(l: Layer): nat {
    if l.RawLayer? then |l.bytes| else l.vsize
  }

  /** Layer `l` covers guest byte `at` but does not allocate it. */
  predicate DefersBelow(l: Layer, at: nat) {
    l.OverlayLayer? && Plausible(l.geo) && at < l.vsize && MapCluster(l.host, l.geo, at) == Some(Unallocated)
  }

  /** The byte layer `l` holds by itself. */
  function OwnByte(codec: Codec, l: Layer, at: nat): Option<byte>
    requires l.OverlayLayer? ==> Plausible(l.geo)
    requires !DefersBelow(l, at)
  {
    if at >= LayerSize(l) then None
    else if l.RawLayer? then Some(l.bytes[at])
    else
      var m := MapCluster(l.host, l.geo, at);
      if m.None? then None else MappedByte(codec, l.host, l.geo, m.value, Rem(at, ClusterSize(l.geo)))
  }

  ghost predicate FirstToDecide(layers: seq<Layer>, at: nat, k: nat) {
    && k <= |layers|
    && (forall j :: 0 <= j < k ==> DefersBelow(layers[j], at))
    && (k < |layers| ==> !DefersBelow(layers[k], at))
  }

  /** The top of a chain, and the layers below it. */
  lemma TopLayer(img: Image)
    ensures Layers(img) != [] && LayerSize(Layers(img)[0]) == Size(img)
    ensures img.Raw? ==> Layers(img) == [RawLayer(img.bytes)]
    ensures img.Overlay? ==>
              && Layers(img)[0] == OverlayLayer(img.host, img.vsize, img.geo)
              && Layers(img)[1..] == if img.backing.Some? then Layers(img.backing.value) else []
  {
    if img.Overlay? {
      var rest := if img.backing.Some? then Layers(img.backing.value) else [];
      assert Layers(img) == [OverlayLayer(img.host, img.vsize, img.geo)] + rest;
    }
  }

  lemma DecidesByItself(codec: Codec, img: Image, at: nat)
    requires WellFormed(img) && at < Size(img)
    ensures Layers(img) != [] && (Layers(img)[0].OverlayLayer? ==> Plausible(Layers(img)[0].geo))
    ensures if DefersBelow(Layers(img)[0], at)
            then img.Overlay? && GuestByte(codec, img, at) == BackingByte(codec, img.backing, at)
            else GuestByte(codec, img, at) == OwnByte(codec, Layers(img)[0], at)
  {
    hide Quot, Rem, Pow2, MapCluster, MappedByte, Layers, ClusterSize;
    TopLayer(img);
  }

  /** A guest byte of a chain is that of the topmost image that allocates it; below the bottom,
      and past the end of a shorter lower image, it is zero whatever lies further down. */
  lemma {:induction false} TopmostAllocatingImageDecides(codec: Codec, img: Image, at: nat) returns (k: nat)
    requires WellFormed(img) && at < Size(img)
    ensures FirstToDecide(Layers(img), at, k)
    ensures k < |Layers(img)| && Layers(img)[k].OverlayLayer? ==> Plausible(Layers(img)[k].geo)
    ensures GuestByte(codec, img, at) ==
            if k == |Layers(img)| || at >= LayerSize(Layers(img)[k]) then Some(0)
            else OwnByte(codec, Layers(img)[k], at)
  {
    hide DefersBelow, GuestByte, OwnByte, Layers, LayerSize;
    k := 0;
    TopLayer(img);
    DecidesByItself(codec, img, at);
    if DefersBelow(Layers(img)[0], at) {
      k := 1;
      if img.backing.Some? {
        var below := img.backing.value;
        TopLayer(below);
        assert Layers(img)[1] == Layers(below)[0];
        if at < Size(below) {
          var j := TopmostAllocatingImageDecides(codec, below, at);
          k := j + 1;
          assert forall i :: 0 <= i < |Layers(below)| ==> Layers(img)[i + 1] == Layers(below)[i];
        } else {
          NotCovered(Layers(below)[0], at);
          PlausibleTop(below);
        }
      }
    }
  }

  lemma NotCovered(l: Layer, at: nat)
    requires at >= LayerSize(l)
    ensures !DefersBelow(l, at)
  {
    hide MapCluster;
  }

  lemma PlausibleTop(img: Image)
    requires WellFormed(img)
    ensures Layers(img)[0].OverlayLayer? ==> Plausible(Layers(img)[0].geo)
  {
  }
}
