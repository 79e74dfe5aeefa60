/** Opening an image together with the chain of backing files it names
    (src/disk/mod.rs, `Qcow2::open` in src/disk/qcow2.rs). */
module BackingChain {
  import opened Common
  import opened ClusterMap
  import opened GuestDisk

  /** A path or URL, as the bytes of its text. */
  type Locator = seq<byte>

  /** The readable files, by locator. */
  type Store = map<Locator, seq<byte>>

  const MAGIC: seq<byte> := [0x51, 0x46, 0x49, 0xfb]
  const MAX_BACKING_DEPTH: nat := 8
  const SLASH: byte := 0x2f

  datatype Header = Header(vsize: nat, geo: Geometry, backing: Option<Locator>)

  /** `host.read_at` on a file. */
  function ReadExact(host: seq<byte>, at: nat, n: nat): (r: Result<seq<byte>>)
    ensures r.Ok? ==> |r.value| == n
  {
    if n == 0 then Ok([])
    else if at + n <= |host| then Ok(host[at..at + n])
    else Err(Io)
  }

  function Field32(host: seq<byte>, at: nat): nat
    requires at + 4 <= |host|
  {
    Be32(host[at..at + 4])
  }

  function Field64(host: seq<byte>, at: nat): nat
    requires at + 8 <= |host|
  {
    Be64(host[at..at + 8])
  }

  predicate Bit(flags: nat, n: nat)
    requires n < 5
  {
    flags / [1, 2, 4, 8, 16][n] % 2 == 1
  }

  /** The incompatible-feature bits a reader has to refuse: all but the dirty bit. */
  function FeatureError(flags: nat): Option<Error> {
    if Bit(flags, 1) then Some(Error.InvalidQcow2)
    else if Bit(flags, 2) || Bit(flags, 3) || Bit(flags, 4) then Some(Qcow2Unsupported)
    else if flags / 2 != 0 then Some(Qcow2Unsupported)
    else None
  }

  function L1Table(raw: seq<byte>): (t: seq<nat>)
    requires |raw| % 8 == 0
    ensures |t| == |raw| / 8
  {
    seq(|raw| / 8, i requires 0 <= i < |raw| / 8 => Be64(raw[8 * i..8 * i + 8]))
  }

  /** The checks of `Qcow2::open` on the fixed header and the incompatible-feature flags. */
  function Refusal(hdr: seq<byte>, flags: nat): Option<Error>
    requires |hdr| == 72
  {
    if Field32(hdr, 32) != 0 then Some(Qcow2Unsupported)
    else if FeatureError(flags).Some? then FeatureError(flags)
    else if !(9 <= Field32(hdr, 20) <= 21) then Some(Error.InvalidQcow2)
    else None
  }

  function ReadFlags(host: seq<byte>, hdr: seq<byte>): Result<nat>
    requires |hdr| == 72
  {
    if Field32(hdr, 4) == 2 then Ok(0)
    else
      match ReadExact(host, 72, 8)
      case Err(e) => Err(e)
      case Ok(word) => Ok(Be64(word))
  }

  function ReadBackingName(host: seq<byte>, hdr: seq<byte>): Result<Option<Locator>>
    requires |hdr| == 72
  {
    var at, n := Field64(hdr, 8), Field32(hdr, 16);
    if at == 0 || n == 0 then Ok(None)
    else if n > 1023 then Err(Error.InvalidQcow2)
    else
      match ReadExact(host, at, n)
      case Ok(name) => Ok(Some(name))
      case Err(e) => Err(e)
  }

  function ReadL1(host: seq<byte>, hdr: seq<byte>): Result<seq<nat>>
    requires |hdr| == 72
  {
    match ReadExact(host, Field64(hdr, 40), Field32(hdr, 36) * 8)
    case Err(e) => Err(e)
    case Ok(raw) => Ok(L1Table(raw))
  }

  /** `Qcow2::open` on the host's bytes. */
  function ParseHeader(host: seq<byte>): (r: Result<Header>)
    ensures r.Ok? ==> Plausible(r.value.geo)
  {
    hide Be32, Be64, FeatureError;
    match ReadExact(host, 0, 72)
    case Err(e) => Err(e)
    case Ok(hdr) =>
      if hdr[..4] != MAGIC || (Field32(hdr, 4) != 2 && Field32(hdr, 4) != 3) then Err(Error.InvalidQcow2)
      else
        match ReadFlags(host, hdr)
        case Err(e) => Err(e)
        case Ok(flags) =>
          if Refusal(hdr, flags).Some? then Err(Refusal(hdr, flags).value)
          else
            match ReadBackingName(host, hdr)
            case Err(e) => Err(e)
            case Ok(name) =>
              match ReadL1(host, hdr)
              case Err(e) => Err(e)
              case Ok(l1) => Ok(Header(Field64(hdr, 24), Geometry(Field32(hdr, 20), l1), name))
  }

  /** What a file has to hold for its header to be accepted: version 2 or 3, no encryption, no feature
      flag but the dirty bit, a cluster size in range, and the backing name and L1 table inside the file. */
  predicate Acceptable(host: seq<byte>) {
    && |host| >= 72 && host[..4] == MAGIC
    && (Field32(host, 4) == 2 || (Field32(host, 4) == 3 && |host| >= 80 && Field64(host, 72) <= 1))
    && Field32(host, 32) == 0 && 9 <= Field32(host, 20) <= 21
    && (HasBackingName(host) ==> Field32(host, 16) <= 1023 && Field64(host, 8) + Field32(host, 16) <= |host|)
    && (Field32(host, 36) > 0 ==> Field64(host, 40) + Field32(host, 36) * 8 <= |host|)
  }

  predicate HasBackingName(host: seq<byte>)
    requires |host| >= 72
  {
    Field64(host, 8) != 0 && Field32(host, 16) != 0
  }

  lemma OnlyTheDirtyBit(flags: nat)
    ensures FeatureError(flags).None? <==> flags <= 1
  {
  }

  lemma FieldOfFirst(host: seq<byte>, at: nat)
    requires |host| >= 72
    ensures at + 4 <= 72 ==> Field32(host[..72], at) == Field32(host, at)
    ensures at + 8 <= 72 ==> Field64(host[..72], at) == Field64(host, at)
  {
    hide Be32, Be64;
    assert at + 4 <= 72 ==> host[..72][at..at + 4] == host[at..at + 4];
    assert at + 8 <= 72 ==> host[..72][at..at + 8] == host[at..at + 8];
  }

  /** A header is accepted exactly when the file is acceptable; it then carries the file's virtual
      size, cluster size and backing name, and its L1 table entry by entry. */
  lemma HeaderIsAcceptedIff(host: seq<byte>)
    ensures ParseHeader(host).Ok? <==> Acceptable(host)
    ensures Acceptable(host) ==>
              var h := ParseHeader(host).value; var at := Field64(host, 40);
              && h.vsize == Field64(host, 24) && h.geo.bits == Field32(host, 20)
              && |h.geo.l1| == Field32(host, 36)
              && (forall i :: 0 <= i < |h.geo.l1| ==> at + 8 * i + 8 <= |host| && h.geo.l1[i] == Field64(host, at + 8 * i))
              && h.backing == if HasBackingName(host) then Some(host[Field64(host, 8)..Field64(host, 8) + Field32(host, 16)]) else None
  {
    hide Field32, Field64, FeatureError, L1Table;
    if |host| >= 72 {
      FieldOfFirst(host, 4);
      FieldOfFirst(host, 8);
      FieldOfFirst(host, 16);
      FieldOfFirst(host, 20);
      FieldOfFirst(host, 24);
      FieldOfFirst(host, 32);
      FieldOfFirst(host, 36);
      FieldOfFirst(host, 40);
      assert host[..72][..4] == host[..4];
      FlagsAre(host);
      L1Is(host);
    }
  }

  lemma FlagsAre(host: seq<byte>)
    requires |host| >= 72
    ensures var flags := ReadFlags(host, host[..72]);
            Field32(host, 4) == 3 || Field32(host, 4) == 2 ==>
              (flags.Ok? && FeatureError(flags.value).None? <==>
               Field32(host, 4) == 2 || (|host| >= 80 && Field64(host, 72) <= 1))
  {
    hide Be32, Be64, FeatureError;
    FieldOfFirst(host, 4);
    OnlyTheDirtyBit(0);
    if |host| >= 80 {
      OnlyTheDirtyBit(Field64(host, 72));
    }
  }

  lemma L1Is(host: seq<byte>)
    requires |host| >= 72
    ensures var at, n := Field64(host, 40), Field32(host, 36); var l1 := ReadL1(host, host[..72]);
            && (l1.Ok? <==> (n > 0 ==> at + n * 8 <= |host|))
            && (l1.Ok? ==> |l1.value| == n)
            && (l1.Ok? ==> forall i :: 0 <= i < n ==> at + 8 * i + 8 <= |host| && l1.value[i] == Field64(host, at + 8 * i))
  {
    hide Be32, Be64;
    FieldOfFirst(host, 36);
    FieldOfFirst(host, 40);
    var at, n := Field64(host, 40), Field32(host, 36);
    if n > 0 && at + n * 8 <= |host| {
      forall i | 0 <= i < n
        ensures host[at..at + n * 8][8 * i..8 * i + 8] == host[at + 8 * i..at + 8 * i + 8]
      {
        SliceOfSlice(host, at, n * 8, 8 * i, 8);
      }
    }
  }

  predicate HasMagic(file: seq<byte>) {
    |file| >= 4 && file[..4] == MAGIC
  }

  // ---- Locators ----

  predicate IsUrl(l: Locator) {
    || [0x68, 0x74, 0x74, 0x70, 0x3a, 0x2f, 0x2f] <= l
    || [0x68, 0x74, 0x74, 0x70, 0x73, 0x3a, 0x2f, 0x2f] <= l
  }

  /** The text before the last slash, None without one. */
  function Directory(l: Locator): Option<Locator> {
    if l == [] then None
    else if l[|l| - 1] == SLASH then Some(l[..|l| - 1])
    else Directory(l[..|l| - 1])
  }

  /** `source::resolve_relative`. */
  function ResolveRelative(base: Locator, name: Locator): Locator {
    if IsUrl(name) || (name != [] && name[0] == SLASH && !IsUrl(base)) then name
    else
      match Directory(base)
      case Some(dir) => dir + [SLASH] + name
      case None => name
  }

  // ---- Opening ----

  /** `DiskImage::open_at_depth`. */
  function OpenAtDepth(store: Store, loc: Locator, depth: nat): (r: Result<Image>)
    requires depth <= MAX_BACKING_DEPTH + 1
    ensures r.Ok? ==> WellFormed(r.value) && depth + |Layers(r.value)| <= MAX_BACKING_DEPTH + 1
    decreases MAX_BACKING_DEPTH + 1 - depth
  {
    if depth > MAX_BACKING_DEPTH then Err(Error.InvalidQcow2)
    else if loc !in store then Err(Io)
    else if !HasMagic(store[loc]) then Ok(Raw(store[loc]))
    else
      match ParseHeader(store[loc])
      case Err(e) => Err(e)
      case Ok(h) =>
        if h.backing.None? then Ok(Overlay(store[loc], h.vsize, h.geo, None))
        else
          match OpenAtDepth(store, ResolveRelative(loc, h.backing.value), depth + 1)
          case Err(_) => Err(Error.InvalidQcow2)
          case Ok(below) => Ok(Overlay(store[loc], h.vsize, h.geo, Some(below)))
  }

  /** What one file says about the next: it cannot be opened, it ends the chain, or it names a backing file. */
  datatype Link = Broken | End | Next(to: Locator)

  function LinkOf(store: Store, loc: Locator): Link {
    if loc !in store then Broken
    else if !HasMagic(store[loc]) then End
    else
      match ParseHeader(store[loc])
      case Err(_) => Broken
      case Ok(h) => if h.backing.None? then End else Next(ResolveRelative(loc, h.backing.value))
  }

  /** The locator reached after `n` references. */
  function Follow(store: Store, loc: Locator, n: nat): Option<Locator>
    decreases n
  {
    if n == 0 then Some(loc)
    else
      match LinkOf(store, loc)
      case Next(to) => Follow(store, to, n - 1)
      case _ => None
  }

  predicate EndsAt(store: Store, loc: Locator, n: nat) {
    Follow(store, loc, n).Some? && LinkOf(store, Follow(store, loc, n).value) == End
  }

  lemma {:induction false} OpenExactly(store: Store, loc: Locator, depth: nat)
    requires depth <= MAX_BACKING_DEPTH + 1
    ensures OpenAtDepth(store, loc, depth).Ok? <==>
            exists n: nat :: depth + n <= MAX_BACKING_DEPTH && EndsAt(store, loc, n)
    decreases MAX_BACKING_DEPTH + 1 - depth
  {
    hide ParseHeader, ResolveRelative, HasMagic;
    if depth <= MAX_BACKING_DEPTH {
      match LinkOf(store, loc)
      case Broken =>
        assert forall n: nat :: !EndsAt(store, loc, n);
      case End =>
        assert EndsAt(store, loc, 0);
      case Next(to) =>
        OpenExactly(store, to, depth + 1);
        assert forall n: nat :: EndsAt(store, to, n) ==> EndsAt(store, loc, n + 1);
        assert forall n: nat :: EndsAt(store, loc, n) ==> n > 0 && EndsAt(store, to, n - 1);
    }
  }

  /** Opening succeeds exactly when following the references ends in an image without a backing
      file within the depth cap, every file on the way opening by itself. */
  lemma OpensIffChainEnds(store: Store, loc: Locator)
    ensures OpenAtDepth(store, loc, 0).Ok? <==> exists n: nat :: n <= MAX_BACKING_DEPTH && EndsAt(store, loc, n)
  {
    hide LinkOf, OpenAtDepth;
    OpenExactly(store, loc, 0);
  }

  lemma {:induction false} FollowCompose(store: Store, loc: Locator, a: nat, b: nat)
    ensures Follow(store, loc, a + b) ==
            if Follow(store, loc, a).Some? then Follow(store, Follow(store, loc, a).value, b) else None
    decreases a
  {
    hide LinkOf;
    if a > 0 {
      match LinkOf(store, loc)
      case Next(to) => FollowCompose(store, to, a - 1, b);
      case _ =>
    }
  }

  /** A chain that comes back to a file it has visited can never be opened. */
  lemma {:induction false} CyclesAreRefused(store: Store, loc: Locator, i: nat, j: nat)
    requires i < j && Follow(store, loc, i).Some? && Follow(store, loc, i) == Follow(store, loc, j)
    ensures OpenAtDepth(store, loc, 0).Err?
  {
    hide LinkOf, OpenAtDepth;
    OpensIffChainEnds(store, loc);
    if n: nat :| EndsAt(store, loc, n) {
      NeverEnds(store, loc, i, j, n);
    }
  }

  /** On a cycle every position has a successor: nothing at or after the first visit ends. */
  lemma {:induction false} NeverEnds(store: Store, loc: Locator, i: nat, j: nat, n: nat)
    requires i < j && Follow(store, loc, i).Some? && Follow(store, loc, i) == Follow(store, loc, j)
    ensures !EndsAt(store, loc, n)
  {
    hide LinkOf;
    if EndsAt(store, loc, n) {
      assert Follow(store, Follow(store, loc, n).value, 1).None?;
      FollowCompose(store, loc, n, 1);
      if n + 1 <= j {
        FollowCompose(store, loc, n + 1, j - (n + 1));
      } else {
        FollowCompose(store, loc, i, n - j);
        FollowCompose(store, loc, j, n - j);
        NeverEnds(store, loc, i, j, n - (j - i));
      }
    }
  }

  // ---- Where a backing name leads ----

  lemma {:induction false} DirectoryOf(dir: Locator, file: Locator)
    requires SLASH !in file
    ensures Directory(dir + [SLASH] + file) == Some(dir) && Directory(file) == None
  {
    var base := dir + [SLASH] + file;
    if file == [] {
      assert base[..|base| - 1] == dir;
    } else {
      var init := file[..|file| - 1];
      assert base[..|base| - 1] == dir + [SLASH] + init;
      assert file[|file| - 1] in file && SLASH !in init;
      DirectoryOf(dir, init);
    }
  }

  /** A name that is a URL, or absolute beside a local image, stands for itself; any other is looked
      for in the directory of the image that names it. */
  lemma ResolvedWhere(dir: Locator, file: Locator, name: Locator)
    requires SLASH !in file
    ensures var base := dir + [SLASH] + file;
            ResolveRelative(base, name) ==
            if IsUrl(name) || (name != [] && name[0] == SLASH && !IsUrl(base)) then name else dir + [SLASH] + name
    ensures !IsUrl(name) && !(name != [] && name[0] == SLASH && !IsUrl(file)) ==> ResolveRelative(file, name) == name
  {
    DirectoryOf(dir, file);
  }

  /** The schemes, spelled out. */
  lemma UrlIff(l: Locator)
    ensures IsUrl(l) <==> Text("http://") <= l || Text("https://") <= l
  {
    assert Text("http://") == [0x68, 0x74, 0x74, 0x70, 0x3a, 0x2f, 0x2f];
    assert Text("https://") == [0x68, 0x74, 0x74, 0x70, 0x73, 0x3a, 0x2f, 0x2f];
  }

  function Text(s: string): (b: seq<byte>)
    requires forall i :: 0 <= i < |s| ==> (s[i] as int) < 128
    ensures |b| == |s|
  {
    seq(|s|, i requires 0 <= i < |s| => s[i] as int)
  }
}
