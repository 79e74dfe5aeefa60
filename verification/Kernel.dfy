/** Recognising and unwrapping a `vmlinuz` (src/kernel.rs). The decompressors are external crates
    and appear as functions. */
module Kernel {
  import opened Common

  /** What a streaming decoder emits, and whether it then ends cleanly. */
  datatype Decoded = Decoded(out: seq<byte>, ok: bool)

  datatype Codecs = Codecs(
    gz: seq<byte> -> Decoded,
    zstd: seq<byte> -> Option<seq<byte>>,
    utf8: seq<byte> -> bool)

  /** More input never changes what a decoder has already emitted. */
  ghost predicate PrefixStable(c: Codecs) {
    forall x: seq<byte>, y: seq<byte> :: x <= y ==> c.gz(x).out <= c.gz(y).out
  }

  datatype Wrapper = Gzip | Zboot(codec: seq<byte>) | Uki

  const ARMD: seq<byte> := [0x41, 0x52, 0x4d, 0x64]
  const ZIMG: seq<byte> := [0x7a, 0x69, 0x6d, 0x67]
  const UNKNOWN: seq<byte> := [0x75, 0x6e, 0x6b, 0x6e, 0x6f, 0x77, 0x6e]
  const DOT_LINUX: seq<byte> := [0x2e, 0x6c, 0x69, 0x6e, 0x75, 0x78, 0, 0]
  const ZSTD_NAME: seq<byte> := [0x7a, 0x73, 0x74, 0x64]
  const GZIP_NAME: seq<byte> := [0x67, 0x7a, 0x69, 0x70]

  /** `data.get(at..at + n)`. */
  function Get(data: seq<byte>, at: nat, n: nat): (r: Option<seq<byte>>)
    ensures r.Some? <==> at + n <= |data|
    ensures r.Some? ==> |r.value| == n
  {
    if at + n <= |data| then Some(data[at..at + n]) else None
  }

  function U16At(data: seq<byte>, at: nat): Option<nat> {
    match Get(data, at, 2)
    case None => None
    case Some(b) =>
      var lo: int, hi: int := b[0], b[1];
      Some(hi * 256 + lo)
  }

  function U32At(data: seq<byte>, at: nat): Option<nat> {
    match Get(data, at, 4)
    case None => None
    case Some(b) => Some(Le32(b))
  }

  predicate IsArm64(data: seq<byte>) {
    Get(data, 56, 4) == Some(ARMD)
  }

  predicate IsZboot(data: seq<byte>) {
    Get(data, 4, 4) == Some(ZIMG)
  }

  predicate IsGzip(data: seq<byte>) {
    [0x1f, 0x8b] <= data
  }

  function UntilZero(raw: seq<byte>): (n: nat)
    ensures n <= |raw|
  {
    if raw == [] || raw[0] == 0 then 0 else 1 + UntilZero(raw[1..])
  }

  /** The codec name in a zboot header, or "unknown". */
  function ZbootName(c: Codecs, data: seq<byte>): seq<byte> {
    match Get(data, 24, 32)
    case None => UNKNOWN
    case Some(raw) =>
      var name := raw[..UntilZero(raw)];
      if c.utf8(name) && name != [] then name else UNKNOWN
  }

  /** Whether a gzip member starts with an arm64 Image; only 60 bytes are inflated. */
  predicate GunzipsToArm64(c: Codecs, data: seq<byte>) {
    var out := c.gz(data).out;
    |out| >= 60 && IsArm64(out[..60])
  }

  /** The section search from header `i` on. */
  function FindLinux(data: seq<byte>, table: nat, sections: nat, i: nat): Option<(nat, nat)>
    decreases sections - i
  {
    if i >= sections then None
    else
      var header := table + i * 40;
      match Get(data, header, 8)
      case None => None
      case Some(name) =>
        if name != DOT_LINUX then FindLinux(data, table, sections, i + 1)
        else
          match (U32At(data, header + 16), U32At(data, header + 20))
          case (Some(size), Some(ptr)) => Some((ptr, size))
          case _ => None
  }

  /** `pe_linux_section`. */
  function LinuxSection(data: seq<byte>): Option<(nat, nat)> {
    if Get(data, 0, 2) != Some([0x4d, 0x5a]) then None
    else
      match U32At(data, 0x3c)
      case None => None
      case Some(pe) =>
        if Get(data, pe, 4) != Some([0x50, 0x45, 0, 0]) then None
        else
          match (U16At(data, pe + 4 + 2), U16At(data, pe + 4 + 16))
          case (Some(sections), Some(opt)) => FindLinux(data, pe + 4 + 20 + opt, sections, 0)
          case _ => None
  }

  /** `compression`. */
  function Compression(c: Codecs, data: seq<byte>): Option<Wrapper> {
    if IsArm64(data) then None
    else if IsZboot(data) then Some(Zboot(ZbootName(c, data)))
    else if IsGzip(data) && GunzipsToArm64(c, data) then Some(Gzip)
    else if LinuxSection(data).Some? then Some(Uki)
    else None
  }

  function Gunzip(c: Codecs, data: seq<byte>): Result<seq<byte>> {
    if c.gz(data).ok then Ok(c.gz(data).out) else Err(KernelDecompress)
  }

  /** `unzboot`. */
  function Unzboot(c: Codecs, data: seq<byte>, codec: seq<byte>): Result<seq<byte>> {
    match (U32At(data, 8), U32At(data, 12))
    case (Some(off), Some(size)) =>
      (match Get(data, off, size)
       case None => Err(KernelDecompress)
       case Some(payload) =>
         if GZIP_NAME <= codec then Gunzip(c, payload)
         else if ZSTD_NAME <= codec then
           (match c.zstd(payload)
            case Some(out) => Ok(out)
            case None => Err(KernelDecompress))
         else Err(KernelDecompress))
    case _ => Err(KernelDecompress)
  }

  const MAX_DEPTH: nat := 3

  /** The `.linux` section's bytes. */
  function UkiKernel(data: seq<byte>): Option<seq<byte>> {
    match LinuxSection(data)
    case None => None
    case Some((off, size)) => Get(data, off, size)
  }

  /** `to_bootable_inner`. */
  function ToBootableAt(c: Codecs, data: seq<byte>, depth: nat): Result<seq<byte>>
    decreases MAX_DEPTH - depth
  {
    if depth >= MAX_DEPTH then Err(KernelDecompress)
    else
      match Compression(c, data)
      case None => Ok(data)
      case Some(Gzip) => Gunzip(c, data)
      case Some(Zboot(codec)) => Unzboot(c, data, codec)
      case Some(Uki) =>
        match UkiKernel(data)
        case None => Err(KernelDecompress)
        case Some(inner) => ToBootableAt(c, inner, depth + 1)
  }

  function ToBootable(c: Codecs, data: seq<byte>): Result<seq<byte>> {
    ToBootableAt(c, data, 0)
  }

  // ---- Sniffing a prefix ----

  lemma GetOfPrefix(head: seq<byte>, data: seq<byte>, at: nat, n: nat)
    requires head <= data && at + n <= |head|
    ensures Get(head, at, n) == Get(data, at, n)
  {
    assert head[at..at + n] == data[at..at + n];
  }

  lemma {:induction false} FindOfPrefix(head: seq<byte>, data: seq<byte>, table: nat, sections: nat, i: nat)
    requires head <= data && FindLinux(head, table, sections, i).Some?
    ensures FindLinux(data, table, sections, i) == FindLinux(head, table, sections, i)
    decreases sections - i
  {
    var header := table + i * 40;
    GetOfPrefix(head, data, header, 8);
    if Get(head, header, 8).value == DOT_LINUX {
      GetOfPrefix(head, data, header + 16, 4);
      GetOfPrefix(head, data, header + 20, 4);
    } else {
      FindOfPrefix(head, data, table, sections, i + 1);
    }
  }

  /** A `.linux` section seen in a prefix is where it is in the whole file. */
  lemma SectionOfPrefix(head: seq<byte>, data: seq<byte>)
    requires head <= data && LinuxSection(head).Some?
    ensures LinuxSection(data) == LinuxSection(head)
  {
    hide FindLinux;
    GetOfPrefix(head, data, 0, 2);
    GetOfPrefix(head, data, 0x3c, 4);
    var pe := U32At(head, 0x3c).value;
    GetOfPrefix(head, data, pe, 4);
    GetOfPrefix(head, data, pe + 6, 2);
    GetOfPrefix(head, data, pe + 20, 2);
    FindOfPrefix(head, data, pe + 24 + U16At(head, pe + 20).value, U16At(head, pe + 6).value, 0);
  }

  /** A wrapper recognised on a prefix of at least 60 bytes is the wrapper of the whole file, with
      the kernel section in the same place; a prefix that is a raw Image starts a raw Image. */
  lemma SniffIsStable(c: Codecs, head: seq<byte>, data: seq<byte>)
    requires PrefixStable(c) && head <= data && |head| >= 60
    ensures Compression(c, head).Some? ==> Compression(c, data) == Compression(c, head)
    ensures Compression(c, head) == Some(Uki) ==> LinuxSection(data) == LinuxSection(head)
    ensures IsArm64(head) ==> Compression(c, data) == None
  {
    hide LinuxSection, UntilZero;
    GetOfPrefix(head, data, 56, 4);
    GetOfPrefix(head, data, 4, 4);
    GetOfPrefix(head, data, 24, 32);
    GetOfPrefix(head, data, 0, 2);
    if LinuxSection(head).Some? {
      SectionOfPrefix(head, data);
      SectionHasMz(head);
    }
    if GunzipsToArm64(c, head) {
      assert c.gz(head).out[..60] == c.gz(data).out[..60];
    }
  }

  lemma SectionHasMz(data: seq<byte>)
    requires LinuxSection(data).Some?
    ensures data[0] == 0x4d && !IsGzip(data)
  {
    assert data[0] == data[0..2][0];
  }

  /** On fewer than 60 bytes a raw Image can pass for a zboot kernel. */
  lemma ShortSniffMisleads(c: Codecs) returns (head: seq<byte>, data: seq<byte>)
    ensures head <= data && |head| == 59
    ensures Compression(c, head).Some? && Compression(c, data) == None
  {
    data := Zeros(4) + ZIMG + Zeros(48) + ARMD;
    head := data[..59];
    assert data[56..60] == ARMD && head[4..8] == ZIMG;
  }

  // ---- Unwrapping ----

  /** The file below `k` UKI layers. */
  function Peel(c: Codecs, data: seq<byte>, k: nat): Option<seq<byte>>
    decreases k
  {
    if k == 0 then Some(data)
    else if Compression(c, data) != Some(Uki) || UkiKernel(data).None? then None
    else Peel(c, UkiKernel(data).value, k - 1)
  }

  /** One layer that is not a UKI. */
  function Open(c: Codecs, data: seq<byte>): Result<seq<byte>> {
    match Compression(c, data)
    case Some(Gzip) => Gunzip(c, data)
    case Some(Zboot(codec)) => Unzboot(c, data, codec)
    case _ => Ok(data)
  }

  /** Below `k` UKI layers lies something else, and opening that gives `r`. */
  ghost predicate Unwraps(c: Codecs, data: seq<byte>, k: nat, r: seq<byte>) {
    && Peel(c, data, k).Some?
    && Compression(c, Peel(c, data, k).value) != Some(Uki)
    && Open(c, Peel(c, data, k).value) == Ok(r)
  }

  lemma {:induction false} UnwrapsWithin(c: Codecs, data: seq<byte>, depth: nat, r: seq<byte>)
    requires depth <= MAX_DEPTH
    ensures ToBootableAt(c, data, depth) == Ok(r) <==> exists k: nat :: depth + k < MAX_DEPTH && Unwraps(c, data, k, r)
    decreases MAX_DEPTH - depth
  {
    hide Compression, UkiKernel, Gunzip, Unzboot;
    if depth < MAX_DEPTH {
      if Compression(c, data) != Some(Uki) {
        assert forall k: nat :: Unwraps(c, data, k, r) ==> k == 0;
        assert Unwraps(c, data, 0, r) <==> Open(c, data) == Ok(r);
        assert ToBootableAt(c, data, depth) == Open(c, data);
        assert depth + 0 < MAX_DEPTH;
      } else if UkiKernel(data).Some? {
        var inner := UkiKernel(data).value;
        UnwrapsWithin(c, inner, depth + 1, r);
        assert forall k: nat :: Unwraps(c, data, k, r) ==> k > 0 && Unwraps(c, inner, k - 1, r);
        assert forall k: nat :: Unwraps(c, inner, k, r) ==> Unwraps(c, data, k + 1, r);
      }
    }
  }

  /** Unwrapping succeeds with `r` exactly when fewer than three UKI layers enclose a file that opens to `r`. */
  lemma ToBootableExactly(c: Codecs, data: seq<byte>, r: seq<byte>)
    ensures ToBootable(c, data) == Ok(r) <==> exists k: nat :: k < MAX_DEPTH && Unwraps(c, data, k, r)
  {
    hide Unwraps, ToBootableAt;
    UnwrapsWithin(c, data, 0, r);
  }

  /** The compressed kernel inside a zboot file, if it lies inside the file. */
  function ZbootPayload(data: seq<byte>): Option<seq<byte>> {
    match (U32At(data, 8), U32At(data, 12))
    case (Some(off), Some(size)) => Get(data, off, size)
    case _ => None
  }

  /** A zboot kernel cannot be opened: its payload lies outside the file or is corrupt, or its codec
      is neither gzip nor zstd. */
  predicate BadZboot(c: Codecs, data: seq<byte>, codec: seq<byte>) {
    || ZbootPayload(data).None?
    || (GZIP_NAME <= codec && !c.gz(ZbootPayload(data).value).ok)
    || (!(GZIP_NAME <= codec) && ZSTD_NAME <= codec && c.zstd(ZbootPayload(data).value).None?)
    || (!(GZIP_NAME <= codec) && !(ZSTD_NAME <= codec))
  }

  /** A layer that cannot be opened: a UKI whose kernel section lies outside the file, a gzip stream
      that does not end cleanly, or a bad zboot kernel. */
  predicate Bad(c: Codecs, data: seq<byte>) {
    match Compression(c, data)
    case None => false
    case Some(Uki) => UkiKernel(data).None?
    case Some(Gzip) => !c.gz(data).ok
    case Some(Zboot(codec)) => BadZboot(c, data, codec)
  }

  ghost predicate BadLayer(c: Codecs, data: seq<byte>, k: nat) {
    Peel(c, data, k).Some? && Bad(c, Peel(c, data, k).value)
  }

  lemma UnzbootFailsIff(c: Codecs, data: seq<byte>, codec: seq<byte>)
    ensures Unzboot(c, data, codec).Err? <==> BadZboot(c, data, codec)
  {
    hide Get, Le32;
  }

  lemma {:induction false} FailsWithin(c: Codecs, data: seq<byte>, depth: nat)
    requires depth <= MAX_DEPTH
    ensures ToBootableAt(c, data, depth).Err? <==>
            Peel(c, data, MAX_DEPTH - depth).Some? || exists k: nat :: depth + k < MAX_DEPTH && BadLayer(c, data, k)
    decreases MAX_DEPTH - depth
  {
    hide Compression, UkiKernel, Unzboot, BadZboot;
    if depth < MAX_DEPTH {
      var wrapper := Compression(c, data);
      assert BadLayer(c, data, 0) <==> Bad(c, data);
      if wrapper != Some(Uki) {
        assert forall k: nat :: BadLayer(c, data, k) ==> k == 0;
        assert depth + 0 < MAX_DEPTH;
        if wrapper.Some? && wrapper.value.Zboot? {
          UnzbootFailsIff(c, data, wrapper.value.codec);
        }
      } else if UkiKernel(data).Some? {
        var inner := UkiKernel(data).value;
        FailsWithin(c, inner, depth + 1);
        assert forall k: nat :: BadLayer(c, data, k) ==> k > 0 && BadLayer(c, inner, k - 1);
        assert forall k: nat :: BadLayer(c, inner, k) ==> BadLayer(c, data, k + 1);
      } else {
        assert depth + 0 < MAX_DEPTH;
      }
    }
  }

  /** Unwrapping fails exactly when three UKI layers are nested, or one of the first three layers cannot be opened. */
  lemma ToBootableFailsIff(c: Codecs, data: seq<byte>)
    ensures ToBootable(c, data).Err? <==>
            Peel(c, data, MAX_DEPTH).Some? || exists k: nat :: k < MAX_DEPTH && BadLayer(c, data, k)
  {
    hide ToBootableAt, BadLayer, Peel;
    FailsWithin(c, data, 0);
  }

  /** A result reached without a zboot layer needs no more unwrapping, and after a gzip layer it is
      a raw Image. */
  lemma ResultIsFinal(c: Codecs, data: seq<byte>, k: nat, r: seq<byte>)
    requires Unwraps(c, data, k, r)
    requires var last := Compression(c, Peel(c, data, k).value); last.Some? ==> !last.value.Zboot?
    ensures Compression(c, r) == None && ToBootable(c, r) == Ok(r)
    ensures Compression(c, Peel(c, data, k).value) == Some(Gzip) ==> IsArm64(r)
  {
    hide LinuxSection;
    var inner := Peel(c, data, k).value;
    if Compression(c, inner) == Some(Gzip) {
      assert r[56..60] == r[..60][56..60];
    }
  }

  /** What the payload of a zboot kernel decodes to. */
  function Payload(c: Codecs, data: seq<byte>): Option<seq<byte>> {
    match Compression(c, data)
    case Some(Zboot(codec)) =>
      var out := Unzboot(c, data, codec);
      if out.Ok? then Some(out.value) else None
    case _ => None
  }

  /** A zboot kernel holds an arm64 Image: its gzip payload starts one when inflated, or its zstd
      payload decodes to one. */
  predicate HoldsImage(c: Codecs, data: seq<byte>) {
    && IsZboot(data) && ZbootPayload(data).Some?
    && var payload := ZbootPayload(data).value;
       if GZIP_NAME <= ZbootName(c, data) then GunzipsToArm64(c, payload)
       else c.zstd(payload).Some? && IsArm64(c.zstd(payload).value)
  }

  lemma HoldsImageIff(c: Codecs, data: seq<byte>)
    requires Payload(c, data).Some?
    ensures IsArm64(Payload(c, data).value) <==> HoldsImage(c, data)
  {
    hide Le32, ZbootName, LinuxSection;
    var name := ZbootName(c, data);
    var payload := ZbootPayload(data).value;
    if GZIP_NAME <= name {
      var out := c.gz(payload).out;
      assert |out| >= 60 ==> out[56..60] == out[..60][56..60];
    }
  }

  /** The result is a raw Image exactly when the file below the UKI layers is one, is recognised as
      gzip of one, or is a zboot kernel that holds one. */
  lemma ResultIsRawIff(c: Codecs, data: seq<byte>, k: nat, r: seq<byte>)
    requires Unwraps(c, data, k, r)
    ensures var inner := Peel(c, data, k).value;
            IsArm64(r) <==>
              || IsArm64(inner)
              || (!IsZboot(inner) && IsGzip(inner) && GunzipsToArm64(c, inner))
              || HoldsImage(c, inner)
  {
    hide LinuxSection, ZbootName, HoldsImage;
    var inner := Peel(c, data, k).value;
    if Payload(c, inner).Some? {
      HoldsImageIff(c, inner);
    } else {
      OnlyZbootHolds(c, inner, r);
    }
    if Compression(c, inner) == Some(Gzip) {
      ResultIsFinal(c, data, k, r);
    }
  }

  lemma OnlyZbootHolds(c: Codecs, inner: seq<byte>, r: seq<byte>)
    requires Payload(c, inner).None? && Open(c, inner) == Ok(r)
    ensures HoldsImage(c, inner) ==> IsArm64(inner)
  {
    hide LinuxSection, ZbootName, GunzipsToArm64;
  }

  /** The result needs no more unwrapping exactly when the file below the UKI layers is not a zboot
      kernel, or the payload of that kernel decodes to something that is not wrapped. */
  lemma ResultIsUnwrappedIff(c: Codecs, data: seq<byte>, k: nat, r: seq<byte>)
    requires Unwraps(c, data, k, r)
    ensures var inner := Peel(c, data, k).value;
            Compression(c, r) == None <==>
              Payload(c, inner).None? || Compression(c, Payload(c, inner).value) == None
  {
    hide LinuxSection, ZbootName;
    var inner := Peel(c, data, k).value;
    var last := Compression(c, inner);
    if last.None? || !last.value.Zboot? {
      ResultIsFinal(c, data, k, r);
    }
  }

  /** A kernel that is not wrapped comes out of a UKI as it is, whatever it is. */
  lemma UkiYieldsItsKernel(c: Codecs, data: seq<byte>)
    requires Compression(c, data) == Some(Uki) && UkiKernel(data).Some? && Compression(c, UkiKernel(data).value) == None
    ensures ToBootable(c, data) == Ok(UkiKernel(data).value)
  {
    hide Compression, UkiKernel;
    assert ToBootableAt(c, UkiKernel(data).value, 1) == Ok(UkiKernel(data).value);
  }

  /** A PE file whose one section, `.linux`, is empty. */
  const EMPTY_UKI: seq<byte> :=
    [0x4d, 0x5a] + Zeros(58) + [64, 0, 0, 0] + [0x50, 0x45, 0, 0, 0, 0, 1, 0] + Zeros(16) + DOT_LINUX + Zeros(16)

  lemma EmptyUkiSection()
    ensures LinuxSection(EMPTY_UKI) == Some((0, 0))
  {
    hide FindLinux, Le32;
    var data := EMPTY_UKI;
    assert data[0..2] == [0x4d, 0x5a] && data[60..64] == [64, 0, 0, 0];
    assert Le32([64, 0, 0, 0]) == 64 by { SmallLe32(64); }
    assert data[64..68] == [0x50, 0x45, 0, 0] && data[70..72] == [1, 0] && data[84..86] == [0, 0];
    EmptyUkiHeader(data);
  }

  lemma SmallLe32(n: byte)
    ensures Le32([n, 0, 0, 0]) == n
  {
  }

  lemma EmptyUkiHeader(data: seq<byte>)
    requires data == EMPTY_UKI
    ensures FindLinux(data, 88, 1, 0) == Some((0, 0))
  {
    assert data[88..96] == DOT_LINUX && data[104..108] == [0, 0, 0, 0] && data[108..112] == [0, 0, 0, 0];
    SmallLe32(0);
  }

  /** A UKI around something other than an arm64 kernel (here: around nothing) unwraps to what is no raw Image. */
  lemma UkiResultMayNotBeRaw(c: Codecs)
    ensures Compression(c, EMPTY_UKI) == Some(Uki) && ToBootable(c, EMPTY_UKI) == Ok([]) && !IsArm64([])
  {
    hide LinuxSection;
    EmptyUkiSection();
    SectionHasMz(EMPTY_UKI);
    assert EMPTY_UKI[56..60] == Zeros(4) && EMPTY_UKI[4..8] == Zeros(4) && Zeros(4)[0] == 0;
    assert Compression(c, EMPTY_UKI) == Some(Uki);
    assert UkiKernel(EMPTY_UKI) == Some(EMPTY_UKI[0..0]) && EMPTY_UKI[0..0] == [];
    NothingIsNotWrapped(c);
    UkiYieldsItsKernel(c, EMPTY_UKI);
  }

  lemma NothingIsNotWrapped(c: Codecs)
    ensures Compression(c, []) == None
  {
  }

  /** A zboot payload is not unwrapped again: here its zstd payload is a gzipped Image, which is
      what comes out, although unwrapping that would still change it. */
  lemma ZbootResultMayNeedMore() returns (c: Codecs, data: seq<byte>, r: seq<byte>)
    ensures ToBootable(c, data) == Ok(r) && ToBootable(c, r).Ok? && ToBootable(c, r) != Ok(r)
  {
    var image: seq<byte> := Zeros(56) + ARMD;
    var packed: seq<byte> := [0x1f, 0x8b];
    c := Codecs((x: seq<byte>) => Decoded(image, true), (x: seq<byte>) => Some(packed), (x: seq<byte>) => true);
    data := Zeros(4) + ZIMG + Zeros(16) + ZSTD_NAME + Zeros(36);
    r := packed;
    assert data[4..8] == ZIMG && data[8..12] == Zeros(4) && data[12..16] == Zeros(4) && data[56..60] == Zeros(4);
    assert Le32(Zeros(4)) == 0;
    var raw := data[24..56];
    assert raw == ZSTD_NAME + Zeros(28);
    NameEnds(raw);
    assert raw[..4] == ZSTD_NAME;
    assert Compression(c, data) == Some(Zboot(ZSTD_NAME));
    assert !(GZIP_NAME <= ZSTD_NAME);
    assert Unzboot(c, data, ZSTD_NAME) == Ok(packed);
    assert image[..60] == image && image[56..60] == ARMD;
    assert Compression(c, packed) == Some(Gzip);
    assert ToBootable(c, r) == Ok(image);
  }

  lemma NameEnds(raw: seq<byte>)
    requires |raw| > 4 && raw[0] != 0 && raw[1] != 0 && raw[2] != 0 && raw[3] != 0 && raw[4] == 0
    ensures UntilZero(raw) == 4
  {
    assert raw[1..][1..] == raw[2..] && raw[2..][1..] == raw[3..] && raw[3..][1..] == raw[4..];
    assert UntilZero(raw[4..]) == 0;
    assert UntilZero(raw[3..]) == 1;
    assert UntilZero(raw[2..]) == 2;
  }

  // ---- Files as they are written ----

  lemma {:induction false} FirstLinuxHeader(data: seq<byte>, table: nat, sections: nat, i: nat, k: nat)
    requires i <= k < sections && table + k * 40 + 24 <= |data|
    requires forall j :: i <= j < k ==> Get(data, table + j * 40, 8) != Some(DOT_LINUX)
    requires data[table + k * 40..table + k * 40 + 8] == DOT_LINUX
    ensures var at := table + k * 40;
            FindLinux(data, table, sections, i) == Some((Le32(data[at + 20..at + 24]), Le32(data[at + 16..at + 20])))
    decreases k - i
  {
    if i < k {
      assert table + i * 40 + 8 <= |data|;
      FirstLinuxHeader(data, table, sections, i + 1, k);
    }
  }

  /** A PE file with one section, `.linux`, that lies `gap` bytes behind the headers. */
  function WriteUki(stub: seq<byte>, gap: seq<byte>, kernel: seq<byte>, tail: seq<byte>): seq<byte>
    requires |stub| == 58
  {
    [0x4d, 0x5a] + stub + ToLe(64, 4) + (UkiHeaders(112 + |gap|, |kernel|) + gap + kernel + tail)
  }

  /** The PE header at 64 and the section header at 88, with the kernel's size and place. */
  function UkiHeaders(ptr: nat, size: nat): (h: seq<byte>)
    ensures |h| == 48
  {
    [0x50, 0x45, 0, 0] + ([0, 0] + [1, 0]) + Zeros(12) + ([0, 0] + [0, 0]) + DOT_LINUX + Zeros(8) + ToLe(size, 4) + ToLe(ptr, 4)
  }

  lemma UkiHeaderFields(ptr: nat, size: nat)
    ensures var h := UkiHeaders(ptr, size);
            && h[0..4] == [0x50, 0x45, 0, 0] && h[6..8] == [1, 0] && h[20..22] == [0, 0]
            && h[24..32] == DOT_LINUX && h[40..44] == ToLe(size, 4) && h[44..48] == ToLe(ptr, 4)
  {
    hide ToLe;
    var front: seq<byte> := [0x50, 0x45, 0, 0] + ([0, 0] + [1, 0]) + Zeros(12) + ([0, 0] + [0, 0]);
    var h, place := UkiHeaders(ptr, size), ToLe(size, 4) + ToLe(ptr, 4);
    assert |front| == 24 && front[0..4] == [0x50, 0x45, 0, 0] && front[6..8] == [1, 0] && front[20..22] == [0, 0];
    assert h == front + DOT_LINUX + Zeros(8) + place;
    assert h[40..48] == place && place[0..4] == ToLe(size, 4) && place[4..8] == ToLe(ptr, 4);
    InFile(h, 0, front, 0, 4);
    InFile(h, 0, front, 6, 8);
    InFile(h, 0, front, 20, 22);
    InFile(h, 40, place, 0, 4);
    InFile(h, 40, place, 4, 8);
  }

  /** A part of the headers as the whole file has it. */
  lemma InFile(data: seq<byte>, at: nat, part: seq<byte>, lo: nat, hi: nat)
    requires lo <= hi <= |part| && at + |part| <= |data| && data[at..at + |part|] == part
    ensures data[at + lo..at + hi] == part[lo..hi]
  {
    SliceOfSlice(data, at, |part|, lo, hi - lo);
  }

  lemma UkiFileParts(stub: seq<byte>, gap: seq<byte>, kernel: seq<byte>, tail: seq<byte>)
    requires |stub| == 58
    ensures var data := WriteUki(stub, gap, kernel, tail); var n := 112 + |gap|;
            && |data| == n + |kernel| + |tail|
            && data[0..2] == [0x4d, 0x5a] && data[60..64] == ToLe(64, 4)
            && data[64..112] == UkiHeaders(n, |kernel|) && data[n..n + |kernel|] == kernel
  {
    hide ToLe, UkiHeaders;
  }

  /** Whatever kernel is put into a UKI, behind whatever gap, is the one that is found in it. */
  lemma WrittenUkiHoldsKernel(stub: seq<byte>, gap: seq<byte>, kernel: seq<byte>, tail: seq<byte>)
    requires |stub| == 58 && 112 + |gap| < 0x1_0000_0000 && |kernel| < 0x1_0000_0000
    ensures var data := WriteUki(stub, gap, kernel, tail);
            LinuxSection(data) == Some((112 + |gap|, |kernel|)) && UkiKernel(data) == Some(kernel)
  {
    hide WriteUki, UkiHeaders, ToLe, Le32, FindLinux;
    var data, h := WriteUki(stub, gap, kernel, tail), UkiHeaders(112 + |gap|, |kernel|);
    UkiFileParts(stub, gap, kernel, tail);
    UkiHeaderFields(112 + |gap|, |kernel|);
    InFile(data, 64, h, 0, 4);
    InFile(data, 64, h, 6, 8);
    InFile(data, 64, h, 20, 22);
    InFile(data, 64, h, 24, 32);
    InFile(data, 64, h, 40, 44);
    InFile(data, 64, h, 44, 48);
    Reads32(64);
    Reads32(112 + |gap|);
    Reads32(|kernel|);
    FirstLinuxHeader(data, 88, 1, 0, 0);
  }

  /** Unwrapping a written UKI goes on with exactly the bytes that were put in. */
  lemma WrittenUkiUnwraps(c: Codecs, stub: seq<byte>, gap: seq<byte>, kernel: seq<byte>, tail: seq<byte>)
    requires |stub| == 58 && 112 + |gap| < 0x1_0000_0000 && |kernel| < 0x1_0000_0000
    requires var data := WriteUki(stub, gap, kernel, tail); !IsArm64(data) && !IsZboot(data)
    ensures Compression(c, WriteUki(stub, gap, kernel, tail)) == Some(Uki)
    ensures Compression(c, kernel) == None ==> ToBootable(c, WriteUki(stub, gap, kernel, tail)) == Ok(kernel)
    ensures Compression(c, kernel) == Some(Gzip) && c.gz(kernel).ok ==>
              ToBootable(c, WriteUki(stub, gap, kernel, tail)) == Ok(c.gz(kernel).out)
  {
    hide WriteUki, LinuxSection, GunzipsToArm64, ZbootName, IsArm64, IsZboot;
    var data := WriteUki(stub, gap, kernel, tail);
    WrittenUkiHoldsKernel(stub, gap, kernel, tail);
    SectionHasMz(data);
    assert Compression(c, data) == Some(Uki);
    assert ToBootable(c, data) == ToBootableAt(c, kernel, 1);
  }

  /** A zboot file: the payload's place and size, the codec's name, and the payload `gap` bytes behind the header. */
  function WriteZboot(head: seq<byte>, mid: seq<byte>, name: seq<byte>, gap: seq<byte>, payload: seq<byte>, tail: seq<byte>): seq<byte>
    requires |head| == 4 && |mid| == 8 && |name| <= 32
  {
    head + ZIMG + ToLe(56 + |gap|, 4) + ToLe(|payload|, 4) + mid + (name + Zeros(32 - |name|)) + (gap + payload + tail)
  }

  lemma {:induction false} NameUntilZero(name: seq<byte>, zeros: seq<byte>)
    requires 0 !in name && (zeros != [] ==> zeros[0] == 0)
    ensures UntilZero(name + zeros) == |name|
  {
    if name == [] {
      assert name + zeros == zeros;
    } else {
      assert (name + zeros)[1..] == name[1..] + zeros;
      NameUntilZero(name[1..], zeros);
    }
  }

  lemma ZbootFileParts(head: seq<byte>, mid: seq<byte>, name: seq<byte>, gap: seq<byte>, payload: seq<byte>, tail: seq<byte>)
    requires |head| == 4 && |mid| == 8 && |name| <= 32
    ensures var data := WriteZboot(head, mid, name, gap, payload, tail); var n := 56 + |gap|;
            && |data| == n + |payload| + |tail|
            && data[4..8] == ZIMG && data[8..12] == ToLe(n, 4) && data[12..16] == ToLe(|payload|, 4)
            && data[24..56] == name + Zeros(32 - |name|) && data[n..n + |payload|] == payload
  {
    hide ToLe;
  }

  /** Whatever payload is put into a zboot file is the one that is decoded, by the codec it names. */
  lemma WrittenZbootUnwraps(c: Codecs, head: seq<byte>, mid: seq<byte>, name: seq<byte>, gap: seq<byte>, payload: seq<byte>, tail: seq<byte>)
    requires |head| == 4 && |mid| == 8 && 0 < |name| <= 32 && 0 !in name && c.utf8(name)
    requires 56 + |gap| < 0x1_0000_0000 && |payload| < 0x1_0000_0000
    requires !IsArm64(WriteZboot(head, mid, name, gap, payload, tail))
    ensures var data := WriteZboot(head, mid, name, gap, payload, tail);
            && Compression(c, data) == Some(Zboot(name)) && ZbootPayload(data) == Some(payload)
            && ToBootable(c, data) ==
               if GZIP_NAME <= name then Gunzip(c, payload)
               else if ZSTD_NAME <= name && c.zstd(payload).Some? then Ok(c.zstd(payload).value)
               else Err(KernelDecompress)
  {
    hide WriteZboot, ToLe, Le32, UntilZero, LinuxSection, IsArm64;
    var data := WriteZboot(head, mid, name, gap, payload, tail);
    ZbootFileParts(head, mid, name, gap, payload, tail);
    Reads32(56 + |gap|);
    Reads32(|payload|);
    NameUntilZero(name, Zeros(32 - |name|));
    assert (name + Zeros(32 - |name|))[..|name|] == name;
    assert ZbootName(c, data) == name;
  }

  /** A gzip stream that starts an arm64 Image when inflated is replaced by what it inflates to. */
  lemma GzipUnwraps(c: Codecs, data: seq<byte>)
    requires |data| >= 2 && data[0] == 0x1f && data[1] == 0x8b && !IsArm64(data) && !IsZboot(data)
    requires |c.gz(data).out| >= 60 && c.gz(data).out[56..60] == ARMD && c.gz(data).ok
    ensures Compression(c, data) == Some(Gzip) && ToBootable(c, data) == Ok(c.gz(data).out)
  {
    hide LinuxSection;
    assert c.gz(data).out[..60][56..60] == c.gz(data).out[56..60];
  }

  function Ascii(s: string): (b: seq<byte>)
    requires forall i :: 0 <= i < |s| ==> (s[i] as int) < 128
    ensures |b| == |s|
  {
    seq(|s|, i requires 0 <= i < |s| => s[i] as int)
  }

  /** The marks are the texts they stand for. */
  lemma Marks()
    ensures ARMD == Ascii("ARMd") && ZIMG == Ascii("zimg") && DOT_LINUX == Ascii(".linux") + [0, 0]
    ensures ZSTD_NAME == Ascii("zstd") && GZIP_NAME == Ascii("gzip")
  {
  }

  /** A raw Image is left as it is, whatever else it looks like. */
  lemma RawImageStays(c: Codecs, data: seq<byte>)
    requires |data| >= 60 && data[56..60] == Ascii("ARMd")
    ensures Compression(c, data) == None && ToBootable(c, data) == Ok(data)
  {
    Marks();
  }
}
