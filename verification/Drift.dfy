/** What happens to a streaming reader that has lost its place (src/source/remote.rs): which reads
    lose bytes, that a lost place is never found again, and what is read from there on. */
module Drift {
  import opened Common
  import opened Arith
  import opened Network
  import opened Remote

  // ---- What a stream that is ahead of its chunks stores ----

  /** The stream stands `d` bytes past the chunks it has produced. */
  ghost predicate Ahead(sv: Server, st: State, d: nat) {
    Shape(sv, st) && st.stream.Some? && st.stream.value == End(sv, st.streamed) + d
  }

  /** `data` is chunk `i` of the body moved `d` bytes to the front. */
  ghost predicate Shifted(sv: Server, i: nat, d: nat, data: seq<byte>) {
    && Start(sv, i) < |sv.body|
    && Start(sv, i) + d + ChunkLen(sv, i) <= |sv.body|
    && data == sv.body[Start(sv, i) + d..Start(sv, i) + d + ChunkLen(sv, i)]
  }

  /** Chunks `from` up to `to` are in memory, each shifted by `d`. */
  ghost predicate AllShifted(sv: Server, st: State, from: nat, to: nat, d: nat) {
    forall i :: from <= i < to && i < |st.chunks| ==> st.chunks[i].Some? && Shifted(sv, i, d, st.chunks[i].value)
  }

  /** Nothing but chunks `from` up to `to` differs in memory, and what is new in the disk cache is shifted by `d`. */
  ghost predicate OnlyShifted(sv: Server, st: State, st': State, from: nat, to: nat, d: nat) {
    && |st'.chunks| == |st.chunks|
    && (forall i :: 0 <= i < |st.chunks| && !(from <= i < to) ==> st'.chunks[i] == st.chunks[i])
    && (forall i :: i in st'.disk ==> (i in st.disk && st'.disk[i] == st.disk[i]) || Shifted(sv, i, d, st'.disk[i]))
  }

  lemma StreamOneShifts(sv: Server, st: State, d: nat)
    requires Ahead(sv, st, d) && st.streamed < Count(sv) && Start(sv, st.streamed) < |sv.body|
    requires ReadFull(|sv.body|, st.stream.value, ChunkLen(sv, st.streamed), st.net).ok
    ensures var st' := StreamOne(sv, st); var i := st.streamed;
            && Ahead(sv, st', d) && OnlyShifted(sv, st, st', i, i + 1, d)
            && st'.chunks[i].Some? && Shifted(sv, i, d, st'.chunks[i].value)
  {
    hide Count, Start, ChunkLen, ReadFull, Shape;
    ShapeIsValid(sv, st);
    ChunkInside(sv, st.streamed);
  }

  lemma ShapeIsValid(sv: Server, st: State)
    requires Shape(sv, st)
    ensures Valid(sv) && |st.chunks| == Count(sv)
    ensures st.streamed <= |st.chunks| && (st.stream.Some? ==> st.stream.value <= |sv.body|)
  {
  }

  /** From `d` bytes ahead, streaming stores every chunk it reaches shifted by `d`; in particular it
      cannot get past a chunk whose shifted range ends behind the body. When it stops it is at least as far ahead. */
  lemma {:induction false} StreamToShifts(sv: Server, st: State, idx: nat, d: nat)
    requires Ahead(sv, st, d) && idx < Count(sv)
    ensures var r := StreamTo(sv, st, idx);
            && st.streamed <= r.0.streamed && OnlyShifted(sv, st, r.0, st.streamed, r.0.streamed, d)
            && AllShifted(sv, r.0, st.streamed, r.0.streamed, d)
            && (r.1 ==> Ahead(sv, r.0, d))
            && (!r.1 ==> r.0.stream.Some? && r.0.stream.value >= End(sv, r.0.streamed) + d)
    decreases idx + 1 - st.streamed
  {
    hide Count, Start, End, ChunkLen, ReadFull, StreamOne, Shifted;
    if st.streamed <= idx {
      ShapeIsValid(sv, st);
      ChunkInside(sv, st.streamed);
      if ReadFull(|sv.body|, st.stream.value, ChunkLen(sv, st.streamed), st.net).ok {
        StreamOneShifts(sv, st, d);
        var next := StreamOne(sv, st);
        StreamToShifts(sv, next, idx, d);
        KeepFirst(sv, st, next, StreamTo(sv, next, idx).0, d);
      }
    }
  }

  lemma KeepFirst(sv: Server, st: State, next: State, end: State, d: nat)
    requires next.streamed == st.streamed + 1 <= end.streamed && st.streamed < |next.chunks|
    requires OnlyShifted(sv, st, next, st.streamed, next.streamed, d) && OnlyShifted(sv, next, end, next.streamed, end.streamed, d)
    requires next.chunks[st.streamed].Some? && Shifted(sv, st.streamed, d, next.chunks[st.streamed].value)
    requires AllShifted(sv, end, next.streamed, end.streamed, d)
    ensures OnlyShifted(sv, st, end, st.streamed, end.streamed, d) && AllShifted(sv, end, st.streamed, end.streamed, d)
  {
    hide Shifted;
  }

  /** However reliable the network: once ahead, the last chunk never arrives. */
  lemma LastChunkNeverArrives(sv: Server, st: State, idx: nat, d: nat)
    requires Ahead(sv, st, d) && d > 0 && st.streamed <= idx && idx + 1 == Count(sv)
    ensures !StreamTo(sv, st, idx).1
  {
    hide Count, Start, ChunkLen;
    var r := StreamTo(sv, st, idx);
    StreamToShifts(sv, st, idx, d);
    if r.1 {
      ChunkInside(sv, idx);
      ChunkInside(sv, idx + 1);
      ShapeIsValid(sv, r.0);
      assert r.0.chunks[idx].Some? && Shifted(sv, idx, d, r.0.chunks[idx].value);
      EndOfLast(sv, idx);
    }
  }

  lemma EndOfLast(sv: Server, idx: nat)
    requires Valid(sv) && idx + 1 == Count(sv) && Start(sv, idx) < |sv.body|
    ensures Start(sv, idx) + ChunkLen(sv, idx) == |sv.body|
  {
    hide Count, Start;
    ChunkInside(sv, idx);
    ChunkInside(sv, idx + 1);
  }

  /** Stopping on a chunk, from any lead, leaves the reader at least as far ahead; and farther
      exactly when something had been delivered of that chunk, if there still was enough for all of it. */
  lemma FailureExtendsLead(sv: Server, st: State, idx: nat, d: nat)
    requires Ahead(sv, st, d) && st.streamed <= idx < Count(sv) && Start(sv, st.streamed) < |sv.body|
    requires !ReadFull(|sv.body|, st.stream.value, ChunkLen(sv, st.streamed), st.net).ok
    ensures var r := StreamTo(sv, st, idx);
            && !r.1 && r.0.stream.Some? && r.0.stream.value >= End(sv, r.0.streamed) + d
            && Ahead(sv, r.0, r.0.stream.value - End(sv, r.0.streamed))
            && (st.stream.value + ChunkLen(sv, st.streamed) <= |sv.body| ==> (Ahead(sv, r.0, d) <==> Head(st.net).Fail?))
  {
    hide Count, Start, End, ChunkLen, ReadFull;
    ShapeIsValid(sv, st);
    ChunkInside(sv, st.streamed);
    StreamToShifts(sv, st, idx, d);
    if st.stream.value + ChunkLen(sv, st.streamed) <= |sv.body| {
      FailedReadConsumes(|sv.body|, st.stream.value, ChunkLen(sv, st.streamed), st.net);
    }
  }

  // ---- Reads of a reader that is ahead ----

  /** A copy of chunk `i` that is shifted by `d`, was already in memory, or was already in the cache directory. */
  ghost predicate Sourced(sv: Server, start: State, i: nat, d: nat, data: seq<byte>) {
    || Shifted(sv, i, d, data)
    || (i < |start.chunks| && start.chunks[i] == Some(data))
    || (i in start.disk && start.disk[i] == data && Start(sv, i) < |sv.body| && |data| == ChunkLen(sv, i))
  }

  /** What a reader that was `d` bytes ahead in `start` has become: as far ahead, and every copy it
      holds comes from where `Sourced` says. */
  ghost predicate Since(sv: Server, start: State, st: State, d: nat) {
    && Ahead(sv, st, d) && |st.chunks| == |start.chunks|
    && (forall i :: 0 <= i < |st.chunks| && st.chunks[i].Some? ==> Sourced(sv, start, i, d, st.chunks[i].value))
    && (forall i :: i in st.disk ==> (i in start.disk && st.disk[i] == start.disk[i]) || Shifted(sv, i, d, st.disk[i]))
  }

  lemma SinceStart(sv: Server, st: State, d: nat)
    requires Ahead(sv, st, d)
    ensures Since(sv, st, st, d)
  {
    hide Shifted, Start, ChunkLen;
  }

  lemma EnsureSince(sv: Server, start: State, st: State, idx: nat, d: nat)
    requires Since(sv, start, st, d) && idx < Count(sv) && !sv.ranges
    ensures Ensure(sv, st, idx).1 ==> Since(sv, start, Ensure(sv, st, idx).0, d)
  {
    hide Count, Start, End, ChunkLen, StreamTo, Shifted;
    ChunkInside(sv, idx);
    StreamToShifts(sv, st, idx, d);
  }

  lemma {:induction false} EnsureAllSince(sv: Server, start: State, st: State, first: nat, last: nat, d: nat)
    requires Since(sv, start, st, d) && last < Count(sv) && !sv.ranges
    ensures EnsureAll(sv, st, first, last).1 ==> Since(sv, start, EnsureAll(sv, st, first, last).0, d)
    decreases last + 1 - first
  {
    hide Count, Ensure, Since;
    SinceHasShape(sv, start, st, d);
    if first <= last {
      EnsureSince(sv, start, st, first, d);
      if Ensure(sv, st, first).1 {
        EnsureAllSince(sv, start, Ensure(sv, st, first).0, first + 1, last, d);
      }
    }
  }

  lemma SinceHasShape(sv: Server, start: State, st: State, d: nat)
    requires Since(sv, start, st, d)
    ensures Shape(sv, st)
  {
  }

  /** Byte `p` as a reader `d` bytes ahead of `start` may answer it: the byte `d` further on, or that
      of a copy of its chunk that was in memory or in the cache directory already. */
  ghost predicate ByteFrom(sv: Server, start: State, p: nat, d: nat, x: byte)
    requires Valid(sv)
  {
    var i, k := Quot(p, sv.chunk), Rem(p, sv.chunk);
    || (p + d < |sv.body| && x == sv.body[p + d])
    || (i < |start.chunks| && start.chunks[i].Some? && k < |start.chunks[i].value| && x == start.chunks[i].value[k])
    || (Cached(sv, start, i) && k < |start.disk[i]| && x == start.disk[i][k])
  }

  /** The cache directory has a file of the right length for chunk `i`. */
  ghost predicate Cached(sv: Server, st: State, i: nat) {
    i in st.disk && Start(sv, i) < |sv.body| && |st.disk[i]| == ChunkLen(sv, i)
  }

  lemma ByteIsFrom(sv: Server, start: State, st: State, p: nat, d: nat)
    requires Since(sv, start, st, d) && p < |sv.body| && Has(sv, st.chunks, p)
    ensures ByteFrom(sv, start, p, d, ByteAt(sv, st.chunks, p))
  {
    hide Quot, Rem, Count, Start, End, ChunkLen;
    Locate(sv, p);
    var i := Quot(p, sv.chunk);
    assert Sourced(sv, start, i, d, st.chunks[i].value);
  }

  /** From any reader that is `d` bytes ahead, whatever it holds and whatever is cached: each byte of
      a successful read is the one `d` bytes further on, unless a copy of its chunk was there before. */
  lemma AheadReadsComeFrom(sv: Server, st: State, d: nat, offset: nat, len: nat)
    requires Ahead(sv, st, d) && !sv.ranges && ReadAt(sv, st, offset, len).1.Ok?
    ensures var r := ReadAt(sv, st, offset, len);
            && Since(sv, st, r.0, d)
            && forall k :: 0 <= k < len ==> ByteFrom(sv, st, offset + k, d, r.1.value[k])
  {
    hide Quot, Rem, Count, Start, End, ChunkLen, EnsureAll, Since, Has, ByteAt, ByteFrom;
    SinceStart(sv, st, d);
    if len > 0 {
      Locate(sv, offset + len - 1);
      EnsureAllSince(sv, st, st, Quot(offset, sv.chunk), Quot(offset + len - 1, sv.chunk), d);
      var r := ReadAt(sv, st, offset, len);
      forall k | 0 <= k < len
        ensures ByteFrom(sv, st, offset + k, d, r.1.value[k])
      {
        ByteIsFrom(sv, st, r.0, offset + k, d);
      }
    }
  }

  /** So a successful read of chunks of which there was no copy yet returns what lies `d` bytes
      further on, and is right exactly when the body repeats itself there. */
  lemma NewReadsAreShifted(sv: Server, st: State, d: nat, offset: nat, len: nat)
    requires Ahead(sv, st, d) && !sv.ranges && len > 0 && ReadAt(sv, st, offset, len).1.Ok?
    requires forall i :: Quot(offset, sv.chunk) <= i <= Quot(offset + len - 1, sv.chunk) ==>
               !(i < |st.chunks| && st.chunks[i].Some?) && !Cached(sv, st, i)
    ensures var r := ReadAt(sv, st, offset, len);
            && offset + d + len <= |sv.body|
            && r.1.value == sv.body[offset + d..offset + d + len]
            && (r.1.value == sv.body[offset..offset + len] <==>
                sv.body[offset..offset + len] == sv.body[offset + d..offset + d + len])
  {
    hide Quot, Rem, Count, Start, End, ChunkLen, EnsureAll, Since, Has, ByteAt, ReadAt, Cached;
    AheadReadsComeFrom(sv, st, d, offset, len);
    var r := ReadAt(sv, st, offset, len);
    forall k | 0 <= k < len
      ensures HasByte(sv, offset + k + d, r.1.value[k])
    {
      QuotMono(offset, offset + k, sv.chunk);
      QuotMono(offset + k, offset + len - 1, sv.chunk);
      assert ByteFrom(sv, st, offset + k, d, r.1.value[k]);
    }
    ShiftedEnd(sv, r.1.value, offset, d);
  }

  predicate HasByte(sv: Server, p: nat, x: byte) {
    p < |sv.body| && sv.body[p] == x
  }

  lemma ShiftedEnd(sv: Server, data: seq<byte>, offset: nat, d: nat)
    requires data != [] && forall k :: 0 <= k < |data| ==> HasByte(sv, offset + k + d, data[k])
    ensures offset + d + |data| <= |sv.body| && data == sv.body[offset + d..offset + d + |data|]
  {
    var last := |data| - 1;
    assert HasByte(sv, offset + last + d, data[last]);
  }

  // ---- What runs leave behind ----

  /** How far the stream is past the chunks it has produced. */
  ghost function Lead(sv: Server, st: State): nat {
    if st.stream.Some? && st.stream.value > End(sv, st.streamed) then st.stream.value - End(sv, st.streamed) else 0
  }

  ghost predicate ShiftedWithin(sv: Server, i: nat, lead: nat, data: seq<byte>) {
    exists e :: 0 <= e <= lead && Shifted(sv, i, e, data)
  }

  /** Every chunk held, and every right-length chunk cached, is shifted by some lead up to the current one. */
  ghost predicate Shifty(sv: Server, st: State) {
    && Shape(sv, st) && (st.stream.Some? ==> st.stream.value >= End(sv, st.streamed))
    && (forall i :: 0 <= i < |st.chunks| && st.chunks[i].Some? ==> ShiftedWithin(sv, i, Lead(sv, st), st.chunks[i].value))
    && (forall i :: Cached(sv, st, i) ==> ShiftedWithin(sv, i, Lead(sv, st), st.disk[i]))
  }

  lemma GoodIsShifty(sv: Server, st: State)
    requires Good(sv, st)
    ensures Shifty(sv, st) && Lead(sv, st) == 0
  {
    hide Start, ChunkLen, Count;
    forall i | 0 <= i < |st.chunks| && st.chunks[i].Some?
      ensures ShiftedWithin(sv, i, 0, st.chunks[i].value)
    {
      ChunkInside(sv, i);
      assert Shifted(sv, i, 0, st.chunks[i].value);
    }
    forall i | Cached(sv, st, i)
      ensures ShiftedWithin(sv, i, 0, st.disk[i])
    {
      ChunkInside(sv, i);
      assert Shifted(sv, i, 0, st.disk[i]);
    }
  }

  lemma Widen(sv: Server, i: nat, lead: nat, wider: nat, data: seq<byte>)
    requires ShiftedWithin(sv, i, lead, data) && lead <= wider
    ensures ShiftedWithin(sv, i, wider, data)
  {
    hide Shifted;
  }

  /** New states whose copies are old ones or shifted by the old lead keep the invariant. */
  lemma ShiftyOn(sv: Server, st: State, st': State)
    requires Shifty(sv, st) && Shape(sv, st') && (st'.stream.Some? ==> st'.stream.value >= End(sv, st'.streamed))
    requires Lead(sv, st) <= Lead(sv, st') && |st'.chunks| == |st.chunks|
    requires forall i :: 0 <= i < |st'.chunks| && st'.chunks[i].Some? ==> Sourced(sv, st, i, Lead(sv, st), st'.chunks[i].value)
    requires forall i :: i in st'.disk ==> (i in st.disk && st'.disk[i] == st.disk[i]) || Shifted(sv, i, Lead(sv, st), st'.disk[i])
    ensures Shifty(sv, st')
  {
    hide Shifted, Start, ChunkLen, Lead, Shape, End;
    forall i | 0 <= i < |st'.chunks| && st'.chunks[i].Some?
      ensures ShiftedWithin(sv, i, Lead(sv, st'), st'.chunks[i].value)
    {
      Within(sv, st, i, st'.chunks[i].value);
      Widen(sv, i, Lead(sv, st), Lead(sv, st'), st'.chunks[i].value);
    }
    forall i | Cached(sv, st', i)
      ensures ShiftedWithin(sv, i, Lead(sv, st'), st'.disk[i])
    {
      assert i in st'.disk;
      if i in st.disk && st'.disk[i] == st.disk[i] {
        assert Cached(sv, st, i);
      } else {
        assert ShiftedWithin(sv, i, Lead(sv, st), st'.disk[i]);
      }
      Widen(sv, i, Lead(sv, st), Lead(sv, st'), st'.disk[i]);
    }
  }

  lemma Within(sv: Server, st: State, i: nat, data: seq<byte>)
    requires Shifty(sv, st) && Sourced(sv, st, i, Lead(sv, st), data)
    ensures ShiftedWithin(sv, i, Lead(sv, st), data)
  {
    hide Shifted, Start, ChunkLen, Lead, Shape, End;
    if i in st.disk && st.disk[i] == data && Start(sv, i) < |sv.body| && |data| == ChunkLen(sv, i) {
      assert Cached(sv, st, i);
    }
  }

  /** One `ensure` keeps this, and the lead never shrinks. */
  lemma EnsureIsShifty(sv: Server, st: State, idx: nat)
    requires Shifty(sv, st) && idx < Count(sv)
    ensures var st' := Ensure(sv, st, idx).0; Shifty(sv, st') && Lead(sv, st) <= Lead(sv, st')
  {
    hide Count, Start, End, ChunkLen, StreamTo, Shifted, Sourced, ShiftedWithin, Shape;
    var st', lead := Ensure(sv, st, idx).0, Lead(sv, st);
    ShapeIsValid(sv, st);
    ChunkInside(sv, idx);
    OldIsSourced(sv, st, lead);
    if !sv.ranges {
      var begun := if st.stream.None? then BeginStream(st) else st;
      BegunIsAhead(sv, st);
      StreamToShifts(sv, begun, idx, lead);
      ShiftedIsSourced(sv, st, lead);
    } else {
      RangesHaveNoStream(sv, st);
      FetchedIsShifted(sv, st, idx);
      ShiftedIsSourced(sv, st, 0);
    }
    ShiftyOn(sv, st, st');
  }

  lemma OldIsSourced(sv: Server, st: State, d: nat)
    ensures forall i :: 0 <= i < |st.chunks| && st.chunks[i].Some? ==> Sourced(sv, st, i, d, st.chunks[i].value)
    ensures forall i :: i in st.disk && Start(sv, i) < |sv.body| && |st.disk[i]| == ChunkLen(sv, i) ==> Sourced(sv, st, i, d, st.disk[i])
  {
    hide Shifted, Start, ChunkLen;
  }

  lemma ShiftedIsSourced(sv: Server, st: State, d: nat)
    ensures forall i, data :: Shifted(sv, i, d, data) ==> Sourced(sv, st, i, d, data)
  {
    hide Shifted, Start, ChunkLen;
  }

  lemma RangesHaveNoStream(sv: Server, st: State)
    requires Shape(sv, st) && sv.ranges
    ensures st.stream.None?
  {
  }

  lemma FetchedIsShifted(sv: Server, st: State, idx: nat)
    requires Valid(sv) && Start(sv, idx) < |sv.body|
    ensures Shifted(sv, idx, 0, ChunkBytes(sv, idx))
  {
    hide Start, ChunkLen;
    ChunkInside(sv, idx);
  }

  lemma BegunIsAhead(sv: Server, st: State)
    requires Shifty(sv, st) && !sv.ranges
    ensures var begun := if st.stream.None? then BeginStream(st) else st; Ahead(sv, begun, Lead(sv, st))
  {
    hide Count, Start, ChunkLen;
    ChunkInside(sv, 0);
  }

  lemma {:induction false} EnsureAllIsShifty(sv: Server, st: State, first: nat, last: nat)
    requires Shifty(sv, st) && last < Count(sv)
    ensures var st' := EnsureAll(sv, st, first, last).0; Shifty(sv, st') && Lead(sv, st) <= Lead(sv, st')
    decreases last + 1 - first
  {
    hide Count, Ensure, Shifty, Lead;
    ShiftyHasShape(sv, st);
    if first <= last {
      EnsureIsShifty(sv, st, first);
      if Ensure(sv, st, first).1 {
        EnsureAllIsShifty(sv, Ensure(sv, st, first).0, first + 1, last);
      }
    }
  }

  lemma ShiftyHasShape(sv: Server, st: State)
    requires Shifty(sv, st)
    ensures Shape(sv, st)
  {
  }

  /** Each byte of an answer lies some way further on. */
  ghost predicate Further(sv: Server, p: nat, lead: nat, x: byte) {
    exists q :: p <= q <= p + lead && q < |sv.body| && sv.body[q] == x
  }

  lemma ByteIsFurther(sv: Server, st: State, p: nat)
    requires Shifty(sv, st) && p < |sv.body| && Has(sv, st.chunks, p)
    ensures Further(sv, p, Lead(sv, st), ByteAt(sv, st.chunks, p))
  {
    hide Quot, Rem, Count, Start, End, ChunkLen, Lead;
    Locate(sv, p);
    var i := Quot(p, sv.chunk);
    assert ShiftedWithin(sv, i, Lead(sv, st), st.chunks[i].value);
    var e :| 0 <= e <= Lead(sv, st) && Shifted(sv, i, e, st.chunks[i].value);
    assert sv.body[p + e] == ByteAt(sv, st.chunks, p);
  }

  lemma ReadIsShifty(sv: Server, st: State, offset: nat, len: nat)
    requires Shifty(sv, st)
    ensures var r := ReadAt(sv, st, offset, len);
            && Shifty(sv, r.0) && Lead(sv, st) <= Lead(sv, r.0)
            && (r.1.Ok? ==> forall k :: 0 <= k < len ==> Further(sv, offset + k, Lead(sv, r.0), r.1.value[k]))
  {
    hide Quot, Rem, Count, Start, End, ChunkLen, EnsureAll, Shifty, Lead, Has, ByteAt, Further;
    ShiftyHasShape(sv, st);
    if offset + len <= |sv.body| && len > 0 {
      Locate(sv, offset + len - 1);
      EnsureAllIsShifty(sv, st, Quot(offset, sv.chunk), Quot(offset + len - 1, sv.chunk));
      var r := ReadAt(sv, st, offset, len);
      if r.1.Ok? {
        forall k | 0 <= k < len
          ensures Further(sv, offset + k, Lead(sv, r.0), r.1.value[k])
        {
          ByteIsFurther(sv, r.0, offset + k);
        }
      }
    }
  }

  /** After any run, with whatever losses: every chunk held or cached is shifted by some lead the
      stream has had, the lead never shrinks, and every byte answered lies at most that far further on. */
  lemma {:induction false} RunsShiftWithinLead(sv: Server, st: State, reqs: seq<Req>, k: nat)
    requires Shifty(sv, st)
    ensures var r := Serve(sv, st, reqs);
            && Shifty(sv, r.0) && Lead(sv, st) <= Lead(sv, r.0)
            && (k < |reqs| && r.1[k].Ok? ==>
                  && |r.1[k].value| == reqs[k].len
                  && forall j :: 0 <= j < reqs[k].len ==> Further(sv, reqs[k].offset + j, Lead(sv, r.0), r.1[k].value[j]))
    decreases |reqs|
  {
    hide ReadAt, Shifty, Lead, Further;
    ShiftyHasShape(sv, st);
    if reqs != [] {
      ReadIsShifty(sv, st, reqs[0].offset, reqs[0].len);
      var next := ReadAt(sv, st, reqs[0].offset, reqs[0].len);
      var end := Serve(sv, next.0, reqs[1..]).0;
      RunsShiftWithinLead(sv, next.0, reqs[1..], if k > 0 then k - 1 else |reqs|);
      if k == 0 && next.1.Ok? {
        forall j | 0 <= j < reqs[0].len
          ensures Further(sv, reqs[0].offset + j, Lead(sv, end), next.1.value[j])
        {
          WidenFurther(sv, reqs[0].offset + j, Lead(sv, next.0), Lead(sv, end), next.1.value[j]);
        }
      }
    }
  }

  lemma WidenFurther(sv: Server, p: nat, lead: nat, wider: nat, x: byte)
    requires Further(sv, p, lead, x) && lead <= wider
    ensures Further(sv, p, wider, x)
  {
  }

  // ---- Which runs keep their place ----

  /** Streaming to `idx` stops on a chunk of which something had been delivered. */
  ghost predicate StreamLoses(sv: Server, st: State, idx: nat)
    requires Shape(sv, st) && idx < Count(sv) && st.stream.Some?
    decreases idx + 1 - st.streamed
  {
    hide Count, Start, ChunkLen, StreamOne, ReadFull;
    if st.streamed > idx then false
    else
      ChunkInside(sv, st.streamed);
      if ReadFull(|sv.body|, st.stream.value, ChunkLen(sv, st.streamed), st.net).ok then StreamLoses(sv, StreamOne(sv, st), idx)
      else !Head(st.net).Fail?
  }

  /** The same of one `ensure`: only one that has to stream can lose bytes. */
  ghost predicate EnsureLoses(sv: Server, st: State, idx: nat)
    requires Shape(sv, st) && idx < Count(sv)
  {
    hide Count, Start, ChunkLen;
    ChunkInside(sv, idx);
    var held := st.chunks[idx].Some? || (sv.caching && idx in st.disk && |st.disk[idx]| == ChunkLen(sv, idx));
    if held || sv.ranges then false
    else if st.stream.None? then !Head(st.net).Fail? && StreamLoses(sv, BeginStream(st), idx)
    else StreamLoses(sv, st, idx)
  }

  ghost predicate EnsureAllLoses(sv: Server, st: State, first: nat, last: nat)
    requires Shape(sv, st) && last < Count(sv)
    decreases last + 1 - first
  {
    hide Count, Ensure;
    first <= last &&
    (EnsureLoses(sv, st, first) ||
     (Ensure(sv, st, first).1 && EnsureAllLoses(sv, Ensure(sv, st, first).0, first + 1, last)))
  }

  ghost predicate ReadLoses(sv: Server, st: State, req: Req)
    requires Shape(sv, st)
  {
    hide Quot, Count, Start;
    if req.len == 0 || req.offset + req.len > |sv.body| then false
    else
      Locate(sv, req.offset + req.len - 1);
      EnsureAllLoses(sv, st, Quot(req.offset, sv.chunk), Quot(req.offset + req.len - 1, sv.chunk))
  }

  /** Some read of the run loses bytes. */
  ghost predicate RunLoses(sv: Server, st: State, reqs: seq<Req>)
    requires Shape(sv, st)
    decreases |reqs|
  {
    hide ReadAt;
    reqs != [] &&
    (ReadLoses(sv, st, reqs[0]) || RunLoses(sv, ReadAt(sv, st, reqs[0].offset, reqs[0].len).0, reqs[1..]))
  }

  /** The stream is past the chunks it has produced. */
  ghost predicate Lost(sv: Server, st: State) {
    Shape(sv, st) && st.stream.Some? && st.stream.value > End(sv, st.streamed)
  }

  lemma {:induction false} StreamLosesIff(sv: Server, st: State, idx: nat)
    requires Good(sv, st) && idx < Count(sv) && st.stream.Some?
    ensures var r := StreamTo(sv, st, idx).0;
            if StreamLoses(sv, st, idx) then Lost(sv, r) else Good(sv, r)
    decreases idx + 1 - st.streamed
  {
    hide Count, Start, End, ChunkLen, ReadFull, StreamOne, HonestMemory, HonestDisk;
    if st.streamed <= idx {
      ChunkInside(sv, st.streamed);
      if ReadFull(|sv.body|, st.stream.value, ChunkLen(sv, st.streamed), st.net).ok {
        StreamOneKeepsGood(sv, st);
        StreamLosesIff(sv, StreamOne(sv, st), idx);
      } else {
        FailedChunkLosesStepIff(sv, st, idx);
        StreamToShifts(sv, st, idx, 0);
        StreamToKeepsGood(sv, st, idx);
      }
    }
  }

  lemma EnsureLosesIff(sv: Server, st: State, idx: nat)
    requires Good(sv, st) && idx < Count(sv)
    ensures var r := Ensure(sv, st, idx);
            && (if EnsureLoses(sv, st, idx) then Lost(sv, r.0) && !r.1 else Good(sv, r.0))
  {
    hide Count, Start, ChunkLen, StreamTo, StreamLoses, HonestMemory, HonestDisk;
    EnsureKeepsGood(sv, st, idx);
    ChunkInside(sv, idx);
    var held := st.chunks[idx].Some? || (sv.caching && idx in st.disk && |st.disk[idx]| == ChunkLen(sv, idx));
    if !held && !sv.ranges && !(st.stream.None? && Head(st.net).Fail?) {
      var begun := if st.stream.None? then BeginStream(st) else st;
      ChunkInside(sv, 0);
      BegunIsGood(sv, st);
      StreamLosesIff(sv, begun, idx);
    }
  }

  lemma BegunIsGood(sv: Server, st: State)
    requires Good(sv, st) && !sv.ranges
    ensures st.stream.None? ==> Good(sv, BeginStream(st))
  {
    hide Count, Start, ChunkLen;
    ChunkInside(sv, 0);
  }

  lemma {:induction false} EnsureAllLosesIff(sv: Server, st: State, first: nat, last: nat)
    requires Good(sv, st) && last < Count(sv)
    ensures var r := EnsureAll(sv, st, first, last).0;
            if EnsureAllLoses(sv, st, first, last) then Lost(sv, r) else Good(sv, r)
    decreases last + 1 - first
  {
    hide Count, Ensure, EnsureLoses, HonestMemory, HonestDisk, InStep;
    if first <= last {
      EnsureLosesIff(sv, st, first);
      if Ensure(sv, st, first).1 {
        EnsureAllLosesIff(sv, Ensure(sv, st, first).0, first + 1, last);
      }
    }
  }

  lemma ReadLosesIff(sv: Server, st: State, req: Req)
    requires Good(sv, st)
    ensures var r := ReadAt(sv, st, req.offset, req.len).0;
            if ReadLoses(sv, st, req) then Lost(sv, r) else Good(sv, r)
  {
    hide Quot, Rem, Count, Start, ChunkLen, EnsureAll, EnsureAllLoses, HonestMemory, HonestDisk, InStep, Has;
    if req.offset + req.len <= |sv.body| && req.len > 0 {
      Locate(sv, req.offset + req.len - 1);
      EnsureAllLosesIff(sv, st, Quot(req.offset, sv.chunk), Quot(req.offset + req.len - 1, sv.chunk));
    }
  }

  lemma LostStreams(sv: Server, st: State, idx: nat)
    requires Lost(sv, st) && idx < Count(sv)
    ensures Lost(sv, Ensure(sv, st, idx).0)
  {
    hide Count, Start, End, ChunkLen, StreamTo;
    ChunkInside(sv, idx);
    StreamToShifts(sv, st, idx, st.stream.value - End(sv, st.streamed));
  }

  lemma {:induction false} LostStaysLost(sv: Server, st: State, first: nat, last: nat)
    requires Lost(sv, st) && last < Count(sv)
    ensures Lost(sv, EnsureAll(sv, st, first, last).0)
    decreases last + 1 - first
  {
    hide Count, Ensure;
    if first <= last {
      LostStreams(sv, st, first);
      if Ensure(sv, st, first).1 {
        LostStaysLost(sv, Ensure(sv, st, first).0, first + 1, last);
      }
    }
  }

  /** A lost place is never found again, whatever is read. */
  lemma {:induction false} LostRunsStayLost(sv: Server, st: State, reqs: seq<Req>)
    requires Lost(sv, st)
    ensures Lost(sv, Serve(sv, st, reqs).0)
    decreases |reqs|
  {
    hide ReadAt, Lost;
    LostHasShape(sv, st);
    if reqs != [] {
      LostReads(sv, st, reqs[0]);
      LostRunsStayLost(sv, ReadAt(sv, st, reqs[0].offset, reqs[0].len).0, reqs[1..]);
    }
  }

  lemma LostHasShape(sv: Server, st: State)
    requires Lost(sv, st)
    ensures Shape(sv, st) && !InStep(sv, st)
  {
  }

  lemma LostReads(sv: Server, st: State, req: Req)
    requires Lost(sv, st)
    ensures Lost(sv, ReadAt(sv, st, req.offset, req.len).0)
  {
    hide Quot, Rem, Count, Start, ChunkLen, EnsureAll, Has;
    if req.offset + req.len <= |sv.body| && req.len > 0 {
      Locate(sv, req.offset + req.len - 1);
      LostStaysLost(sv, st, Quot(req.offset, sv.chunk), Quot(req.offset + req.len - 1, sv.chunk));
    }
  }

  /** After any run of reads the reader is good exactly when its stream is in step, and that is
      exactly when no read of the run stopped inside a chunk of which something had been delivered. */
  lemma {:induction false} RunKeepsGoodIff(sv: Server, st: State, reqs: seq<Req>)
    requires Good(sv, st)
    ensures var r := Serve(sv, st, reqs).0;
            && (Good(sv, r) <==> InStep(sv, r))
            && (Good(sv, r) <==> !RunLoses(sv, st, reqs))
    decreases |reqs|
  {
    hide ReadAt, ReadLoses, HonestMemory, HonestDisk, InStep, Lost;
    if reqs != [] {
      var next := ReadAt(sv, st, reqs[0].offset, reqs[0].len).0;
      ReadLosesIff(sv, st, reqs[0]);
      if ReadLoses(sv, st, reqs[0]) {
        LostRunsStayLost(sv, next, reqs[1..]);
        LostHasShape(sv, Serve(sv, next, reqs[1..]).0);
      } else {
        RunKeepsGoodIff(sv, next, reqs[1..]);
      }
    }
  }

  /** In every run, a read that succeeds returns the remote bytes unless an earlier one lost bytes;
      failures that lost none do no harm. */
  lemma {:induction false} ReadsInStepAreRight(sv: Server, st: State, reqs: seq<Req>, k: nat)
    requires Good(sv, st) && k < |reqs| && !RunLoses(sv, st, reqs[..k])
    ensures var answer := Serve(sv, st, reqs).1[k];
            answer.Ok? ==>
              && reqs[k].offset + reqs[k].len <= |sv.body|
              && answer.value == sv.body[reqs[k].offset..reqs[k].offset + reqs[k].len]
    decreases |reqs|
  {
    hide ReadAt, ReadLoses, HonestMemory, HonestDisk, InStep, Lost;
    ReadReturnsRemoteBytes(sv, st, reqs[0].offset, reqs[0].len);
    if k > 0 {
      ReadLosesIff(sv, st, reqs[0]);
      assert reqs[..k][1..] == reqs[1..][..k - 1];
      ReadsInStepAreRight(sv, ReadAt(sv, st, reqs[0].offset, reqs[0].len).0, reqs[1..], k - 1);
    }
  }
}
