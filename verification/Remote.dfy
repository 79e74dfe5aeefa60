/** Lazy chunked reads of a remote image (src/source/remote.rs): the state a reader keeps, what
    one call does to it, and what every run of calls preserves. The network is an immutable body
    and a script of answers; the disk cache is a map. */
module Remote {
  import opened Common
  import opened Arith
  import opened Network

  /** The remote end and the fixed parameters of a reader. `caching` says whether a cache directory is configured. */
  datatype Server = Server(body: seq<byte>, chunk: nat, ranges: bool, caching: bool)

  datatype State = State(
    chunks: seq<Option<seq<byte>>>,
    stream: Option<nat>,  // position of the open forward stream
    streamed: nat,
    downloaded: nat,
    disk: map<nat, seq<byte>>,
    net: seq<Step>)

  predicate Valid(sv: Server) {
    sv.chunk > 0 && |sv.body| > 0
  }

  function Count(sv: Server): nat
    requires Valid(sv)
  {
    hide Quot;
    Quot(|sv.body| + sv.chunk - 1, sv.chunk)
  }

  function Start(sv: Server, i: nat): nat {
    Mul(i, sv.chunk)
  }

  /** Total length of the first `n` chunks. */
  function End(sv: Server, n: nat): nat {
    Min(Start(sv, n), |sv.body|)
  }

  function ChunkLen(sv: Server, i: nat): nat
    requires Start(sv, i) < |sv.body|
  {
    Min(|sv.body| - Start(sv, i), sv.chunk)
  }

  function ChunkBytes(sv: Server, i: nat): (data: seq<byte>)
    requires Start(sv, i) < |sv.body|
    ensures |data| == ChunkLen(sv, i)
  {
    sv.body[Start(sv, i)..Start(sv, i) + ChunkLen(sv, i)]
  }

  lemma ChunkInside(sv: Server, i: nat)
    requires Valid(sv)
    ensures Start(sv, 0) == 0 && (i < Count(sv) <==> Start(sv, i) < |sv.body|)
    ensures Start(sv, i) < |sv.body| ==>
              ChunkLen(sv, i) > 0 && End(sv, i) == Start(sv, i) && End(sv, i + 1) == Start(sv, i) + ChunkLen(sv, i)
  {
    var n, c := |sv.body|, sv.chunk;
    Rebuild(n + c - 1, c);
    MulMono(c, i + 1, Count(sv));
    MulMono(c, Count(sv), i);
    assert c * (i + 1) == i * c + c;
    assert Mul(Count(sv), c) == c * Count(sv);
  }

  // ---- Transitions ----

  datatype FullRead = FullRead(ok: bool, pos: nat, net: seq<Step>)

  /** `read_full`: read on until `want` bytes are in, or the stream ends or fails. */
  function ReadFull(size: nat, pos: nat, want: nat, net: seq<Step>): (r: FullRead)
    requires pos <= size
    ensures pos <= r.pos <= size && (r.ok <==> r.pos == pos + want)
    decreases want
  {
    if want == 0 then FullRead(true, pos, net)
    else
      var n := Given(Head(net), want, size - pos);
      if n == 0 then FullRead(false, pos, Tail(net))
      else ReadFull(size, pos + n, want - n, Tail(net))
  }

  function Store(sv: Server, st: State, i: nat, data: seq<byte>): State
    requires i < |st.chunks|
  {
    st.(chunks := st.chunks[i := Some(data)],
        downloaded := st.downloaded + 1,
        disk := if sv.caching then st.disk[i := data] else st.disk)
  }

  /** `fetch_all` answered: the stream opens at byte 0. */
  function BeginStream(st: State): State {
    st.(net := Tail(st.net), stream := Some(0), streamed := 0)
  }

  /** What holds of every reader state, failed reads included. */
  ghost predicate Shape(sv: Server, st: State) {
    && Valid(sv)
    && |st.chunks| == Count(sv)
    && (forall i :: 0 <= i < |st.chunks| && st.chunks[i].Some? ==>
          Start(sv, i) < |sv.body| && |st.chunks[i].value| == ChunkLen(sv, i))
    && st.streamed <= |st.chunks|
    && (st.stream.None? ==> st.streamed == 0)
    && (sv.ranges ==> st.stream.None?)
    && (st.stream.Some? ==> st.stream.value <= |sv.body|)
    && forall i :: 0 <= i < st.streamed ==> st.chunks[i].Some?
  }

  /** Chunks in memory stay there. */
  ghost predicate Grows(st: State, st': State) {
    |st'.chunks| == |st.chunks| && forall i :: 0 <= i < |st.chunks| && st.chunks[i].Some? ==> st'.chunks[i].Some?
  }

  /** One turn of the streaming loop whose read succeeds. */
  ghost function StreamOne(sv: Server, st: State): (r: State)
    requires Shape(sv, st) && st.stream.Some? && st.streamed < Count(sv)
    requires Start(sv, st.streamed) < |sv.body|
    requires ReadFull(|sv.body|, st.stream.value, ChunkLen(sv, st.streamed), st.net).ok
    ensures Shape(sv, r) && r.streamed == st.streamed + 1 && r.stream.Some? && Grows(st, r)
    ensures r.stream.value == st.stream.value + ChunkLen(sv, st.streamed)
  {
    hide Count, Start, ChunkLen, ReadFull;
    var got := ReadFull(|sv.body|, st.stream.value, ChunkLen(sv, st.streamed), st.net);
    var data := sv.body[st.stream.value..got.pos];
    Store(sv, st.(stream := Some(got.pos), net := got.net), st.streamed, data).(streamed := st.streamed + 1)
  }

  /** The forward loop: stream and keep every chunk up to and including `idx`. */
  ghost function StreamTo(sv: Server, st: State, idx: nat): (r: (State, bool))
    requires Shape(sv, st) && idx < Count(sv) && st.stream.Some?
    ensures Shape(sv, r.0) && Grows(st, r.0) && (r.1 ==> r.0.streamed > idx)
    decreases idx + 1 - st.streamed
  {
    hide Count, Start, ChunkLen, StreamOne, ReadFull;
    if st.streamed > idx then (st, true)
    else
      ChunkInside(sv, st.streamed);
      var got := ReadFull(|sv.body|, st.stream.value, ChunkLen(sv, st.streamed), st.net);
      if got.ok then StreamTo(sv, StreamOne(sv, st), idx)
      else (st.(stream := Some(got.pos), net := got.net), false)
  }

  /** `ensure`: have chunk `idx` in memory. */
  ghost function Ensure(sv: Server, st: State, idx: nat): (r: (State, bool))
    requires Shape(sv, st) && idx < Count(sv)
    ensures Shape(sv, r.0) && Grows(st, r.0) && (r.1 ==> r.0.chunks[idx].Some?)
  {
    hide Count, Start, ChunkLen;
    ChunkInside(sv, idx);
    var len := ChunkLen(sv, idx);
    if st.chunks[idx].Some? then (st, true)
    else if sv.caching && idx in st.disk && |st.disk[idx]| == len then
      (st.(chunks := st.chunks[idx := Some(st.disk[idx])]), true)
    else if sv.ranges then
      var after := st.(net := Tail(st.net));
      if Given(Head(st.net), len, len) == len then (Store(sv, after, idx, ChunkBytes(sv, idx)), true)
      else (after, false)
    else if st.stream.None? then
      if Head(st.net).Fail? then (st.(net := Tail(st.net)), false) else StreamTo(sv, BeginStream(st), idx)
    else StreamTo(sv, st, idx)
  }

  ghost function EnsureAll(sv: Server, st: State, first: nat, last: nat): (r: (State, bool))
    requires Shape(sv, st) && last < Count(sv)
    ensures Shape(sv, r.0) && Grows(st, r.0)
    ensures r.1 ==> forall i :: first <= i <= last ==> r.0.chunks[i].Some?
    decreases last + 1 - first
  {
    hide Count, Ensure;
    if first > last then (st, true)
    else
      var r := Ensure(sv, st, first);
      if r.1 then EnsureAll(sv, r.0, first + 1, last) else r
  }

  /** The byte at `p` as the chunks in memory have it. */
  predicate Has(sv: Server, chunks: seq<Option<seq<byte>>>, p: nat)
    requires Valid(sv)
  {
    var i := Quot(p, sv.chunk);
    i < |chunks| && chunks[i].Some? && Rem(p, sv.chunk) < |chunks[i].value|
  }

  function ByteAt(sv: Server, chunks: seq<Option<seq<byte>>>, p: nat): byte
    requires Valid(sv) && Has(sv, chunks, p)
  {
    chunks[Quot(p, sv.chunk)].value[Rem(p, sv.chunk)]
  }

  /** Position `p` of the body lies in chunk p / chunk, at p % chunk. */
  lemma Locate(sv: Server, p: nat)
    requires Valid(sv) && p < |sv.body|
    ensures var i := Quot(p, sv.chunk);
            && i < Count(sv) && Start(sv, i) < |sv.body|
            && p == Start(sv, i) + Rem(p, sv.chunk) && Rem(p, sv.chunk) < ChunkLen(sv, i)
  {
    hide Quot, Rem, Mul, Count;
    Rebuild(p, sv.chunk);
    ChunkInside(sv, Quot(p, sv.chunk));
  }

  ghost predicate HasAll(sv: Server, chunks: seq<Option<seq<byte>>>, offset: nat, len: nat)
    requires Valid(sv)
  {
    forall p :: offset <= p < offset + len ==> Has(sv, chunks, p)
  }

  /** The `len` bytes at `offset`, copied out of the chunks. */
  ghost function Gather(sv: Server, chunks: seq<Option<seq<byte>>>, offset: nat, len: nat): (data: seq<byte>)
    requires Valid(sv) && HasAll(sv, chunks, offset, len)
    ensures |data| == len && forall k :: 0 <= k < len ==> data[k] == ByteAt(sv, chunks, offset + k)
  {
    hide Has, ByteAt;
    if len == 0 then []
    else Gather(sv, chunks, offset, len - 1) + [ByteAt(sv, chunks, offset + len - 1)]
  }

  lemma HeldBytes(sv: Server, st: State, offset: nat, len: nat)
    requires Shape(sv, st) && 0 < len && offset + len <= |sv.body|
    requires forall i :: Quot(offset, sv.chunk) <= i <= Quot(offset + len - 1, sv.chunk) && i < |st.chunks| ==> st.chunks[i].Some?
    ensures HasAll(sv, st.chunks, offset, len)
  {
    hide Quot, Rem, Count, Start, ChunkLen;
    forall p | offset <= p < offset + len
      ensures Has(sv, st.chunks, p)
    {
      Locate(sv, p);
      QuotMono(offset, p, sv.chunk);
      QuotMono(p, offset + len - 1, sv.chunk);
    }
  }

  /** `read_at` on the whole reader. */
  ghost function ReadAt(sv: Server, st: State, offset: nat, len: nat): (r: (State, Result<seq<byte>>))
    requires Shape(sv, st)
    ensures Shape(sv, r.0)
    ensures r.1.Ok? ==> offset + len <= |sv.body| && |r.1.value| == len
    ensures r.1.Ok? ==> HasAll(sv, r.0.chunks, offset, len) && r.1.value == Gather(sv, r.0.chunks, offset, len)
  {
    hide Quot, Rem, Count, Start, ChunkLen, Has;
    if offset + len > |sv.body| then (st, Err(OutOfBounds))
    else if len == 0 then (st, Ok([]))
    else
      Locate(sv, offset + len - 1);
      var r := EnsureAll(sv, st, Quot(offset, sv.chunk), Quot(offset + len - 1, sv.chunk));
      if !r.1 then (r.0, Err(Http))
      else
        HeldBytes(sv, r.0, offset, len);
        (r.0, Ok(Gather(sv, r.0.chunks, offset, len)))
  }

  // ---- What every run of reads keeps ----

  /** Chunks in memory, and chunks of the right length on disk, hold the remote bytes; an open
      stream stands right behind the chunks it has produced. */
  ghost predicate Good(sv: Server, st: State) {
    Shape(sv, st) && HonestMemory(sv, st) && HonestDisk(sv, st.disk) && InStep(sv, st)
  }

  ghost predicate HonestMemory(sv: Server, st: State)
    requires Shape(sv, st)
  {
    forall i :: 0 <= i < |st.chunks| && st.chunks[i].Some? ==> st.chunks[i].value == ChunkBytes(sv, i)
  }

  ghost predicate HonestDisk(sv: Server, disk: map<nat, seq<byte>>) {
    forall i :: i in disk && Start(sv, i) < |sv.body| && |disk[i]| == ChunkLen(sv, i) ==> disk[i] == ChunkBytes(sv, i)
  }

  /** The position invariant of streaming mode. */
  ghost predicate InStep(sv: Server, st: State) {
    st.stream.Some? ==> st.stream.value == End(sv, st.streamed)
  }

  /** A failing `read_full` of a part of the body that exists has consumed nothing exactly when
      the first answer was already the failure. */
  lemma {:induction false} FailedReadConsumes(size: nat, pos: nat, want: nat, net: seq<Step>)
    requires 0 < want && pos + want <= size && !ReadFull(size, pos, want, net).ok
    ensures ReadFull(size, pos, want, net).pos == pos <==> Head(net).Fail?
  {
  }

  /** When streaming stops on a chunk, the reader stays good exactly when the connection failed
      before it delivered anything of that chunk. */
  lemma FailedChunkLosesStepIff(sv: Server, st: State, idx: nat)
    requires Good(sv, st) && st.stream.Some? && st.streamed <= idx < Count(sv)
    requires Start(sv, st.streamed) < |sv.body|
    requires !ReadFull(|sv.body|, st.stream.value, ChunkLen(sv, st.streamed), st.net).ok
    ensures var r := StreamTo(sv, st, idx);
            !r.1 && (Good(sv, r.0) <==> Head(st.net).Fail?)
  {
    hide Count, Start, ChunkLen, ReadFull;
    ChunkInside(sv, st.streamed);
    FailedReadConsumes(|sv.body|, st.stream.value, ChunkLen(sv, st.streamed), st.net);
  }

  lemma StreamOneKeepsGood(sv: Server, st: State)
    requires Good(sv, st) && st.stream.Some? && st.streamed < Count(sv)
    requires Start(sv, st.streamed) < |sv.body|
    requires ReadFull(|sv.body|, st.stream.value, ChunkLen(sv, st.streamed), st.net).ok
    ensures Good(sv, StreamOne(sv, st))
  {
    hide Count, Start, ChunkLen, ReadFull;
    ChunkInside(sv, st.streamed);
    var got := ReadFull(|sv.body|, st.stream.value, ChunkLen(sv, st.streamed), st.net);
    assert sv.body[st.stream.value..got.pos] == ChunkBytes(sv, st.streamed);
  }

  lemma {:induction false} StreamToKeepsGood(sv: Server, st: State, idx: nat)
    requires Good(sv, st) && idx < Count(sv) && st.stream.Some?
    ensures var r := StreamTo(sv, st, idx); Good(sv, r.0) <==> InStep(sv, r.0)
    ensures StreamTo(sv, st, idx).1 ==> InStep(sv, StreamTo(sv, st, idx).0)
    decreases idx + 1 - st.streamed
  {
    hide Count, Start, ChunkLen, ReadFull, StreamOne;
    if st.streamed <= idx {
      ChunkInside(sv, st.streamed);
      if ReadFull(|sv.body|, st.stream.value, ChunkLen(sv, st.streamed), st.net).ok {
        StreamOneKeepsGood(sv, st);
        StreamToKeepsGood(sv, StreamOne(sv, st), idx);
      }
    }
  }

  /** One `ensure` from a good state leaves a good state unless a stream read failed part way
      through a chunk; in particular whenever it succeeds, and always with range support. */
  lemma EnsureKeepsGood(sv: Server, st: State, idx: nat)
    requires Good(sv, st) && idx < Count(sv)
    ensures var r := Ensure(sv, st, idx);
            && (Good(sv, r.0) <==> InStep(sv, r.0))
            && (r.1 || sv.ranges ==> Good(sv, r.0))
  {
    hide Count, Start, ChunkLen, ReadFull, StreamTo;
    ChunkInside(sv, idx);
    if st.chunks[idx].None? && !(sv.caching && idx in st.disk && |st.disk[idx]| == ChunkLen(sv, idx)) && !sv.ranges {
      var begun := if st.stream.None? then BeginStream(st) else st;
      ChunkInside(sv, 0);
      StreamToKeepsGood(sv, begun, idx);
    }
  }

  lemma {:induction false} EnsureAllKeepsGood(sv: Server, st: State, first: nat, last: nat)
    requires Good(sv, st) && last < Count(sv)
    ensures var r := EnsureAll(sv, st, first, last);
            && (Good(sv, r.0) <==> InStep(sv, r.0))
            && (r.1 || sv.ranges ==> Good(sv, r.0))
    decreases last + 1 - first
  {
    hide Count, Ensure;
    if first <= last {
      EnsureKeepsGood(sv, st, first);
      if Ensure(sv, st, first).1 {
        EnsureAllKeepsGood(sv, Ensure(sv, st, first).0, first + 1, last);
      }
    }
  }

  lemma HeldByteIsRemote(sv: Server, st: State, p: nat)
    requires Good(sv, st) && p < |sv.body| && Has(sv, st.chunks, p)
    ensures ByteAt(sv, st.chunks, p) == sv.body[p]
  {
    hide Quot, Rem, Count, Start;
    Locate(sv, p);
    assert st.chunks[Quot(p, sv.chunk)].value == ChunkBytes(sv, Quot(p, sv.chunk));
  }

  /** A successful read from a good state returns the remote bytes and leaves a good state; a
      failed one leaves a good state exactly when the stream, if any, is still in step. */
  lemma ReadReturnsRemoteBytes(sv: Server, st: State, offset: nat, len: nat)
    requires Good(sv, st)
    ensures var r := ReadAt(sv, st, offset, len);
            && (r.1.Ok? ==> offset + len <= |sv.body| && r.1.value == sv.body[offset..offset + len] && Good(sv, r.0))
            && (sv.ranges || r.1 == Err(OutOfBounds) ==> Good(sv, r.0))
            && (Good(sv, r.0) <==> InStep(sv, r.0))
  {
    hide Quot, Rem, Count, Start, ChunkLen, EnsureAll;
    if offset + len <= |sv.body| && len > 0 {
      var last := Quot(offset + len - 1, sv.chunk);
      Locate(sv, offset + len - 1);
      EnsureAllKeepsGood(sv, st, Quot(offset, sv.chunk), last);
      var r := ReadAt(sv, st, offset, len);
      if r.1.Ok? {
        forall k | 0 <= k < len
          ensures r.1.value[k] == sv.body[offset + k]
        {
          HeldByteIsRemote(sv, r.0, offset + k);
        }
        assert r.1.value == sv.body[offset..offset + len];
      }
    }
  }

  datatype Req = Req(offset: nat, len: nat)

  /** A run of reads, with the answer to each. */
  ghost function Serve(sv: Server, st: State, reqs: seq<Req>): (r: (State, seq<Result<seq<byte>>>))
    requires Shape(sv, st)
    ensures Shape(sv, r.0) && |r.1| == |reqs|
    decreases |reqs|
  {
    if reqs == [] then (st, [])
    else
      var one := ReadAt(sv, st, reqs[0].offset, reqs[0].len);
      var rest := Serve(sv, one.0, reqs[1..]);
      (rest.0, [one.1] + rest.1)
  }

  ghost function Fresh(sv: Server, disk: map<nat, seq<byte>>, net: seq<Step>): (st: State)
    requires Valid(sv)
    ensures Shape(sv, st)
  {
    State(seq(Count(sv), _ => None), None, 0, 0, disk, net)
  }

  /** In every run, the `k`-th read, if it succeeds, returns the remote bytes, provided the server
      supports ranges or no earlier read failed on the network. */
  lemma {:induction false} RunsReturnRemoteBytes(sv: Server, st: State, reqs: seq<Req>, k: nat)
    requires Good(sv, st) && k < |reqs|
    requires sv.ranges || forall j :: 0 <= j < k ==> Serve(sv, st, reqs).1[j] != Err(Http)
    ensures var answer := Serve(sv, st, reqs).1[k];
            answer.Ok? ==>
              && reqs[k].offset + reqs[k].len <= |sv.body|
              && answer.value == sv.body[reqs[k].offset..reqs[k].offset + reqs[k].len]
    decreases |reqs|
  {
    hide ReadAt;
    var one := ReadAt(sv, st, reqs[0].offset, reqs[0].len);
    ReadReturnsRemoteBytes(sv, st, reqs[0].offset, reqs[0].len);
    if k > 0 {
      assert Serve(sv, st, reqs).1[0] == one.1;
      AnswerIsOneOf(sv, st, reqs[0].offset, reqs[0].len);
      assert forall j :: 0 <= j < k - 1 ==> Serve(sv, one.0, reqs[1..]).1[j] == Serve(sv, st, reqs).1[j + 1];
      RunsReturnRemoteBytes(sv, one.0, reqs[1..], k - 1);
    }
  }

  lemma AnswerIsOneOf(sv: Server, st: State, offset: nat, len: nat)
    requires Shape(sv, st)
    ensures var a := ReadAt(sv, st, offset, len).1; a.Ok? || a == Err(Http) || a == Err(OutOfBounds)
  {
    hide Quot, Rem, Count, Start, ChunkLen, EnsureAll;
  }

  lemma FreshIsGood(sv: Server, disk: map<nat, seq<byte>>, net: seq<Step>)
    requires Valid(sv) && HonestDisk(sv, disk)
    ensures Good(sv, Fresh(sv, disk, net))
  {
    hide Count, Start, ChunkLen;
  }

  /** Without that proviso a later read can succeed with the wrong bytes, and leave them in the
      disk cache under the right length: a stream that fails one byte into its first chunk is
      resumed from there. */
  lemma FailedStreamReadShiftsLaterChunks()
    ensures var sv := Server([1, 2, 3, 4], 2, false, true);
            var run := Serve(sv, Fresh(sv, map[], [Whole, Short(0), Fail]), [Req(0, 2), Req(0, 2)]);
            && run.1 == [Err(Http), Ok([2, 3])]
            && run.0.disk == map[0 := [2, 3]]
  {
    hide ReadAt;
    var sv := Server([1, 2, 3, 4], 2, false, true);
    var s0, reqs := Fresh(sv, map[], [Whole, Short(0), Fail]), [Req(0, 2), Req(0, 2)];
    var s1 := FirstReadFails(sv, s0);
    var s2 := SecondReadSucceeds(sv, s1);
    assert reqs[1..] == [Req(0, 2)] && reqs[1..][1..] == [];
    var tail := [Req(0, 2)];
    assert tail[1..] == [];
    assert Serve(sv, s2, tail[1..]) == (s2, []);
    assert Serve(sv, s1, tail).1 == [Ok([2, 3])];
    assert Serve(sv, s1, [Req(0, 2)]) == (s2, [Ok([2, 3])]);
  }

  lemma FirstReadFails(sv: Server, s0: State) returns (s1: State)
    requires sv == Server([1, 2, 3, 4], 2, false, true) && s0 == Fresh(sv, map[], [Whole, Short(0), Fail])
    ensures s1 == State([None, None], Some(1), 0, 0, map[], []) && Shape(sv, s1)
    ensures ReadAt(sv, s0, 0, 2) == (s1, Err(Http))
  {
    assert Count(sv) == 2 && s0.chunks == [None, None];
    s1 := State([None, None], Some(1), 0, 0, map[], []);
    var net := [Whole, Short(0), Fail];
    assert net[1..] == [Short(0), Fail] && net[1..][1..] == [Fail] && [Fail][1..] == [];
    assert ReadFull(4, 1, 1, [Fail]) == FullRead(false, 1, []);
    assert ReadFull(4, 0, 2, net[1..]) == FullRead(false, 1, []);
    assert StreamTo(sv, BeginStream(s0), 0) == (s1, false);
    assert Ensure(sv, s0, 0) == (s1, false);
    assert EnsureAll(sv, s0, 0, 0) == (s1, false);
  }

  lemma SecondReadSucceeds(sv: Server, s1: State) returns (s2: State)
    requires sv == Server([1, 2, 3, 4], 2, false, true)
    requires s1 == State([None, None], Some(1), 0, 0, map[], []) && Shape(sv, s1)
    ensures s2 == State([Some([2, 3]), None], Some(3), 1, 1, map[0 := [2, 3]], []) && Shape(sv, s2)
    ensures ReadAt(sv, s1, 0, 2) == (s2, Ok([2, 3]))
  {
    s2 := State([Some([2, 3]), None], Some(3), 1, 1, map[0 := [2, 3]], []);
    assert Count(sv) == 2 && ChunkLen(sv, 0) == 2;
    assert ReadFull(4, 1, 2, []) == FullRead(true, 3, []);
    assert sv.body[1..3] == [2, 3];
    assert StreamOne(sv, s1) == s2;
    assert StreamTo(sv, s2, 0) == (s2, true);
    assert StreamTo(sv, s1, 0) == (s2, true);
    assert Ensure(sv, s1, 0) == (s2, true);
    assert EnsureAll(sv, s2, 1, 0) == (s2, true);
    assert EnsureAll(sv, s1, 0, 0) == (s2, true);
    assert Quot(0, 2) == 0 && Quot(1, 2) == 0 && Rem(0, 2) == 0 && Rem(1, 2) == 1;
    assert ReadAt(sv, s1, 0, 2).1.value == [2, 3];
  }

  // ---- Laziness ----

  lemma {:induction false} StreamToIsLazy(sv: Server, st: State, idx: nat, i: nat)
    requires Shape(sv, st) && idx < Count(sv) && st.stream.Some?
    requires i < |st.chunks| && i > idx
    ensures StreamTo(sv, st, idx).0.chunks[i] == st.chunks[i]
    decreases idx + 1 - st.streamed
  {
    hide Count, Start, ChunkLen, ReadFull;
    if st.streamed <= idx {
      ChunkInside(sv, st.streamed);
      if ReadFull(|sv.body|, st.stream.value, ChunkLen(sv, st.streamed), st.net).ok {
        StreamToIsLazy(sv, StreamOne(sv, st), idx, i);
      }
    }
  }

  lemma EnsureIsLazy(sv: Server, st: State, idx: nat, i: nat)
    requires Shape(sv, st) && idx < Count(sv) && i < |st.chunks|
    requires i > idx || (i < idx && sv.ranges)
    ensures Ensure(sv, st, idx).0.chunks[i] == st.chunks[i]
  {
    hide Count, Start, ChunkLen, StreamTo, Head, Tail, Given;
    if !sv.ranges {
      StreamToIsLazy(sv, if st.stream.None? then BeginStream(st) else st, idx, i);
    }
  }

  lemma {:induction false} EnsureAllIsLazy(sv: Server, st: State, first: nat, last: nat, i: nat)
    requires Shape(sv, st) && last < Count(sv) && i < |st.chunks|
    requires i > last || (i < first && sv.ranges)
    ensures EnsureAll(sv, st, first, last).0.chunks[i] == st.chunks[i]
    decreases last + 1 - first
  {
    hide Count, Shape, Ensure;
    if first <= last {
      EnsureIsLazy(sv, st, first, i);
      if Ensure(sv, st, first).1 {
        EnsureAllIsLazy(sv, Ensure(sv, st, first).0, first + 1, last, i);
      }
    }
  }

  /** A read leaves alone every chunk behind the last one it touches and, with range support,
      every chunk before the first. */
  lemma ReadsAreLazy(sv: Server, st: State, offset: nat, len: nat, i: nat)
    requires Shape(sv, st) && i < |st.chunks| && 0 < len && offset + len <= |sv.body|
    requires i > Quot(offset + len - 1, sv.chunk) || (i < Quot(offset, sv.chunk) && sv.ranges)
    ensures ReadAt(sv, st, offset, len).0.chunks[i] == st.chunks[i]
  {
    hide Quot, Rem, Count, Start, ChunkLen, EnsureAll, Has;
    Locate(sv, offset + len - 1);
    EnsureAllIsLazy(sv, st, Quot(offset, sv.chunk), Quot(offset + len - 1, sv.chunk), i);
  }

  // ---- Reliable networks ----

  /** No answer is an error and, for ranged requests, none is short. */
  predicate Reliable(sv: Server, net: seq<Step>) {
    forall i :: 0 <= i < |net| ==> !net[i].Fail? && (sv.ranges ==> net[i].Whole?)
  }

  lemma {:induction false} ReliableReadFull(sv: Server, size: nat, pos: nat, want: nat, net: seq<Step>)
    requires Reliable(sv, net) && pos + want <= size
    ensures ReadFull(size, pos, want, net).ok && Reliable(sv, ReadFull(size, pos, want, net).net)
    decreases want
  {
    if want > 0 {
      var n := Given(Head(net), want, size - pos);
      ReliableReadFull(sv, size, pos + n, want - n, Tail(net));
    }
  }

  lemma {:induction false} ReliableStreamTo(sv: Server, st: State, idx: nat)
    requires Good(sv, st) && Reliable(sv, st.net) && idx < Count(sv) && st.stream.Some?
    ensures StreamTo(sv, st, idx).1 && Reliable(sv, StreamTo(sv, st, idx).0.net)
    decreases idx + 1 - st.streamed
  {
    hide Count, Start, ChunkLen, ReadFull, Reliable;
    if st.streamed <= idx {
      ChunkInside(sv, st.streamed);
      ReliableReadFull(sv, |sv.body|, st.stream.value, ChunkLen(sv, st.streamed), st.net);
      StreamOneKeepsGood(sv, st);
      ReliableStreamTo(sv, StreamOne(sv, st), idx);
    }
  }

  lemma ReliableEnsure(sv: Server, st: State, idx: nat)
    requires Good(sv, st) && Reliable(sv, st.net) && idx < Count(sv)
    ensures Ensure(sv, st, idx).1 && Reliable(sv, Ensure(sv, st, idx).0.net)
  {
    hide Count, Start, ChunkLen, StreamTo;
    ChunkInside(sv, idx);
    if !sv.ranges {
      var begun := if st.stream.None? then BeginStream(st) else st;
      ChunkInside(sv, 0);
      ReliableStreamTo(sv, begun, idx);
    }
  }

  lemma {:induction false} ReliableEnsureAll(sv: Server, st: State, first: nat, last: nat)
    requires Good(sv, st) && Reliable(sv, st.net) && last < Count(sv)
    ensures EnsureAll(sv, st, first, last).1
    decreases last + 1 - first
  {
    hide Count, Ensure, Reliable;
    if first <= last {
      ReliableEnsure(sv, st, first);
      EnsureKeepsGood(sv, st, first);
      ReliableEnsureAll(sv, Ensure(sv, st, first).0, first + 1, last);
    }
  }

  /** On a network that never fails, a read from a good state succeeds exactly when it is in bounds,
      however short the individual stream reads are. */
  lemma ReliableReadsSucceed(sv: Server, st: State, offset: nat, len: nat)
    requires Good(sv, st) && Reliable(sv, st.net)
    ensures ReadAt(sv, st, offset, len).1.Ok? <==> offset + len <= |sv.body|
  {
    hide Quot, Rem, Count, Start, ChunkLen, EnsureAll, Reliable;
    if offset + len <= |sv.body| && len > 0 {
      Locate(sv, offset + len - 1);
      ReliableEnsureAll(sv, st, Quot(offset, sv.chunk), Quot(offset + len - 1, sv.chunk));
    }
  }
}
