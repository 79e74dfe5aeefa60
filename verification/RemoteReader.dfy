/** The chunk-caching reader as the object it is: methods that update their fields and fill the
    caller's buffer, each equal to the transition in Remote. */
module RemoteDevice {
  import opened Common
  import opened Arith
  import opened Network
  import opened Remote

  class RemoteReader {
    const server: Server
    var chunks: seq<Option<seq<byte>>>
    var stream: Option<nat>
    var streamed: nat
    var downloaded: nat
    var disk: map<nat, seq<byte>>
    var net: seq<Step>

    ghost function Current(): State
      reads this
    {
      State(chunks, stream, streamed, downloaded, disk, net)
    }

    ghost predicate Valid()
      reads this
    {
      Shape(server, Current())
    }

    constructor (sv: Server, disk: map<nat, seq<byte>>, net: seq<Step>)
      requires Remote.Valid(sv)
      ensures Valid() && server == sv && Current() == Fresh(sv, disk, net)
    {
      hide Count;
      server := sv;
      chunks := seq(Count(sv), _ => None);
      stream, streamed, downloaded := None, 0, 0;
      this.disk, this.net := disk, net;
    }

    /** `RemoteReader::build`: an empty image is refused. */
    static method Build(sv: Server, disk: map<nat, seq<byte>>, net: seq<Step>) returns (r: Result<RemoteReader>)
      requires sv.chunk > 0
      ensures sv.body == [] ==> r == Err(Http)
      ensures sv.body != [] ==> r.Ok? && fresh(r.value) && r.value.Valid()
                                && r.value.server == sv && r.value.Current() == Fresh(sv, disk, net)
    {
      if sv.body == [] {
        return Err(Http);
      }
      var reader := new RemoteReader(sv, disk, net);
      return Ok(reader);
    }

    /** One `read` of the open stream into `buf[filled..]`. */
    method Read(buf: array<byte>, filled: nat) returns (n: nat)
      requires stream.Some? && stream.value <= |server.body| && filled < buf.Length
      modifies this`stream, this`net, buf
      ensures n == Given(Head(old(net)), buf.Length - filled, |server.body| - old(stream).value)
      ensures net == Tail(old(net)) && stream == Some(old(stream).value + n)
      ensures SameOutside(old(buf[..]), buf[..], filled, filled + n)
      ensures buf[filled..filled + n] == server.body[old(stream).value..stream.value]
    {
      var pos := stream.value;
      n := Given(Head(net), buf.Length - filled, |server.body| - pos);
      CopyInto(buf, filled, server.body[pos..pos + n]);
      stream := Some(pos + n);
      net := Tail(net);
    }

    /** `read_full`: fill the whole buffer from the open stream. */
    method FillBuffer(buf: array<byte>) returns (ok: bool)
      requires stream.Some? && stream.value <= |server.body|
      modifies this`stream, this`net, buf
      ensures var r := ReadFull(|server.body|, old(stream).value, buf.Length, old(net));
              ok == r.ok && stream == Some(r.pos) && net == r.net
      ensures ok ==> buf[..] == server.body[old(stream).value..stream.value]
    {
      hide Head, Tail, Given, SameOutside;
      var filled := 0;
      while filled < buf.Length
        invariant filled <= buf.Length && stream.Some? && stream.value <= |server.body|
        invariant stream.value == old(stream).value + filled
        invariant ReadFull(|server.body|, stream.value, buf.Length - filled, net)
                  == ReadFull(|server.body|, old(stream).value, buf.Length, old(net))
        invariant buf[0..filled] == server.body[old(stream).value..stream.value]
      {
        ghost var before := buf[..];
        var n := Read(buf, filled);
        if n == 0 {
          return false;
        }
        WriteExtends(before, buf[..], 0, filled, filled + n);
        filled := filled + n;
      }
      return true;
    }

    method Keep(idx: nat, data: seq<byte>)
      requires idx < |chunks|
      modifies this`chunks, this`downloaded, this`disk
      ensures Current() == Store(server, old(Current()), idx, data)
    {
      if server.caching {
        disk := disk[idx := data];
      }
      chunks := chunks[idx := Some(data)];
      downloaded := downloaded + 1;
    }

    /** Stream and keep every chunk up to and including `idx`. */
    method StreamUpTo(idx: nat) returns (ok: bool)
      requires Valid() && stream.Some? && idx < Count(server)
      modifies this
      ensures Valid()
      ensures (Current(), ok) == StreamTo(server, old(Current()), idx)
    {
      hide Count, Start, ChunkLen, ReadFull;
      while streamed <= idx
        invariant Valid() && stream.Some?
        invariant StreamTo(server, Current(), idx) == StreamTo(server, old(Current()), idx)
        decreases idx + 1 - streamed
      {
        ChunkInside(server, streamed);
        label Turn:
        var buf := new byte[ChunkLen(server, streamed)];
        ok := FillBuffer(buf);
        if !ok {
          return;
        }
        Keep(streamed, buf[..]);
        streamed := streamed + 1;
        assert Current() == StreamOne(server, old@Turn(Current()));
      }
      return true;
    }

    /** `ensure`. */
    method EnsureChunk(idx: nat) returns (ok: bool)
      requires Valid() && idx < Count(server)
      modifies this
      ensures Valid()
      ensures (Current(), ok) == Ensure(server, old(Current()), idx)
    {
      hide Count, Start, ChunkLen, StreamTo;
      if chunks[idx].Some? {
        return true;
      }
      ChunkInside(server, idx);
      var expected := ChunkLen(server, idx);
      if server.caching && idx in disk && |disk[idx]| == expected {
        chunks := chunks[idx := Some(disk[idx])];
        return true;
      }
      if server.ranges {
        var answer := Head(net);
        net := Tail(net);
        if Given(answer, expected, expected) != expected {
          return false;
        }
        Keep(idx, ChunkBytes(server, idx));
        return true;
      }
      if stream.None? {
        var answer := Head(net);
        net := Tail(net);
        if answer.Fail? {
          return false;
        }
        stream, streamed := Some(0), 0;
      }
      ok := StreamUpTo(idx);
    }

    /** `read_at` into `buf[lo..hi]`. */
    method ReadInto(offset: nat, buf: array<byte>, lo: nat, hi: nat) returns (r: Outcome)
      requires Valid() && lo <= hi <= buf.Length
      modifies this, buf
      ensures Valid()
      ensures SameOutside(old(buf[..]), buf[..], lo, hi)
      ensures var spec := ReadAt(server, old(Current()), offset, hi - lo);
              && Current() == spec.0
              && (r == Done ==> spec.1 == Ok(buf[lo..hi]))
              && (r.Failed? ==> spec.1 == Err(r.error))
    {
      hide Quot, Rem, Count, Start, ChunkLen, Has, EnsureAll;
      if offset + (hi - lo) > |server.body| {
        return Failed(OutOfBounds);
      }
      if lo == hi {
        assert buf[lo..hi] == [];
        return Done;
      }
      Locate(server, offset + (hi - lo) - 1);
      QuotMono(offset, offset + (hi - lo) - 1, server.chunk);
      var ok := EnsureRange(Quot(offset, server.chunk), Quot(offset + (hi - lo) - 1, server.chunk));
      if !ok {
        return Failed(Http);
      }
      HeldBytes(server, Current(), offset, hi - lo);
      CopyOut(offset, buf, lo, hi);
      assert buf[lo..hi] == Gather(server, chunks, offset, hi - lo);
      return Done;
    }

    method EnsureRange(first: nat, last: nat) returns (ok: bool)
      requires Valid() && first <= last < Count(server)
      modifies this
      ensures Valid()
      ensures (Current(), ok) == EnsureAll(server, old(Current()), first, last)
    {
      hide Count, Ensure, Grows, Shape;
      for idx := first to last + 1
        invariant Valid()
        invariant EnsureAll(server, Current(), idx, last) == EnsureAll(server, old(Current()), first, last)
      {
        ok := EnsureChunk(idx);
        if !ok {
          return;
        }
      }
      return true;
    }

    /** Copy the wanted bytes out of the chunks, one run per chunk. */
    method CopyOut(offset: nat, buf: array<byte>, lo: nat, hi: nat)
      requires Valid() && lo <= hi <= buf.Length && HasAll(server, chunks, offset, hi - lo)
      modifies buf
      ensures SameOutside(old(buf[..]), buf[..], lo, hi)
      ensures forall i :: lo <= i < hi ==> buf[i] == ByteAt(server, chunks, offset + (i - lo))
    {
      hide Quot, Rem, Count, Start;
      var done, pos := lo, offset;
      while done < hi
        invariant lo <= done <= hi && pos == offset + (done - lo)
        invariant SameOutside(old(buf[..]), buf[..], lo, hi)
        invariant forall i :: lo <= i < done ==> buf[..][i] == ByteAt(server, chunks, offset + (i - lo))
      {
        assert Has(server, chunks, pos);
        var chunk := chunks[Quot(pos, server.chunk)].value;
        var within := Rem(pos, server.chunk);
        var n := Min(|chunk| - within, hi - done);
        ghost var before := buf[..];
        CopyInto(buf, done, chunk[within..within + n]);
        SameOutsideWidens(before, buf[..], done, done + n, lo, hi);
        forall i | done <= i < done + n
          ensures buf[..][i] == ByteAt(server, chunks, offset + (i - lo))
        {
          StayInBlock(pos, i - done, server.chunk);
          assert buf[..][i] == buf[done..done + n][i - done];
        }
        assert forall i :: lo <= i < done ==> buf[..][i] == buf[..][..done][i] == before[..done][i];
        done, pos := done + n, pos + n;
      }
    }
  }
}
