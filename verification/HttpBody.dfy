/** Decoding an HTTP/1.1 response body as a stream of short reads (`BodyReader`, src/source/http.rs). */
module HttpBody {
  import opened Common
  import opened Network

  datatype Framing = Length | Chunked | ToEnd

  /** A body reader: the bytes the connection has yet to deliver, the network's script, and its own fields. */
  datatype Body = Body(wire: seq<byte>, net: seq<Step>, framing: Framing, left: nat, chunkLeft: nat, done: bool)

  /** Some bytes (none at the end), an error, or a loop that never comes back. */
  datatype Answer = Got(data: seq<byte>) | Broken | Spins

  const LF: byte := 10
  const CR: byte := 13
  const SEMICOLON: byte := 59

  predicate IsEol(c: byte) {
    c == LF || c == CR
  }

  predicate IsSpace(c: byte) {
    9 <= c <= 13 || c == 32
  }

  // ---- One read ----

  /** A read of the underlying connection. */
  function RawRead(b: Body, want: nat): (Body, Answer) {
    if Head(b.net).Fail? then (b.(net := Tail(b.net)), Broken)
    else
      var n := Given(Head(b.net), want, |b.wire|);
      (b.(wire := b.wire[n..], net := Tail(b.net)), Got(b.wire[..n]))
  }

  /** Length of the line that starts the wire, terminator included. */
  function LineLen(wire: seq<byte>): (n: nat)
    ensures n <= |wire| && (wire != [] ==> n > 0)
  {
    if wire == [] then 0
    else if wire[0] == LF then 1
    else 1 + LineLen(wire[1..])
  }

  function StripEol(line: seq<byte>): (s: seq<byte>)
    ensures s <= line
  {
    if line != [] && IsEol(line[|line| - 1]) then StripEol(line[..|line| - 1]) else line
  }

  /** Reading one line to its end, or stopping on an error behind the bytes that had arrived of it. */
  datatype LineEnd = Complete(wire: seq<byte>, net: seq<Step>) | Stopped(wire: seq<byte>, net: seq<Step>)

  /** `read_until` a line feed, in as many reads of the connection as it takes; a line without one
      ends with the stream. */
  function ReadLine(wire: seq<byte>, net: seq<Step>): (r: LineEnd)
    ensures |r.wire| <= |wire| && |r.net| <= |net| && (net != [] ==> |r.net| < |net|)
    ensures r.Complete? && wire != [] ==> |r.wire| < |wire|
    decreases |wire|
  {
    if Head(net).Fail? then Stopped(wire, Tail(net))
    else if wire == [] then Complete([], Tail(net))
    else
      var n := Given(Head(net), LineLen(wire), |wire|);
      if wire[n - 1] == LF then Complete(wire[n..], Tail(net)) else ReadLine(wire[n..], Tail(net))
  }

  datatype LineRead = Line(text: seq<byte>, wire: seq<byte>, net: seq<Step>) | LineFailed(wire: seq<byte>, net: seq<Step>) | NoLine

  /** The size-line loop: the first line that is not blank; NoLine when the end of the stream is
      read as yet another blank line, for ever. */
  function SizeLine(wire: seq<byte>, net: seq<Step>): LineRead
    decreases |wire| + |net|
  {
    if wire == [] && net == [] then NoLine
    else
      match ReadLine(wire, net)
      case Stopped(rest, later) => LineFailed(rest, later)
      case Complete(rest, later) =>
        var text := StripEol(wire[..LineLen(wire)]);
        if text != [] then Line(text, rest, later) else SizeLine(rest, later)
  }

  function BeforeSemicolon(s: seq<byte>): seq<byte> {
    if s == [] || s[0] == SEMICOLON then [] else [s[0]] + BeforeSemicolon(s[1..])
  }

  function TrimStart(s: seq<byte>): seq<byte> {
    if s != [] && IsSpace(s[0]) then TrimStart(s[1..]) else s
  }

  function TrimEnd(s: seq<byte>): seq<byte> {
    if s != [] && IsSpace(s[|s| - 1]) then TrimEnd(s[..|s| - 1]) else s
  }

  function HexDigit(c: byte): Option<nat> {
    if 48 <= c <= 57 then Some(c - 48)
    else if 65 <= c <= 70 then Some(c - 55)
    else if 97 <= c <= 102 then Some(c - 87)
    else None
  }

  predicate IsHex(s: seq<byte>) {
    forall c :: c in s ==> HexDigit(c).Some?
  }

  function HexValue(s: seq<byte>): nat
    requires IsHex(s)
  {
    if s == [] then 0 else 16 * HexValue(s[..|s| - 1]) + HexDigit(s[|s| - 1]).value
  }

  /** `u64::from_str_radix(_, 16)`: an optional plus sign, then at least one digit, below 2^64. */
  function ParseSize(s: seq<byte>): Option<nat> {
    var digits := if s != [] && s[0] == 43 then s[1..] else s;
    if digits != [] && IsHex(digits) && HexValue(digits) < 0x1_0000_0000_0000_0000 then Some(HexValue(digits)) else None
  }

  function LineSize(text: seq<byte>): Option<nat> {
    ParseSize(TrimStart(TrimEnd(BeforeSemicolon(text))))
  }

  function FromChunk(b: Body, want: nat): (Body, Answer) {
    var r := RawRead(b, Min(want, b.chunkLeft));
    if r.1.Got? then (r.0.(chunkLeft := SaturatingSub(b.chunkLeft, |r.1.data|)), r.1) else r
  }

  function ReadChunked(b: Body, want: nat): (Body, Answer) {
    if b.chunkLeft > 0 then FromChunk(b, want)
    else
      match SizeLine(b.wire, b.net)
      case NoLine => (b.(wire := [], net := []), Spins)
      case LineFailed(wire, net) => (b.(wire := wire, net := net), Broken)
      case Line(text, wire, net) =>
        var after := b.(wire := wire, net := net);
        match LineSize(text)
        case None => (after, Broken)
        case Some(size) =>
          if size == 0 then (after.(done := true), Got([])) else FromChunk(after.(chunkLeft := size), want)
  }

  /** `BodyReader::read` into a buffer of `want` bytes. */
  function Read(b: Body, want: nat): (Body, Answer) {
    if b.done || want == 0 then (b, Got([]))
    else
      match b.framing
      case Length =>
        if b.left == 0 then (b.(done := true), Got([]))
        else
          var r := RawRead(b, Min(want, b.left));
          if !r.1.Got? then r
          else (r.0.(left := SaturatingSub(b.left, |r.1.data|), done := r.1.data == []), r.1)
      case ToEnd =>
        var r := RawRead(b, want);
        if !r.1.Got? then r else (r.0.(done := r.1.data == []), r.1)
      case Chunked => ReadChunked(b, want)
  }

  // ---- The chunked coding (section 7.1 of RFC 9112) ----

  /** A chunk as a sender may spell it: any hexadecimal spelling of the length, padding, an extension. */
  datatype Chunk = Chunk(size: seq<byte>, pad: seq<byte>, ext: seq<byte>, data: seq<byte>)

  predicate ValidLine(size: seq<byte>, pad: seq<byte>, ext: seq<byte>, value: nat) {
    && size != [] && IsHex(size) && HexValue(size) == value && value < 0x1_0000_0000_0000_0000
    && (forall c :: c in pad ==> c == 32 || c == 9)
    && (ext != [] ==> ext[0] == SEMICOLON)
    && LF !in ext
  }

  predicate ValidChunk(c: Chunk) {
    c.data != [] && ValidLine(c.size, c.pad, c.ext, |c.data|)
  }

  predicate ValidLast(c: Chunk) {
    c.data == [] && ValidLine(c.size, c.pad, c.ext, 0)
  }

  predicate ValidCoding(chunks: seq<Chunk>, last: Chunk) {
    (forall i :: 0 <= i < |chunks| ==> ValidChunk(chunks[i])) && ValidLast(last)
  }

  const CRLF: seq<byte> := [CR, LF]

  function HeadLine(c: Chunk): seq<byte> {
    c.size + c.pad + c.ext + CRLF
  }

  /** The chunks, each data part followed by a line end, then the last chunk's line and whatever follows it. */
  function Encode(chunks: seq<Chunk>, last: Chunk, tail: seq<byte>): seq<byte> {
    if chunks == [] then HeadLine(last) + tail
    else HeadLine(chunks[0]) + (chunks[0].data + (CRLF + Encode(chunks[1..], last, tail)))
  }

  function Payload(chunks: seq<Chunk>): seq<byte> {
    if chunks == [] then [] else chunks[0].data + Payload(chunks[1..])
  }

  // ---- Parsing a size line undoes writing it ----

  lemma {:induction false} LineLenStops(text: seq<byte>, rest: seq<byte>)
    requires LF !in text
    ensures LineLen(text + [LF] + rest) == |text| + 1
  {
    var w := text + [LF] + rest;
    if text != [] {
      assert w[1..] == text[1..] + [LF] + rest;
      LineLenStops(text[1..], rest);
    }
  }

  lemma {:induction false} StripEolKeepsHead(head: seq<byte>, tail: seq<byte>)
    requires head != [] && !IsEol(head[|head| - 1])
    ensures StripEol(head + tail) == head + StripEol(tail)
  {
    var s := head + tail;
    if tail != [] && IsEol(tail[|tail| - 1]) {
      assert s[..|s| - 1] == head + tail[..|tail| - 1];
      StripEolKeepsHead(head, tail[..|tail| - 1]);
    } else if tail == [] {
      assert s == head;
    }
  }

  lemma {:induction false} BeforeSemicolonSplits(head: seq<byte>, tail: seq<byte>)
    requires SEMICOLON !in head && (tail != [] ==> tail[0] == SEMICOLON)
    ensures BeforeSemicolon(head + tail) == head
  {
    if head != [] {
      assert (head + tail)[1..] == head[1..] + tail;
      BeforeSemicolonSplits(head[1..], tail);
    } else {
      assert head + tail == tail;
    }
  }

  lemma {:induction false} TrimDropsPad(size: seq<byte>, pad: seq<byte>)
    requires size != [] && !IsSpace(size[|size| - 1]) && forall c :: c in pad ==> IsSpace(c)
    ensures TrimEnd(size + pad) == size
  {
    if pad != [] {
      assert (size + pad)[..|size + pad| - 1] == size + pad[..|pad| - 1];
      TrimDropsPad(size, pad[..|pad| - 1]);
    } else {
      assert size + pad == size;
    }
  }

  lemma SizeLineEnds(c: Chunk, value: nat, rest: seq<byte>)
    requires ValidLine(c.size, c.pad, c.ext, value)
    ensures LineLen(HeadLine(c) + rest) == |HeadLine(c)|
  {
    hide LineLen;
    var text := c.size + c.pad + c.ext + [CR];
    assert HeadLine(c) + rest == text + [LF] + rest;
    assert LF !in text by {
      assert forall d :: d in text ==> d in c.size || d in c.pad || d in c.ext || d == CR;
    }
    LineLenStops(text, rest);
  }

  predicate Blank(line: seq<byte>) {
    forall c :: c in line ==> IsEol(c)
  }

  lemma ExtensionShrinks(ext: seq<byte>, eol: seq<byte>)
    requires (ext != [] ==> ext[0] == SEMICOLON) && Blank(eol)
    ensures var s := StripEol(ext + eol); s != [] ==> s[0] == SEMICOLON
  {
    if ext == [] {
      assert ext + eol == eol;
      StripEolEmptyIffBlank(eol);
    } else {
      StripEolKeepsHead(ext[..1], ext[1..] + eol);
      assert ext + eol == ext[..1] + (ext[1..] + eol);
    }
  }

  /** A size with its padding and extension is understood, whatever there is of the line end. */
  lemma SpelledSize(size: seq<byte>, pad: seq<byte>, ext: seq<byte>, eol: seq<byte>, value: nat)
    requires ValidLine(size, pad, ext, value) && Blank(eol)
    ensures var text := StripEol(size + pad + ext + eol); text != [] && LineSize(text) == Some(value)
  {
    hide StripEol, BeforeSemicolon, TrimEnd, Blank;
    var front := size + pad;
    assert front + ext + eol == front + (ext + eol);
    assert front[|front| - 1] in size || front[|front| - 1] in pad;
    StripEolKeepsHead(front, ext + eol);
    ExtensionShrinks(ext, eol);
    assert SEMICOLON !in front by {
      assert forall d :: d in front ==> d in size || d in pad;
    }
    BeforeSemicolonSplits(front, StripEol(ext + eol));
    assert size[0] in size && size[|size| - 1] in size;
    TrimDropsPad(size, pad);
  }

  lemma SizeLineIsUnderstood(c: Chunk, value: nat, rest: seq<byte>)
    requires ValidLine(c.size, c.pad, c.ext, value)
    ensures LineLen(HeadLine(c) + rest) == |HeadLine(c)|
    ensures HeadLine(c) != [] && StripEol(HeadLine(c)) != [] && LineSize(StripEol(HeadLine(c))) == Some(value)
  {
    hide StripEol, LineLen, LineSize, ValidLine;
    SizeLineEnds(c, value, rest);
    SpelledSize(c.size, c.pad, c.ext, CRLF, value);
  }

  lemma NoFailTail(net: seq<Step>)
    requires NeverFails(net)
    ensures !Head(net).Fail? && NeverFails(Tail(net))
  {
  }

  lemma {:induction false} LineLenSplits(wire: seq<byte>, n: nat)
    requires 0 < n <= LineLen(wire)
    ensures wire[n - 1] == LF ==> n == LineLen(wire)
    ensures wire[n - 1] != LF ==> LineLen(wire[n..]) == LineLen(wire) - n
  {
    if n > 1 {
      LineLenSplits(wire[1..], n - 1);
      assert wire[1..][n - 1..] == wire[n..];
    }
  }

  /** One read of a line. */
  lemma LineTurn(wire: seq<byte>, net: seq<Step>)
    ensures Head(net).Fail? ==> ReadLine(wire, net) == Stopped(wire, Tail(net))
    ensures !Head(net).Fail? && wire == [] ==> ReadLine(wire, net) == Complete([], Tail(net))
    ensures !Head(net).Fail? && wire != [] ==>
              var n := Given(Head(net), LineLen(wire), |wire|);
              && 0 < n <= LineLen(wire)
              && (wire[n - 1] == LF ==> n == LineLen(wire) && ReadLine(wire, net) == Complete(wire[n..], Tail(net)))
              && (wire[n - 1] != LF ==>
                    LineLen(wire[n..]) == LineLen(wire) - n && ReadLine(wire, net) == ReadLine(wire[n..], Tail(net)))
  {
    hide LineLen;
    if !Head(net).Fail? && wire != [] {
      LineLenSplits(wire, Given(Head(net), LineLen(wire), |wire|));
    }
  }

  /** Without errors a line is read to its end, however short the reads are. */
  lemma {:induction false} LineCompletes(wire: seq<byte>, net: seq<Step>)
    requires NeverFails(net)
    ensures var r := ReadLine(wire, net);
            r.Complete? && r.wire == wire[LineLen(wire)..] && NeverFails(r.net)
    decreases |wire|
  {
    hide NeverFails, LineLen;
    NoFailTail(net);
    if wire != [] {
      var n := Given(Head(net), LineLen(wire), |wire|);
      LineLenSplits(wire, n);
      if wire[n - 1] != LF {
        LineCompletes(wire[n..], Tail(net));
        assert wire[n..][LineLen(wire) - n..] == wire[LineLen(wire)..];
      }
    } else {
      EmptyLine();
    }
  }

  lemma EmptyLine()
    ensures LineLen([]) == 0
  {
  }

  /** The loop's first turn without errors. */
  lemma FirstLine(wire: seq<byte>, net: seq<Step>) returns (later: seq<Step>)
    requires NeverFails(net) && wire != []
    ensures var n := LineLen(wire); var text := StripEol(wire[..n]);
            && NeverFails(later)
            && SizeLine(wire, net) == if text != [] then Line(text, wire[n..], later) else SizeLine(wire[n..], later)
  {
    hide LineLen, StripEol, NeverFails, ReadLine;
    LineCompletes(wire, net);
    later := ReadLine(wire, net).net;
  }

  /** The line end owed by the previous chunk is skipped as a blank line. */
  lemma BlankLineIsSkipped(wire: seq<byte>, net: seq<Step>) returns (later: seq<Step>)
    requires NeverFails(net)
    ensures NeverFails(later) && SizeLine(CRLF + wire, net) == SizeLine(wire, later)
  {
    hide SizeLine, NeverFails, StripEol, LineLen;
    var all := CRLF + wire;
    LineLenStops([CR], wire);
    assert all == [CR] + [LF] + wire;
    assert all[..2] == CRLF && all[2..] == wire;
    StripEolEmptyIffBlank(CRLF);
    later := FirstLine(all, net);
  }

  /** The next size line on the wire, with or without the line end of the chunk before it. */
  lemma NextSizeLine(crlf: bool, c: Chunk, value: nat, rest: seq<byte>, net: seq<Step>)
    requires ValidLine(c.size, c.pad, c.ext, value) && NeverFails(net)
    ensures var line := SizeLine((if crlf then CRLF else []) + (HeadLine(c) + rest), net);
            line.Line? && LineSize(line.text) == Some(value) && line.wire == rest && NeverFails(line.net)
  {
    hide LineSize, StripEol, LineLen, HeadLine, NeverFails, ValidLine, SizeLine;
    SizeLineIsUnderstood(c, value, rest);
    var wire := HeadLine(c) + rest;
    assert wire[..|HeadLine(c)|] == HeadLine(c) && wire[|HeadLine(c)|..] == rest;
    var later := net;
    if crlf {
      later := BlankLineIsSkipped(wire, net);
    } else {
      assert [] + wire == wire;
    }
    var last := FirstLine(wire, later);
  }

  // ---- Sizes as numbers ----

  /** `n` in hexadecimal with the given sixteen digits. */
  function SpellHex(n: nat, digits: string): (s: seq<byte>)
    requires |digits| == 16 && forall i :: 0 <= i < 16 ==> (digits[i] as int) < 128
    ensures s != []
  {
    if n < 16 then [digits[n] as int] else SpellHex(n / 16, digits) + [digits[n % 16] as int]
  }

  const LOWER: string := "0123456789abcdef"
  const UPPER: string := "0123456789ABCDEF"

  lemma DigitIsRead(d: nat)
    requires d < 16
    ensures HexDigit(LOWER[d] as int) == Some(d) && HexDigit(UPPER[d] as int) == Some(d)
  {
  }

  lemma {:induction false} SpellingIsRead(n: nat, digits: string)
    requires |digits| == 16 && forall i :: 0 <= i < 16 ==> (digits[i] as int) < 128 && HexDigit(digits[i] as int) == Some(i)
    ensures IsHex(SpellHex(n, digits)) && HexValue(SpellHex(n, digits)) == n
  {
    hide HexDigit;
    var s := SpellHex(n, digits);
    if n < 16 {
      assert s[..0] == [];
    } else {
      SpellingIsRead(n / 16, digits);
      assert s[..|s| - 1] == SpellHex(n / 16, digits);
    }
  }

  /** A size is the number its hexadecimal digits spell, in lower or upper case. */
  lemma SizeRoundTrip(n: nat, upper: bool)
    requires n < 0x1_0000_0000_0000_0000
    ensures ParseSize(SpellHex(n, if upper then UPPER else LOWER)) == Some(n)
  {
    hide HexDigit, SpellHex, HexValue;
    var digits := if upper then UPPER else LOWER;
    forall i | 0 <= i < 16
      ensures HexDigit(digits[i] as int) == Some(i)
    {
      DigitIsRead(i);
    }
    SpellingIsRead(n, digits);
    PlusIsNoDigit();
    assert SpellHex(n, digits)[0] in SpellHex(n, digits);
  }

  lemma PlusIsNoDigit()
    ensures HexDigit(43) == None
  {
  }

  // ---- What a reader has yet to yield ----

  /** The rest of a chunked body: `cur` of the current chunk, the line end owed by a chunk, further chunks. */
  datatype Rest = Rest(cur: seq<byte>, crlf: bool, chunks: seq<Chunk>, last: Chunk, tail: seq<byte>)

  function WireOf(r: Rest): seq<byte> {
    r.cur + ((if r.crlf then CRLF else []) + Encode(r.chunks, r.last, r.tail))
  }

  ghost predicate Carries(b: Body, r: Rest) {
    && b.wire == WireOf(r) && b.chunkLeft == |r.cur|
    && (r.cur != [] ==> r.crlf)
    && ValidCoding(r.chunks, r.last)
  }

  /** The reader will yield exactly `payload`. */
  ghost predicate Yields(b: Body, payload: seq<byte>) {
    if b.done then payload == []
    else
      match b.framing
      case Length => payload == b.wire[..Min(b.left, |b.wire|)]
      case ToEnd => payload == b.wire
      case Chunked => exists r :: Carries(b, r) && payload == r.cur + Payload(r.chunks)
  }

  /** A body that has just been opened on a chunked message yields the payload. */
  lemma FreshChunked(chunks: seq<Chunk>, last: Chunk, tail: seq<byte>, net: seq<Step>)
    requires ValidCoding(chunks, last)
    ensures Yields(Body(Encode(chunks, last, tail), net, Chunked, 0, 0, false), Payload(chunks))
  {
    var r := Rest([], false, chunks, last, tail);
    var b := Body(Encode(chunks, last, tail), net, Chunked, 0, 0, false);
    assert WireOf(r) == Encode(chunks, last, tail);
    assert Carries(b, r) && Payload(chunks) == r.cur + Payload(r.chunks);
  }

  /** What one read has to do for a reader that yields `payload`. */
  ghost predicate GoodStep(b: Body, payload: seq<byte>, want: nat, b': Body, a: Answer) {
    && a.Got? && |a.data| <= want && a.data <= payload
    && (payload != [] ==> a.data != [])
    && (payload == [] ==> b'.done)
    && b'.framing == b.framing && NeverFails(b'.net)
    && Yields(b', payload[|a.data|..])
  }

  lemma ChunkStep(b: Body, r: Rest, want: nat)
    requires Carries(b, r) && b.framing.Chunked? && !b.done && r.cur != [] && want > 0 && NeverFails(b.net)
    ensures GoodStep(b, r.cur + Payload(r.chunks), want, FromChunk(b, want).0, FromChunk(b, want).1)
  {
    NoFailTail(b.net);
    var n := Given(Head(b.net), Min(want, |r.cur|), |b.wire|);
    var b' := FromChunk(b, want).0;
    var r' := r.(cur := r.cur[n..]);
    var payload := r.cur + Payload(r.chunks);
    assert b.wire[..n] == r.cur[..n] == payload[..n];
    assert b'.wire == WireOf(r');
    assert Carries(b', r') && payload[n..] == r'.cur + Payload(r'.chunks);
  }

  lemma ChunkedStep(b: Body, payload: seq<byte>, want: nat)
    requires b.framing.Chunked? && !b.done && Yields(b, payload) && want > 0 && NeverFails(b.net)
    ensures GoodStep(b, payload, want, ReadChunked(b, want).0, ReadChunked(b, want).1)
  {
    hide SizeLine, LineSize, HeadLine, ValidLine, FromChunk, NeverFails;
    var r :| Carries(b, r) && payload == r.cur + Payload(r.chunks);
    if r.cur != [] {
      ChunkStep(b, r, want);
    } else if r.chunks == [] {
      assert b.wire == (if r.crlf then CRLF else []) + (HeadLine(r.last) + r.tail);
      NextSizeLine(r.crlf, r.last, 0, r.tail, b.net);
    } else {
      var c, rest := r.chunks[0], Rest(r.chunks[0].data, true, r.chunks[1..], r.last, r.tail);
      assert WireOf(rest) == c.data + (CRLF + Encode(r.chunks[1..], r.last, r.tail));
      assert b.wire == (if r.crlf then CRLF else []) + (HeadLine(c) + WireOf(rest));
      NextSizeLine(r.crlf, c, |c.data|, WireOf(rest), b.net);
      var line := SizeLine(b.wire, b.net);
      var after := b.(wire := line.wire, net := line.net, chunkLeft := |c.data|);
      assert Carries(after, rest);
      assert payload == rest.cur + Payload(rest.chunks);
      ChunkStep(after, rest, want);
      assert ReadChunked(b, want) == FromChunk(after, want);
    }
  }

  /** One read of any body, under any answer the network gives short of an error: it hands out the
      next bytes of what the reader yields, at least one while there are any. */
  lemma ReadStep(b: Body, payload: seq<byte>, want: nat)
    requires Yields(b, payload) && want > 0 && NeverFails(b.net)
    ensures GoodStep(b, payload, want, Read(b, want).0, Read(b, want).1)
  {
    NoFailTail(b.net);
    if !b.done && b.framing.Chunked? {
      ChunkedStep(b, payload, want);
    } else if !b.done && !(b.framing.Length? && b.left == 0) {
      var ask := if b.framing.Length? then Min(want, b.left) else want;
      var n := Given(Head(b.net), ask, |b.wire|);
      assert b.wire[..n] == payload[..n];
      assert Yields(Read(b, want).0, payload[n..]);
    }
  }

  // ---- Runs of reads ----

  /** The answers to reads with buffers of the given sizes, one after the other. */
  function ReadMany(b: Body, wants: seq<nat>): (Body, seq<Answer>)
    decreases |wants|
  {
    if wants == [] then (b, [])
    else
      var one := Read(b, wants[0]);
      var rest := ReadMany(one.0, wants[1..]);
      (rest.0, [one.1] + rest.1)
  }

  function Joined(answers: seq<Answer>): seq<byte> {
    if answers == [] then []
    else (if answers[0].Got? then answers[0].data else []) + Joined(answers[1..])
  }

  /** For every schedule of short reads and buffer sizes the answers join up to a prefix of the
      payload, and to all of it once one of them is empty or there were as many as payload bytes. */
  lemma {:induction false} ReadsYieldPayload(b: Body, payload: seq<byte>, wants: seq<nat>)
    requires Yields(b, payload) && NeverFails(b.net) && forall i :: 0 <= i < |wants| ==> wants[i] > 0
    ensures var answers := ReadMany(b, wants).1;
            && |answers| == |wants|
            && (forall i :: 0 <= i < |answers| ==> answers[i].Got?)
            && Joined(answers) <= payload
            && (Got([]) in answers || |wants| >= |payload| ==> Joined(answers) == payload)
    decreases |wants|
  {
    hide Yields, Read, NeverFails;
    if wants != [] {
      var one := Read(b, wants[0]);
      ReadStep(b, payload, wants[0]);
      var rest := payload[|one.1.data|..];
      ReadsYieldPayload(one.0, rest, wants[1..]);
      var answers, more := ReadMany(b, wants).1, ReadMany(one.0, wants[1..]).1;
      assert answers == [one.1] + more && answers[1..] == more;
      assert payload == one.1.data + rest;
    }
  }

  /** Once the payload is out, every further read answers with nothing. */
  lemma {:induction false} NothingFollows(b: Body, wants: seq<nat>)
    requires Yields(b, []) && NeverFails(b.net) && forall i :: 0 <= i < |wants| ==> wants[i] > 0
    ensures forall a :: a in ReadMany(b, wants).1 ==> a == Got([])
    decreases |wants|
  {
    hide Yields, Read, NeverFails;
    if wants != [] {
      var one := Read(b, wants[0]);
      ReadStep(b, [], wants[0]);
      assert one.1 == Got([]);
      NothingFollows(one.0, wants[1..]);
    }
  }

  // ---- read_full ----

  datatype Full = Full(body: Body, result: Option<seq<byte>>) | FullSpins

  /** A `read_full` that has already put `have` into the buffer. */
  function After(have: seq<byte>, rest: Full): Full {
    match rest
    case FullSpins => FullSpins
    case Full(b, r) => Full(b, if r.Some? then Some(have + r.value) else None)
  }

  /** `read_full` for `n` bytes. */
  function ReadFull(b: Body, n: nat): Full
    decreases n
  {
    if n == 0 then Full(b, Some([]))
    else
      var one := Read(b, n);
      match one.1
      case Spins => FullSpins
      case Broken => Full(one.0, None)
      case Got(data) =>
        if data == [] || |data| > n then Full(one.0, None) else After(data, ReadFull(one.0, n - |data|))
  }

  /** `read_full` returns exactly the next `n` bytes of the payload, or fails when there are fewer. */
  lemma {:induction false} ReadFullTakesPrefix(b: Body, payload: seq<byte>, n: nat)
    requires Yields(b, payload) && NeverFails(b.net)
    ensures var r := ReadFull(b, n);
            && r.Full?
            && r.result == (if n <= |payload| then Some(payload[..n]) else None)
            && (n <= |payload| ==> Yields(r.body, payload[n..]) && NeverFails(r.body.net))
    decreases n
  {
    hide Yields, Read, NeverFails;
    if n == 0 {
      assert payload[..0] == [] && payload[0..] == payload;
    } else {
      var one := Read(b, n);
      ReadStep(b, payload, n);
      var k := |one.1.data|;
      if k > 0 {
        ReadFullTakesPrefix(one.0, payload[k..], n - k);
        if n <= |payload| {
          assert one.1.data + payload[k..][..n - k] == payload[..n];
          assert payload[k..][n - k..] == payload[n..];
        }
      }
    }
  }

  // ---- Messages that break off ----

  lemma {:induction false} StripEolEmptyIffBlank(line: seq<byte>)
    ensures StripEol(line) == [] <==> Blank(line)
  {
    if line != [] {
      var init := line[..|line| - 1];
      assert line == init + [line[|line| - 1]];
      StripEolEmptyIffBlank(init);
    }
  }

  lemma {:induction false} NothingToRead(net: seq<Step>)
    requires NeverFails(net)
    ensures SizeLine([], net) == NoLine
  {
    NoFailTail(net);
    if net != [] {
      NothingToRead(Tail(net));
    }
  }

  /** The size-line loop never comes back exactly when the stream holds nothing but line ends. */
  lemma {:induction false} SizeLineSpinsIffBlank(wire: seq<byte>, net: seq<Step>)
    requires NeverFails(net)
    ensures SizeLine(wire, net).NoLine? <==> Blank(wire)
    decreases |wire|
  {
    hide SizeLine, NeverFails, StripEol;
    if wire == [] {
      NothingToRead(net);
    } else {
      var n := LineLen(wire);
      var later := FirstLine(wire, net);
      StripEolEmptyIffBlank(wire[..n]);
      SizeLineSpinsIffBlank(wire[n..], later);
      assert wire == wire[..n] + wire[n..];
    }
  }

  /** One read never comes back exactly when a chunk's size is due and only line ends are left. */
  lemma ReadSpinsIff(b: Body, want: nat)
    requires want > 0 && NeverFails(b.net)
    ensures Read(b, want).1.Spins? <==> b.framing.Chunked? && !b.done && b.chunkLeft == 0 && Blank(b.wire)
  {
    hide SizeLine, LineSize, NeverFails, Blank;
    SizeLineSpinsIffBlank(b.wire, b.net);
  }

  /** Cutting the rest of a body behind `m` bytes cuts it right behind a chunk's data, within the line
      end after that, or where the size of the first chunk is due. */
  predicate CutWhereSizeIsDue(r: Rest, m: nat)
    decreases |r.chunks|
  {
    var eol, n := if r.crlf then 2 else 0, |r.cur|;
    if m < n then false
    else if m <= n + eol then true
    else
      r.chunks != [] &&
      var head := n + eol + |HeadLine(r.chunks[0])|;
      m >= head && CutWhereSizeIsDue(Rest(r.chunks[0].data, true, r.chunks[1..], r.last, r.tail), m - head)
  }

  /** A reader on the first `m` bytes of what `r` has yet to deliver. */
  ghost predicate CarriesCut(b: Body, r: Rest, m: nat) {
    && m <= |WireOf(r)| && b.wire == WireOf(r)[..m] && b.chunkLeft == |r.cur|
    && (r.cur != [] ==> r.crlf) && ValidCoding(r.chunks, r.last)
    && b.framing.Chunked? && !b.done && NeverFails(b.net)
  }

  /** What one read of a cut body has to do: hand out data and go on, or stop: for ever where a size
      is due, as at a clean end anywhere else. */
  ghost predicate CutStep(r: Rest, m: nat, want: nat, b': Body, a: Answer, r': Rest, m': nat) {
    if a.Got? && a.data != [] then
      && |a.data| <= want && m' < m && CarriesCut(b', r', m')
      && a.data + (r'.cur + Payload(r'.chunks)) == r.cur + Payload(r.chunks)
      && (CutWhereSizeIsDue(r', m') <==> CutWhereSizeIsDue(r, m))
    else a == if CutWhereSizeIsDue(r, m) then Spins else Got([])
  }

  lemma TakeData(r: Rest, m: nat, n: nat)
    requires n <= |r.cur| && n <= m <= |WireOf(r)|
    ensures var r' := r.(cur := r.cur[n..]);
            && |WireOf(r')| == |WireOf(r)| - n && WireOf(r)[..m][n..] == WireOf(r')[..m - n]
            && WireOf(r)[..m][..n] == r.cur[..n]
            && (CutWhereSizeIsDue(r', m - n) <==> CutWhereSizeIsDue(r, m))
            && r.cur[..n] + (r'.cur + Payload(r.chunks)) == r.cur + Payload(r.chunks)
  {
    hide HeadLine, Encode, Payload;
    var whole, r' := WireOf(r), r.(cur := r.cur[n..]);
    assert whole[n..] == WireOf(r');
    assert whole[..m][n..] == whole[n..][..m - n];
  }

  lemma CutInData(b: Body, r: Rest, m: nat, want: nat) returns (r': Rest, m': nat)
    requires CarriesCut(b, r, m) && r.cur != [] && want > 0
    ensures CutStep(r, m, want, FromChunk(b, want).0, FromChunk(b, want).1, r', m')
  {
    hide WireOf, ValidCoding, NeverFails, Payload, CutWhereSizeIsDue;
    NoFailTail(b.net);
    var n := Given(Head(b.net), Min(want, |r.cur|), |b.wire|);
    r', m' := r.(cur := r.cur[n..]), m - n;
    TakeData(r, m, n);
    if n == 0 {
      NotDueInData(r);
    }
  }

  lemma NotDueInData(r: Rest)
    requires r.cur != []
    ensures !CutWhereSizeIsDue(r, 0)
  {
  }

  lemma PartsAreValid(c: Chunk, value: nat, size: seq<byte>, pad: seq<byte>, ext: seq<byte>)
    requires ValidLine(c.size, c.pad, c.ext, value) && size <= c.size && size != [] && pad <= c.pad && ext <= c.ext
    ensures IsHex(size) && HexValue(size) <= value && ValidLine(size, pad, ext, HexValue(size))
  {
    hide HexValue, IsHex;
    HexOfPart(c.size, |size|);
    assert size == c.size[..|size|];
    assert forall d :: d in pad ==> d in c.pad;
    assert forall d :: d in ext ==> d in c.ext;
  }

  lemma LineHasNoLineFeed(size: seq<byte>, pad: seq<byte>, ext: seq<byte>, eol: seq<byte>, value: nat)
    requires ValidLine(size, pad, ext, value) && eol <= [CR]
    ensures LF !in size + pad + ext + eol
  {
    hide HexValue;
    var part := size + pad + ext + eol;
    assert forall d :: d in part ==> d in size || d in pad || d in ext || d in eol;
  }

  /** Part of a valid size line is read as a line of its own, with a size no larger. */
  lemma PartOfLine(c: Chunk, value: nat, part: seq<byte>)
    requires ValidLine(c.size, c.pad, c.ext, value) && part < HeadLine(c) && part != []
    ensures LineLen(part) == |part| && StripEol(part) != []
    ensures LineSize(StripEol(part)).Some? && LineSize(StripEol(part)).value <= value
  {
    hide StripEol, LineLen, LineSize, ValidLine, HexValue, IsHex, HeadLine;
    LineIsSpelled(c, value);
    var size, pad, ext, eol := TakeLine(c, part);
    PartsAreValid(c, value, size, pad, ext);
    LineHasNoLineFeed(size, pad, ext, eol, HexValue(size));
    NoLineFeed(part);
    SpelledSize(size, pad, ext, eol, HexValue(size));
  }

  lemma LineIsSpelled(c: Chunk, value: nat)
    requires ValidLine(c.size, c.pad, c.ext, value)
    ensures c.size != []
  {
  }

  lemma {:induction false} NoLineFeed(part: seq<byte>)
    requires LF !in part
    ensures LineLen(part) == |part|
  {
    if part != [] {
      NoLineFeed(part[1..]);
    }
  }

  lemma {:induction false} HexOfPart(s: seq<byte>, n: nat)
    requires IsHex(s) && n <= |s|
    ensures IsHex(s[..n]) && HexValue(s[..n]) <= HexValue(s)
  {
    if n < |s| {
      HexOfPart(s[..|s| - 1], n);
      assert s[..|s| - 1][..n] == s[..n];
    } else {
      assert s[..n] == s;
    }
  }

  /** A proper part of a size line, taken apart. */
  lemma TakeLine(c: Chunk, part: seq<byte>) returns (size: seq<byte>, pad: seq<byte>, ext: seq<byte>, eol: seq<byte>)
    requires c.size != [] && part < HeadLine(c) && part != []
    ensures part == size + pad + ext + eol && size != []
    ensures size <= c.size && pad <= c.pad && ext <= c.ext && eol <= [CR]
  {
    var a, b, d := |c.size|, |c.size| + |c.pad|, |c.size| + |c.pad| + |c.ext|;
    var j, line := |part|, HeadLine(c);
    assert part == line[..j];
    size, pad, ext, eol := c.size, c.pad, c.ext, [];
    if j <= a {
      size, pad, ext := c.size[..j], [], [];
    } else if j <= b {
      pad, ext := c.pad[..j - a], [];
    } else if j <= d {
      ext := c.ext[..j - b];
    } else {
      eol := [CR];
    }
  }

  /** Inside a size line the body ends as if nothing were missing. */
  lemma CutInLine(b: Body, c: Chunk, value: nat, crlf: bool, part: seq<byte>, want: nat)
    requires ValidLine(c.size, c.pad, c.ext, value) && part < HeadLine(c) && part != []
    requires b.wire == (if crlf then CRLF else []) + part && b.chunkLeft == 0
    requires b.framing.Chunked? && !b.done && NeverFails(b.net) && want > 0
    ensures Read(b, want).1 == Got([])
  {
    hide SizeLine, LineSize, StripEol, LineLen, ValidLine, NeverFails, HeadLine;
    PartOfLine(c, value, part);
    assert part[..|part|] == part && part[|part|..] == [];
    var later := b.net;
    if crlf {
      later := BlankLineIsSkipped(part, b.net);
    } else {
      assert [] + part == part;
    }
    var last := FirstLine(part, later);
    NoFailTail(last);
  }

  lemma WireParts(r: Rest)
    requires r.cur == []
    ensures var eol := if r.crlf then CRLF else [];
            WireOf(r) ==
            if r.chunks == [] then eol + (HeadLine(r.last) + r.tail)
            else eol + (HeadLine(r.chunks[0]) + WireOf(Rest(r.chunks[0].data, true, r.chunks[1..], r.last, r.tail)))
  {
    hide HeadLine;
  }

  /** The first `m` bytes of three parts. */
  lemma TakeParts(a: seq<byte>, b: seq<byte>, c: seq<byte>, m: nat)
    requires |a| < m <= |a| + |b| + |c|
    ensures m < |a| + |b| ==> (a + (b + c))[..m] == a + b[..m - |a|]
    ensures m >= |a| + |b| ==> (a + (b + c))[..m] == a + (b + c[..m - |a| - |b|])
  {
  }

  lemma CodingTail(r: Rest)
    requires ValidCoding(r.chunks, r.last)
    ensures ValidLine(r.last.size, r.last.pad, r.last.ext, 0)
    ensures r.chunks != [] ==>
              && ValidCoding(r.chunks[1..], r.last) && r.chunks[0].data != []
              && ValidLine(r.chunks[0].size, r.chunks[0].pad, r.chunks[0].ext, |r.chunks[0].data|)
  {
    hide ValidLine;
  }

  lemma SizeIsDue(b: Body, r: Rest, m: nat, want: nat)
    requires CarriesCut(b, r, m) && r.cur == [] && want > 0 && m <= (if r.crlf then 2 else 0)
    ensures Read(b, want).1 == Spins
  {
    hide SizeLine, Read, ValidCoding, NeverFails, Encode;
    assert b.wire == CRLF[..m] || b.wire == [];
    ReadSpinsIff(b, want);
  }

  lemma CutBehindSize(b: Body, r: Rest, m: nat, want: nat) returns (r': Rest, m': nat)
    requires CarriesCut(b, r, m) && r.cur == [] && want > 0
    ensures CutStep(r, m, want, Read(b, want).0, Read(b, want).1, r', m')
  {
    hide HeadLine, ValidLine, ValidCoding, NeverFails, SizeLine, LineSize, FromChunk, Encode, WireOf, Payload;
    var eol := if r.crlf then CRLF else [];
    r', m' := r, m;
    if m <= |eol| {
      SizeIsDue(b, r, m, want);
    } else {
      WireParts(r);
      CodingTail(r);
      var c := if r.chunks == [] then r.last else r.chunks[0];
      var value := |c.data|;
      var next := Rest(c.data, true, if r.chunks == [] then [] else r.chunks[1..], r.last, r.tail);
      var behind := if r.chunks == [] then r.tail else WireOf(next);
      var h := |HeadLine(c)|;
      TakeParts(eol, HeadLine(c), behind, m);
      if m < |eol| + h {
        var part := HeadLine(c)[..m - |eol|];
        if r.chunks == [] {
          CutInLine(b, c, 0, r.crlf, part, want);
        } else {
          CutInLine(b, c, value, r.crlf, part, want);
        }
      } else if r.chunks == [] {
        NextSizeLine(r.crlf, c, 0, behind[..m - |eol| - h], b.net);
      } else {
        m' := m - |eol| - h;
        NextSizeLine(r.crlf, c, value, behind[..m'], b.net);
        var line := SizeLine(b.wire, b.net);
        var after := b.(wire := line.wire, net := line.net, chunkLeft := value);
        assert CarriesCut(after, next, m');
        r', m' := CutInData(after, next, m', want);
        assert Read(b, want) == FromChunk(after, want);
        PayloadOfNext(r);
      }
    }
  }

  lemma PayloadOfNext(r: Rest)
    requires r.cur == [] && r.chunks != []
    ensures r.chunks[0].data + Payload(r.chunks[1..]) == r.cur + Payload(r.chunks)
  {
  }

  lemma ReadOfCut(b: Body, r: Rest, m: nat, want: nat) returns (r': Rest, m': nat)
    requires CarriesCut(b, r, m) && want > 0
    ensures CutStep(r, m, want, Read(b, want).0, Read(b, want).1, r', m')
  {
    hide CutStep, FromChunk, SizeLine;
    if r.cur == [] {
      r', m' := CutBehindSize(b, r, m, want);
    } else {
      r', m' := CutInData(b, r, m, want);
    }
  }

  predicate HasData(a: Answer) {
    a.Got? && a.data != []
  }

  /** The first answer without data, None while all have some. */
  function FirstEmpty(answers: seq<Answer>): Option<Answer> {
    if answers == [] then None else if HasData(answers[0]) then FirstEmpty(answers[1..]) else Some(answers[0])
  }

  /** What was delivered before that. */
  function Delivered(answers: seq<Answer>): seq<byte> {
    if answers == [] || !HasData(answers[0]) then [] else answers[0].data + Delivered(answers[1..])
  }

  /** A chunked body that breaks off anywhere, under any schedule of short reads and buffer sizes:
      what is delivered is a part of the payload, and then the reader hangs exactly when a size is
      due where it breaks off; anywhere else it answers as at a clean end, with bytes missing. */
  lemma {:induction false} CutHangsIff(b: Body, r: Rest, m: nat, wants: seq<nat>)
    requires CarriesCut(b, r, m) && forall i :: 0 <= i < |wants| ==> wants[i] > 0
    ensures var answers := ReadMany(b, wants).1; var first := FirstEmpty(answers);
            && Delivered(answers) <= r.cur + Payload(r.chunks)
            && (|wants| > m ==> first.Some?)
            && (first.Some? ==> first.value == if CutWhereSizeIsDue(r, m) then Spins else Got([]))
    decreases |wants|
  {
    hide CarriesCut, Read, CutWhereSizeIsDue, Payload;
    if wants != [] {
      var r', m' := ReadOfCut(b, r, m, wants[0]);
      var one := Read(b, wants[0]);
      var answers, more := ReadMany(b, wants).1, ReadMany(one.0, wants[1..]).1;
      assert answers == [one.1] + more && answers[1..] == more;
      if HasData(one.1) {
        CutHangsIff(one.0, r', m', wants[1..]);
      }
    }
  }

  /** Behind the `i`-th chunk's data, from the start of the message. */
  function EndOfData(chunks: seq<Chunk>, i: nat): nat
    requires i < |chunks|
  {
    |HeadLine(chunks[0])| + |chunks[0].data| + if i == 0 then 0 else 2 + EndOfData(chunks[1..], i - 1)
  }

  /** Behind a chunk's data or within the line end after it. */
  ghost predicate BehindData(chunks: seq<Chunk>, m: nat) {
    exists i :: 0 <= i < |chunks| && EndOfData(chunks, i) <= m <= EndOfData(chunks, i) + 2
  }

  lemma {:induction false} DueBehindData(chunks: seq<Chunk>, last: Chunk, tail: seq<byte>, crlf: bool, m: nat)
    ensures var eol := if crlf then 2 else 0;
            CutWhereSizeIsDue(Rest([], crlf, chunks, last, tail), m) <==>
            m <= eol || (m >= eol && BehindData(chunks, m - eol))
    decreases |chunks|
  {
    hide HeadLine;
    var eol := if crlf then 2 else 0;
    if m > eol && chunks != [] {
      var c, rest := chunks[0], chunks[1..];
      var n := |HeadLine(c)| + |c.data|;
      BehindFirst(chunks, m - eol);
      if m - eol >= n {
        DueBehindData(rest, last, tail, true, m - eol - n);
        DataIsSkipped(c.data, Rest(c.data, true, rest, last, tail), m - eol - |HeadLine(c)|);
      }
    }
  }

  /** Behind the data of the current chunk, what counts is the distance from there. */
  lemma DataIsSkipped(data: seq<byte>, r: Rest, m: nat)
    requires r.cur == data && m >= |data|
    ensures CutWhereSizeIsDue(r, m) == CutWhereSizeIsDue(r.(cur := []), m - |data|)
  {
    hide HeadLine;
  }

  lemma BehindFirst(chunks: seq<Chunk>, m: nat)
    requires chunks != []
    ensures var n := |HeadLine(chunks[0])| + |chunks[0].data|;
            BehindData(chunks, m) <==> m >= n && (m <= n + 2 || BehindData(chunks[1..], m - n - 2))
  {
    hide HeadLine;
    var n, rest := |HeadLine(chunks[0])| + |chunks[0].data|, chunks[1..];
    assert EndOfData(chunks, 0) == n;
    assert forall i :: 0 < i < |chunks| ==> EndOfData(chunks, i) == n + 2 + EndOfData(rest, i - 1);
    if m > n + 2 && BehindData(rest, m - n - 2) {
      var i :| 0 <= i < |rest| && EndOfData(rest, i) <= m - n - 2 <= EndOfData(rest, i) + 2;
      assert EndOfData(chunks, i + 1) == n + 2 + EndOfData(rest, i);
    }
    if BehindData(chunks, m) {
      var i :| 0 <= i < |chunks| && EndOfData(chunks, i) <= m <= EndOfData(chunks, i) + 2;
      if i > 0 && m > n + 2 {
        assert EndOfData(rest, i - 1) <= m - n - 2 <= EndOfData(rest, i - 1) + 2;
      }
    }
  }

  /** A whole message cut behind `m` bytes: the reader hangs exactly when nothing of it arrives, or
      it breaks off right behind a chunk's data or within the line end there. */
  lemma BrokenMessageHangsIff(chunks: seq<Chunk>, last: Chunk, tail: seq<byte>, m: nat, net: seq<Step>, wants: seq<nat>)
    requires ValidCoding(chunks, last) && NeverFails(net) && m <= |Encode(chunks, last, tail)| && m < |wants|
    requires forall i :: 0 <= i < |wants| ==> wants[i] > 0
    ensures var answers := ReadMany(Body(Encode(chunks, last, tail)[..m], net, Chunked, 0, 0, false), wants).1;
            && Delivered(answers) <= Payload(chunks)
            && FirstEmpty(answers) == Some(if m == 0 || BehindData(chunks, m) then Spins else Got([]))
  {
    hide ReadMany, Encode, ValidCoding, NeverFails, BehindData, CutWhereSizeIsDue, Payload;
    var r := Rest([], false, chunks, last, tail);
    var b := Body(Encode(chunks, last, tail)[..m], net, Chunked, 0, 0, false);
    assert WireOf(r) == Encode(chunks, last, tail);
    assert r.cur + Payload(chunks) == Payload(chunks);
    CutHangsIff(b, r, m, wants);
    DueBehindData(chunks, last, tail, false, m);
  }

  // ---- The reader object ----

  /** `BodyReader`: every method equals the function of its name on the reader's current value. */
  class BodyReader {
    var wire: seq<byte>
    var net: seq<Step>
    const framing: Framing
    var left: nat
    var chunkLeft: nat
    var done: bool

    ghost function Current(): Body
      reads this
    {
      Body(wire, net, framing, left, chunkLeft, done)
    }

    /** `into_body`: only a Length framing has a budget. */
    constructor (wire: seq<byte>, net: seq<Step>, framing: Framing, length: nat)
      ensures Current() == Body(wire, net, framing, if framing.Length? then length else 0, 0, false)
    {
      this.wire, this.net, this.framing := wire, net, framing;
      left := if framing.Length? then length else 0;
      chunkLeft, done := 0, false;
    }

    /** A read of the connection into `buf[at..at + want]`; None on an error. */
    method Receive(buf: array<byte>, at: nat, want: nat) returns (n: Option<nat>)
      requires at + want <= buf.Length
      modifies this`wire, this`net, buf
      ensures Current() == RawRead(old(Current()), want).0
      ensures n.None? ==> RawRead(old(Current()), want).1 == Broken && buf[..] == old(buf[..])
      ensures n.Some? ==> n.value <= want && SameOutside(old(buf[..]), buf[..], at, at + n.value)
                          && RawRead(old(Current()), want).1 == Got(buf[at..at + n.value])
    {
      var step := Head(net);
      net := Tail(net);
      if step.Fail? {
        return None;
      }
      var count := Given(step, want, |wire|);
      CopyInto(buf, at, wire[..count]);
      wire := wire[count..];
      return Some(count);
    }

    /** `read_until` a line feed; the bytes of the line, None on an error. */
    method Line() returns (raw: Option<seq<byte>>)
      modifies this`wire, this`net
      ensures var r := ReadLine(old(wire), old(net));
              wire == r.wire && net == r.net && (raw.Some? <==> r.Complete?)
      ensures raw.Some? ==> raw.value == old(wire)[..LineLen(old(wire))]
    {
      hide LineLen, ReadLine;
      EmptyLine();
      var taken: seq<byte> := [];
      while true
        invariant ReadLine(wire, net) == ReadLine(old(wire), old(net))
        invariant taken + wire == old(wire) && |taken| + LineLen(wire) == LineLen(old(wire))
        decreases |wire|
      {
        LineTurn(wire, net);
        var step := Head(net);
        net := Tail(net);
        if step.Fail? {
          return None;
        }
        if wire == [] {
          return Some(taken);
        }
        var n := Given(step, LineLen(wire), |wire|);
        var last := wire[n - 1];
        taken, wire := taken + wire[..n], wire[n..];
        if last == LF {
          return Some(taken);
        }
      }
    }

    /** The size-line loop of `read_chunked`; it never ends once nothing more can come. */
    method NextLine() returns (r: LineRead)
      modifies this`wire, this`net
      ensures r == SizeLine(old(wire), old(net))
      ensures if r.NoLine? then wire == [] && net == [] else wire == r.wire && net == r.net
    {
      hide ReadLine, LineLen, StripEol;
      while wire != [] || net != []
        invariant SizeLine(wire, net) == SizeLine(old(wire), old(net))
        decreases |wire| + |net|
      {
        var raw := Line();
        if raw.None? {
          return LineFailed(wire, net);
        }
        var text := StripEol(raw.value);
        if text != [] {
          return LineRead.Line(text, wire, net);
        }
      }
      return NoLine;
    }

    method ReadChunk(buf: array<byte>, at: nat, want: nat) returns (r: Answer)
      requires at + want <= buf.Length
      modifies this`wire, this`net, this`chunkLeft, buf
      ensures (Current(), r) == FromChunk(old(Current()), want)
      ensures r.Got? ==> |r.data| <= want && SameOutside(old(buf[..]), buf[..], at, at + |r.data|)
                         && r.data == buf[at..at + |r.data|]
      ensures !r.Got? ==> buf[..] == old(buf[..])
    {
      hide RawRead;
      var n := Receive(buf, at, Min(want, chunkLeft));
      if n.None? {
        return Broken;
      }
      chunkLeft := SaturatingSub(chunkLeft, n.value);
      return Got(buf[at..at + n.value]);
    }

    /** `read_chunked` into `buf[at..at + want]`. */
    method ReadChunkedInto(buf: array<byte>, at: nat, want: nat) returns (r: Answer)
      requires at + want <= buf.Length
      modifies this, buf
      ensures (Current(), r) == ReadChunked(old(Current()), want)
      ensures r.Got? ==> |r.data| <= want && SameOutside(old(buf[..]), buf[..], at, at + |r.data|)
                         && r.data == buf[at..at + |r.data|]
      ensures !r.Got? ==> buf[..] == old(buf[..])
    {
      hide FromChunk, SizeLine, LineSize;
      if chunkLeft == 0 {
        var line := NextLine();
        match line
        case NoLine =>
          return Spins;
        case LineFailed(_, _) =>
          return Broken;
        case Line(text, _, _) =>
          var size := LineSize(text);
          if size.None? {
            return Broken;
          }
          if size.value == 0 {
            done := true;
            return Got([]);
          }
          chunkLeft := size.value;
      }
      r := ReadChunk(buf, at, want);
    }

    /** `read` into `buf[at..at + want]`. */
    method ReadInto(buf: array<byte>, at: nat, want: nat) returns (r: Answer)
      requires at + want <= buf.Length
      modifies this, buf
      ensures (Current(), r) == Read(old(Current()), want)
      ensures r.Got? ==> |r.data| <= want && SameOutside(old(buf[..]), buf[..], at, at + |r.data|)
                         && r.data == buf[at..at + |r.data|]
      ensures !r.Got? ==> buf[..] == old(buf[..])
    {
      hide RawRead, ReadChunked;
      if done || want == 0 {
        return Got([]);
      }
      match framing
      case Length =>
        if left == 0 {
          done := true;
          return Got([]);
        }
        var n := Receive(buf, at, Min(want, left));
        if n.None? {
          return Broken;
        }
        if n.value == 0 {
          done := true;
        }
        left := SaturatingSub(left, n.value);
        return Got(buf[at..at + n.value]);
      case ToEnd =>
        var n := Receive(buf, at, want);
        if n.None? {
          return Broken;
        }
        if n.value == 0 {
          done := true;
        }
        return Got(buf[at..at + n.value]);
      case Chunked =>
        r := ReadChunkedInto(buf, at, want);
    }

    /** `read_full`: fill the buffer, or fail; `hangs` when a read never comes back. */
    method FillBuffer(buf: array<byte>) returns (ok: bool, hangs: bool)
      modifies this, buf
      ensures var spec := ReadFull(old(Current()), buf.Length);
              && (hangs <==> spec.FullSpins?)
              && (!hangs ==> Current() == spec.body && ok == spec.result.Some?)
              && (!hangs && ok ==> spec.result == Some(buf[..]))
    {
      hide Read;
      ghost var start := Current();
      AfterNothing(ReadFull(start, buf.Length));
      assert buf[0..0] == [];
      var filled := 0;
      while filled < buf.Length
        invariant filled <= buf.Length
        invariant ReadFull(start, buf.Length) == After(buf[0..filled], ReadFull(Current(), buf.Length - filled))
      {
        ghost var before := buf[..];
        var r := ReadInto(buf, filled, buf.Length - filled);
        match r
        case Spins =>
          return false, true;
        case Broken =>
          return false, false;
        case Got(data) =>
          if data == [] {
            return false, false;
          }
          WriteExtends(before, buf[..], 0, filled, filled + |data|);
          AfterAfter(before[0..filled], data, ReadFull(Current(), buf.Length - filled - |data|));
          filled := filled + |data|;
      }
      assert buf[0..filled] == buf[..] == buf[..] + [];
      return true, false;
    }
  }

  lemma AfterNothing(rest: Full)
    ensures After([], rest) == rest
  {
    if rest.Full? && rest.result.Some? {
      assert [] + rest.result.value == rest.result.value;
    }
  }

  lemma AfterAfter(a: seq<byte>, b: seq<byte>, rest: Full)
    ensures After(a, After(b, rest)) == After(a + b, rest)
  {
    if rest.Full? && rest.result.Some? {
      assert a + (b + rest.result.value) == (a + b) + rest.result.value;
    }
  }
}
