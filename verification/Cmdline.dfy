/** Rewriting `root=`/`resume=` device names to PARTUUIDs (src/vdafix.rs). */
module Cmdline {
  import opened Common
  import opened Text
  import opened Partitions

  // ---- Tokens ----

  /** A token and the whitespace behind it. */
  datatype Piece = Piece(token: string, space: string)

  /** Length of the run of non-whitespace that starts `s`. */
  function TokenLen(s: string): (n: nat)
    ensures n <= |s| && (forall i :: 0 <= i < n ==> !IsSpace(s[i])) && (n < |s| ==> IsSpace(s[n]))
  {
    if s == [] || IsSpace(s[0]) then 0 else 1 + TokenLen(s[1..])
  }

  predicate AllSpace(s: string) {
    forall i :: 0 <= i < |s| ==> IsSpace(s[i])
  }

  /** Length of the run of whitespace that starts `s`. */
  function SpaceLen(s: string): (n: nat)
    ensures n <= |s| && (forall i :: 0 <= i < n ==> IsSpace(s[i])) && (n < |s| ==> !IsSpace(s[n]))
  {
    if s == [] || !IsSpace(s[0]) then 0 else 1 + SpaceLen(s[1..])
  }

  /** The first token, the whitespace behind it, and the length of both. */
  function FirstPiece(s: string): (r: (Piece, nat))
    requires s != []
    ensures 0 < r.1 <= |s| && s[..r.1] == r.0.token + r.0.space
    ensures NoSpace(r.0.token) && AllSpace(r.0.space)
    ensures (!IsSpace(s[0]) ==> r.0.token != []) && (r.1 < |s| ==> r.0.space != [] && !IsSpace(s[r.1]))
  {
    hide TokenLen, SpaceLen;
    var n := TokenLen(s);
    var m := SpaceLen(s[n..]);
    assert s[..n + m] == s[..n] + s[n..][..m];
    (Piece(s[..n], s[n..][..m]), n + m)
  }

  function Pieces(s: string): seq<Piece> {
    if s == [] then []
    else
      var (p, n) := FirstPiece(s);
      [p] + Pieces(s[n..])
  }

  function Join(pieces: seq<Piece>): string {
    if pieces == [] then [] else pieces[0].token + pieces[0].space + Join(pieces[1..])
  }

  /** Tokens hold no whitespace, whitespace runs hold nothing else, and neither is empty except for
      whitespace at the very start and an end without any. */
  predicate Tokenized(pieces: seq<Piece>) {
    forall i :: 0 <= i < |pieces| ==>
      && NoSpace(pieces[i].token) && AllSpace(pieces[i].space)
      && (i > 0 ==> pieces[i].token != [])
      && (i + 1 < |pieces| ==> pieces[i].space != [])
      && pieces[i].token + pieces[i].space != []
  }

  lemma {:induction false} PiecesJoin(s: string)
    ensures Join(Pieces(s)) == s
  {
    hide FirstPiece;
    if s != [] {
      var (p, n) := FirstPiece(s);
      PiecesJoin(s[n..]);
      assert s == s[..n] + s[n..];
      assert Pieces(s)[1..] == Pieces(s[n..]);
    }
  }

  lemma {:induction false} PiecesAreTokenized(s: string)
    ensures Tokenized(Pieces(s))
    ensures s != [] && !IsSpace(s[0]) ==> Pieces(s)[0].token != []
  {
    hide FirstPiece;
    if s != [] {
      var (p, n) := FirstPiece(s);
      PiecesAreTokenized(s[n..]);
      var rest := Pieces(s[n..]);
      assert Pieces(s) == [p] + rest;
      assert p.token + p.space != [];
      assert forall i :: 0 < i < |Pieces(s)| ==> Pieces(s)[i] == rest[i - 1];
    }
  }

  lemma TokenLenIs(s: string, n: nat)
    requires n <= |s| && (forall i :: 0 <= i < n ==> !IsSpace(s[i])) && (n < |s| ==> IsSpace(s[n]))
    ensures TokenLen(s) == n
  {
  }

  lemma SpaceLenIs(s: string, n: nat)
    requires n <= |s| && (forall i :: 0 <= i < n ==> IsSpace(s[i])) && (n < |s| ==> !IsSpace(s[n]))
    ensures SpaceLen(s) == n
  {
  }

  lemma FirstPieceIs(p: Piece, tail: string)
    requires NoSpace(p.token) && AllSpace(p.space) && p.token + p.space != []
    requires tail != [] ==> p.space != [] && !IsSpace(tail[0])
    ensures FirstPiece(p.token + p.space + tail) == (p, |p.token| + |p.space|)
  {
    hide TokenLen, SpaceLen;
    var s, after := p.token + p.space + tail, p.space + tail;
    assert s == p.token + after;
    TokenLenIs(s, |p.token|);
    assert s[|p.token|..] == after && s[..|p.token|] == p.token;
    SpaceLenIs(after, |p.space|);
    assert after[..|p.space|] == p.space;
  }

  /** Tokenized pieces are what their text splits into. */
  lemma {:induction false} JoinSplits(pieces: seq<Piece>)
    requires Tokenized(pieces)
    ensures Pieces(Join(pieces)) == pieces
  {
    hide FirstPiece;
    if pieces != [] {
      var p, rest := pieces[0], pieces[1..];
      assert forall i :: 0 <= i < |rest| ==> rest[i] == pieces[i + 1];
      JoinSplits(rest);
      var tail := Join(rest);
      if rest != [] {
        assert rest[0].token != [] && tail[0] == rest[0].token[0];
      }
      FirstPieceIs(p, tail);
      assert Join(pieces)[|p.token| + |p.space|..] == tail;
    }
  }

  // ---- Device names ----

  const DEV: string := "/dev/"
  const DISKS: seq<string> := ["sd", "vd", "hd", "xvd"]

  predicate LowerLetters(s: string) {
    s != [] && forall i :: 0 <= i < |s| ==> 'a' <= s[i] <= 'z'
  }

  /** A disk name in front of a partition number. */
  predicate DiskStem(stem: string) {
    if stem != [] && stem[|stem| - 1] == 'p' then
      var base := stem[..|stem| - 1];
      "nvme" <= base || "mmcblk" <= base
    else
      exists i :: 0 <= i < |DISKS| && DISKS[i] <= stem && LowerLetters(stem[|DISKS[i]|..])
  }

  /** Start of the trailing digits. */
  function DigitsAt(name: string): (n: nat)
    ensures n <= |name| && (forall i :: n <= i < |name| ==> IsDigit(name[i])) && (n > 0 ==> !IsDigit(name[n - 1]))
  {
    if name == [] || !IsDigit(name[|name| - 1]) then |name| else DigitsAt(name[..|name| - 1])
  }

  /** `partition_number`. */
  function PartitionNumber(dev: string): Option<nat> {
    if !(DEV <= dev) then None
    else
      var name := dev[5..];
      var n := DigitsAt(name);
      if n == 0 || n >= |name| || DecValue(name[n..]) >= USIZE || !DiskStem(name[..n]) then None
      else Some(DecValue(name[n..]))
  }

  lemma DigitsAtIs(s: string, n: nat)
    requires n <= |s| && (forall i :: n <= i < |s| ==> IsDigit(s[i])) && (n > 0 ==> !IsDigit(s[n - 1]))
    ensures DigitsAt(s) == n
  {
  }

  lemma DigitsStart(stem: string, digits: string)
    requires AllDigits(digits) && stem != [] && !IsDigit(stem[|stem| - 1])
    ensures DigitsAt(stem + digits) == |stem|
  {
    hide DigitsAt;
    DigitsAtIs(stem + digits, |stem|);
  }

  ghost predicate Names(dev: string, stem: string, digits: string, n: nat) {
    && dev == DEV + stem + digits && digits != [] && AllDigits(digits) && DecValue(digits) == n < USIZE
    && stem != [] && !IsDigit(stem[|stem| - 1]) && DiskStem(stem)
  }

  /** A device path has partition number `n` exactly when it is `/dev/`, a recognised disk name and
      a decimal spelling of `n`. */
  lemma NumberIffNamed(dev: string, n: nat)
    ensures PartitionNumber(dev) == Some(n) <==> exists stem, digits :: Names(dev, stem, digits, n)
  {
    hide DigitsAt, DiskStem, DecValue;
    if PartitionNumber(dev) == Some(n) {
      var name := dev[5..];
      var k := DigitsAt(name);
      assert dev == DEV + name[..k] + name[k..];
      assert Names(dev, name[..k], name[k..], n);
    }
    if stem, digits :| Names(dev, stem, digits, n) {
      var name := stem + digits;
      assert dev == DEV + name;
      assert dev[5..] == name;
      DigitsStart(stem, digits);
      assert name[..|stem|] == stem && name[|stem|..] == digits;
    }
  }

  /** The number in front of which `stem` stands is understood exactly when the stem is a disk's. */
  lemma NumberAfterStem(stem: string, digits: string)
    requires stem != [] && !IsDigit(stem[|stem| - 1])
    requires digits != [] && AllDigits(digits) && DecValue(digits) < USIZE
    ensures PartitionNumber(DEV + stem + digits) == if DiskStem(stem) then Some(DecValue(digits)) else None
  {
    hide DecValue, DigitsAt, DiskStem;
    var name := stem + digits;
    assert DEV + stem + digits == DEV + name;
    assert (DEV + name)[5..] == name;
    DigitsStart(stem, digits);
    assert name[..|stem|] == stem && name[|stem|..] == digits;
  }

  lemma LettersOf(disk: string, letters: string)
    requires disk in DISKS && LowerLetters(letters)
    ensures DiskStem(disk + letters) <==> letters[|letters| - 1] != 'p'
  {
    var stem := disk + letters;
    assert stem[|stem| - 1] == letters[|letters| - 1];
    if letters[|letters| - 1] == 'p' {
      assert stem[..|stem| - 1][0] == disk[0];
    } else {
      var i :| 0 <= i < |DISKS| && DISKS[i] == disk;
      assert stem[|DISKS[i]|..] == letters;
    }
  }

  /** A trailing `p` is always taken for the separator of nvme and mmcblk names, so the partitions of
      an sd, vd, hd or xvd disk are recognised exactly when its letters do not end in p: those of
      /dev/sdp, /dev/sdap or /dev/vdbp are not. */
  lemma DiskIsRecognisedUnlessItEndsInP(disk: string, letters: string, digits: string)
    requires disk in DISKS && LowerLetters(letters)
    requires digits != [] && AllDigits(digits) && DecValue(digits) < USIZE
    ensures PartitionNumber(DEV + disk + letters + digits)
            == if letters[|letters| - 1] == 'p' then None else Some(DecValue(digits))
  {
    hide DecValue, DiskStem;
    LettersOf(disk, letters);
    var stem := disk + letters;
    assert stem[|stem| - 1] == letters[|letters| - 1];
    assert DEV + disk + letters + digits == DEV + stem + digits;
    NumberAfterStem(stem, digits);
  }

  /** In front of the separator an nvme or mmcblk name may go on in any way; no other name is understood. */
  lemma SeparatedNames(base: string, digits: string)
    requires digits != [] && AllDigits(digits) && DecValue(digits) < USIZE
    ensures PartitionNumber(DEV + base + "p" + digits)
            == if "nvme" <= base || "mmcblk" <= base then Some(DecValue(digits)) else None
  {
    hide DecValue;
    var stem := base + "p";
    assert stem[..|stem| - 1] == base;
    assert DEV + base + "p" + digits == DEV + stem + digits;
    NumberAfterStem(stem, digits);
  }

  // ---- Rewriting ----

  const PARTUUID: string := "PARTUUID="

  /** `fix_token`. */
  function FixToken(token: string, table: seq<Partition>): Option<string> {
    var k := Until(token, {'='});
    if k == |token| || !(token[..k] == "root" || token[..k] == "resume") then None
    else
      match PartitionNumber(token[k + 1..])
      case None => None
      case Some(n) =>
        match Lookup(table, n)
        case None => None
        case Some(part) =>
          if part.uuid.None? then None else Some(token[..k] + "=" + PARTUUID + part.uuid.value)
  }

  function Fixed(token: string, table: seq<Partition>): string {
    if FixToken(token, table).Some? then FixToken(token, table).value else token
  }

  function FixPieces(pieces: seq<Piece>, table: seq<Partition>): (r: seq<Piece>)
    ensures |r| == |pieces|
    ensures forall i :: 0 <= i < |r| ==> r[i] == Piece(Fixed(pieces[i].token, table), pieces[i].space)
  {
    if pieces == [] then []
    else [Piece(Fixed(pieces[0].token, table), pieces[0].space)] + FixPieces(pieces[1..], table)
  }

  predicate Fixable(pieces: seq<Piece>, table: seq<Partition>) {
    exists i :: 0 <= i < |pieces| && FixToken(pieces[i].token, table).Some?
  }

  function FixCmdline(cmdline: string, table: seq<Partition>): Option<string> {
    if Fixable(Pieces(cmdline), table) then Some(Join(FixPieces(Pieces(cmdline), table))) else None
  }

  /** `fix_cmdline`: token by token, whitespace copied. */
  method Fix(cmdline: string, table: seq<Partition>) returns (r: Option<string>)
    ensures r == FixCmdline(cmdline, table)
  {
    hide FixToken, FirstPiece, FixPieces, Fixable, Join, Pieces, Tokenized;
    var out, changed, rest := "", false, cmdline;
    NothingToFix(table);
    assert out + Join(FixPieces(Pieces(rest), table)) == Join(FixPieces(Pieces(cmdline), table));
    while rest != []
      invariant out + Join(FixPieces(Pieces(rest), table)) == Join(FixPieces(Pieces(cmdline), table))
      invariant changed || Fixable(Pieces(rest), table) <==> Fixable(Pieces(cmdline), table)
      decreases |rest|
    {
      var first := FirstPiece(rest);
      var piece, n := first.0, first.1;
      NextPieces(rest);
      FirstOfFixed(piece, Pieces(rest[n..]), table);
      ghost var tail := Join(FixPieces(Pieces(rest[n..]), table));
      ghost var before := out;
      match FixToken(piece.token, table) {
        case Some(fixed) => out, changed := out + fixed, true;
        case None => out := out + piece.token;
      }
      out := out + piece.space;
      assert before + (Fixed(piece.token, table) + piece.space + tail) == out + tail;
      rest := rest[n..];
    }
    assert out + [] == out;
    return if changed then Some(out) else None;
  }

  lemma NextPieces(s: string)
    requires s != []
    ensures var first := FirstPiece(s); 0 < first.1 <= |s| && Pieces(s) == [first.0] + Pieces(s[first.1..])
  {
    hide FirstPiece;
  }

  lemma NothingToFix(table: seq<Partition>)
    ensures Join(FixPieces(Pieces([]), table)) == [] && !Fixable(Pieces([]), table)
  {
  }

  lemma FirstOfFixed(p: Piece, rest: seq<Piece>, table: seq<Partition>)
    ensures Join(FixPieces([p] + rest, table)) == Fixed(p.token, table) + p.space + Join(FixPieces(rest, table))
    ensures Fixable([p] + rest, table) <==> FixToken(p.token, table).Some? || Fixable(rest, table)
  {
    hide FixToken;
    var all := [p] + rest;
    assert all[1..] == rest;
    var fixed := FixPieces(all, table);
    assert fixed[1..] == FixPieces(rest, table);
    if i :| 0 <= i < |rest| && FixToken(rest[i].token, table).Some? {
      assert all[i + 1] == rest[i];
    }
  }

  ghost predicate CleanUuids(table: seq<Partition>) {
    forall i :: 0 <= i < |table| && table[i].uuid.Some? ==> NoSpace(table[i].uuid.value)
  }

  lemma {:induction false} LookupIsListed(table: seq<Partition>, n: nat)
    requires Lookup(table, n).Some?
    ensures Lookup(table, n).value in table && Lookup(table, n).value.index == n
  {
    if table[0].index != n {
      LookupIsListed(table[1..], n);
    }
  }

  /** A rewritten token is one token again, and is left alone from then on. */
  lemma FixedTokenIsFinal(token: string, table: seq<Partition>)
    requires FixToken(token, table).Some? && NoSpace(token) && CleanUuids(table)
    ensures var fixed := FixToken(token, table).value;
            fixed != [] && NoSpace(fixed) && FixToken(fixed, table) == None
  {
    hide PartitionNumber, Until;
    var k := Until(token, {'='});
    var key, n := token[..k], PartitionNumber(token[k + 1..]).value;
    LookupIsListed(table, n);
    var uuid := Lookup(table, n).value.uuid.value;
    var value := PARTUUID + uuid;
    var fixed := FixToken(token, table).value;
    assert fixed == key + "=" + value;
    assert NoSpace(fixed) by {
      assert NoSpace(key) && NoSpace("=") && NoSpace(PARTUUID) && NoSpace(uuid);
    }
    UntilIs(fixed, {'='}, |key|);
    assert fixed[..|key|] == key && fixed[|key| + 1..] == value;
    NoDevPrefix(value);
  }

  lemma NoDevPrefix(value: string)
    requires value != [] && value[0] != '/'
    ensures PartitionNumber(value) == None
  {
  }

  /** The rewritten command line has the same whitespace runs and as many tokens, each unchanged or
      in PARTUUID form, and rewriting it again changes nothing. */
  lemma FixKeepsLayoutAndIsIdempotent(cmdline: string, table: seq<Partition>)
    requires CleanUuids(table) && FixCmdline(cmdline, table).Some?
    ensures var out := FixCmdline(cmdline, table).value;
            && Pieces(out) == FixPieces(Pieces(cmdline), table)
            && FixCmdline(out, table) == None
  {
    hide FixToken, FirstPiece, CleanUuids;
    var before := Pieces(cmdline);
    var after := FixPieces(before, table);
    PiecesAreTokenized(cmdline);
    forall i | 0 <= i < |after|
      ensures NoSpace(after[i].token) && (before[i].token != [] ==> after[i].token != [])
      ensures FixToken(after[i].token, table) == None
    {
      if FixToken(before[i].token, table).Some? {
        FixedTokenIsFinal(before[i].token, table);
      }
    }
    assert Tokenized(after);
    JoinSplits(after);
  }

  /** So for every table the scanner can produce, and the number in a token names one partition of it. */
  lemma FixOnScannedTables(disk: seq<byte>, file: bool, cmdline: string)
    requires ScanDisk(disk, file).Ok? && FixCmdline(cmdline, ScanDisk(disk, file).value).Some?
    ensures var table := ScanDisk(disk, file).value;
            var out := FixCmdline(cmdline, table).value;
            && Pieces(out) == FixPieces(Pieces(cmdline), table)
            && FixCmdline(out, table) == None
            && forall k :: 0 <= k < |table| ==> Lookup(table, table[k].index) == Some(table[k])
  {
    hide FixCmdline, FixPieces, Pieces, ScanDisk;
    var table := ScanDisk(disk, file).value;
    ScannedTables(disk, file);
    FixKeepsLayoutAndIsIdempotent(cmdline, table);
    forall k | 0 <= k < |table|
      ensures Lookup(table, table[k].index) == Some(table[k])
    {
      LookupIsUnique(table, k);
    }
  }

  // ---- Which PARTUUID is written ----

  /** The keys whose values are looked at. */
  predicate NamesDevice(key: string) {
    key == "root" || key == "resume"
  }

  lemma KeyOfToken(key: string, dev: string)
    requires forall i :: 0 <= i < |key| ==> key[i] != '='
    ensures Until(key + "=" + dev, {'='}) == |key|
    ensures (key + "=" + dev)[..|key|] == key && (key + "=" + dev)[|key| + 1..] == dev
  {
    hide Until;
    var token := key + "=" + dev;
    assert token[|key|] == '=';
    UntilIs(token, {'='}, |key|);
  }

  /** A device that is a partition with a PARTUUID is replaced by that partition's PARTUUID. */
  lemma FixedByItsPartition(key: string, dev: string, table: seq<Partition>, k: nat)
    requires NamesDevice(key) && Increasing(table) && k < |table| && table[k].uuid.Some?
    requires PartitionNumber(dev) == Some(table[k].index)
    ensures FixToken(key + "=" + dev, table) == Some(key + "=PARTUUID=" + table[k].uuid.value)
  {
    hide PartitionNumber, Until, Lookup;
    KeyOfToken(key, dev);
    LookupIsUnique(table, k);
    assert key + "=" + PARTUUID == key + "=PARTUUID=";
  }

  /** Nothing else is: another key, a value that is no partition, a number the table does not have,
      a partition without a PARTUUID, or a token without an equals sign. */
  lemma FixedOnlyThen(key: string, dev: string, table: seq<Partition>)
    requires (forall i :: 0 <= i < |key| ==> key[i] != '=') && Increasing(table)
    ensures FixToken(key + "=" + dev, table).Some? <==>
              && NamesDevice(key)
              && exists k :: 0 <= k < |table| && PartitionNumber(dev) == Some(table[k].index) && table[k].uuid.Some?
    ensures FixToken(key, table) == None
  {
    hide PartitionNumber, Until, Lookup;
    KeyOfToken(key, dev);
    UntilIs(key, {'='}, |key|);
    var n := PartitionNumber(dev);
    if NamesDevice(key) && n.Some? {
      if Lookup(table, n.value).Some? {
        LookupIsListed(table, n.value);
        var part := Lookup(table, n.value).value;
        var k :| 0 <= k < |table| && table[k] == part;
      }
      if k :| 0 <= k < |table| && n.value == table[k].index && table[k].uuid.Some? {
        LookupIsUnique(table, k);
      }
    }
  }

  /** For every disk the scanner reads: a token that names partition `k` gets partition `k`'s PARTUUID. */
  lemma FixedOnScannedDisk(disk: seq<byte>, file: bool, key: string, dev: string, k: nat)
    requires ScanDisk(disk, file).Ok? && k < |ScanDisk(disk, file).value|
    requires var p := ScanDisk(disk, file).value[k]; NamesDevice(key) && p.uuid.Some? && PartitionNumber(dev) == Some(p.index)
    ensures var table := ScanDisk(disk, file).value;
            FixToken(key + "=" + dev, table) == Some(key + "=PARTUUID=" + table[k].uuid.value)
  {
    hide ScanDisk, PartitionNumber, FixToken;
    ScannedTables(disk, file);
    FixedByItsPartition(key, dev, ScanDisk(disk, file).value, k);
  }
}
