/** Boot Loader Specification entries (`parse_dir`, src/boot/bls.rs). */
module Bls {
  import opened Common
  import opened Text
  import opened Files
  import opened BootEntries
  import opened NewestFirst
  import Glob

  function Absolute(p: string): string {
    if p != [] && p[0] == '/' then p else "/" + p
  }

  function AbsoluteAll(paths: seq<string>): (r: seq<string>)
    ensures |r| == |paths|
  {
    seq(|paths|, i requires 0 <= i < |paths| => Absolute(paths[i]))
  }

  /** An entry under construction and its `options` lines. */
  datatype Conf = Conf(entry: BootEntry, options: seq<string>)

  datatype Pair = Nothing | Pair(key: string, value: string)

  /** A line's key and value; blank lines, comments and bare words are nothing. */
  function ReadPair(raw: string): Pair {
    var line := Trim(raw);
    var n := UntilSpace(line);
    if line == [] || line[0] == '#' || n == |line| then Nothing else Pair(line[..n], Trim(line[n + 1..]))
  }

  function ConfLine(c: Conf, raw: string, env: Env): Conf {
    match ReadPair(raw)
    case Nothing => c
    case Pair(key, value) =>
      if key == "title" then c.(entry := c.entry.(title := Some(value)))
      else if key == "version" then c.(entry := c.entry.(version := Some(value)))
      else if key == "linux" then c.(entry := c.entry.(kernel := Some(Absolute(value))))
      else if key == "initrd" then c.(entry := c.entry.(initrd := c.entry.initrd + AbsoluteAll(Fields(value))))
      else if key == "options" then c.(options := c.options + [Expand(value, env)])
      else c
  }

  function ConfLines(stem: string, lines: seq<string>, env: Env): Conf {
    if lines == [] then Conf(BLANK.(id := Some(stem), source := Bls), [])
    else ConfLine(ConfLines(stem, lines[..|lines| - 1], env), lines[|lines| - 1], env)
  }

  /** The entry of one file. */
  function ReadConf(stem: string, text: string, env: Env): BootEntry {
    var c := ConfLines(stem, Lines(text), env);
    var cmdline := Trim(Join(c.options, " "));
    if cmdline != [] then c.entry.(cmdline := Some(cmdline)) else c.entry
  }

  method ParseConf(stem: string, text: string, env: Env) returns (entry: BootEntry)
    ensures entry == ReadConf(stem, text, env)
  {
    hide ConfLine, Lines, Join, Trim;
    var lines := Lines(text);
    var c := Conf(BLANK.(id := Some(stem), source := Bls), []);
    for n := 0 to |lines|
      invariant c == ConfLines(stem, lines[..n], env)
    {
      assert lines[..n + 1][..n] == lines[..n];
      c := ConfLine(c, lines[n], env);
    }
    assert lines[..|lines|] == lines;
    entry := c.entry;
    var cmdline := Trim(Join(c.options, " "));
    if cmdline != [] {
      entry := entry.(cmdline := Some(cmdline));
    }
  }

  /** Line `i` is the last one with that key. */
  predicate LastWith(lines: seq<string>, key: string, i: nat) {
    && i < |lines| && HasKey(lines[i], key)
    && forall j :: i < j < |lines| ==> !HasKey(lines[j], key)
  }

  predicate HasKey(raw: string, key: string) {
    ReadPair(raw).Pair? && ReadPair(raw).key == key
  }

  /** `value` is that of the last line with that key, None without such a line. */
  ghost predicate LastValue(lines: seq<string>, key: string, value: Option<string>) {
    if value.None? then forall i :: 0 <= i < |lines| ==> !HasKey(lines[i], key)
    else exists i: nat :: LastWith(lines, key, i) && ReadPair(lines[i]).value == value.value
  }

  /** The values of all lines with that key, in order. */
  function Values(lines: seq<string>, key: string): seq<string> {
    if lines == [] then []
    else
      var last := lines[|lines| - 1];
      Values(lines[..|lines| - 1], key) + if HasKey(last, key) then [ReadPair(last).value] else []
  }

  function AllPaths(values: seq<string>): seq<string> {
    if values == [] then [] else AllPaths(values[..|values| - 1]) + AbsoluteAll(Fields(values[|values| - 1]))
  }

  function ExpandAll(values: seq<string>, env: Env): (r: seq<string>)
    ensures |r| == |values|
  {
    seq(|values|, i requires 0 <= i < |values| => Expand(values[i], env))
  }

  lemma ValueSnoc(lines: seq<string>, last: string, key: string, value: Option<string>)
    requires LastValue(lines, key, value)
    ensures LastValue(lines + [last], key, if HasKey(last, key) then Some(ReadPair(last).value) else value)
  {
    hide ReadPair;
    var all := lines + [last];
    if HasKey(last, key) {
      assert LastWith(all, key, |lines|) && all[|lines|] == last;
    } else if value.Some? {
      var i: nat :| LastWith(lines, key, i) && ReadPair(lines[i]).value == value.value;
      assert LastWith(all, key, i) && all[i] == lines[i];
    }
  }

  /** The last line of a key beats the earlier ones for `title`, `version` and `linux`; `initrd` and
      `options` lines add up in order. */
  ghost predicate Reads(stem: string, lines: seq<string>, env: Env, c: Conf, kernel: Option<string>) {
    && LastValue(lines, "title", c.entry.title) && LastValue(lines, "version", c.entry.version)
    && LastValue(lines, "linux", kernel) && c.entry.kernel == (if kernel.Some? then Some(Absolute(kernel.value)) else None)
    && c.entry.initrd == AllPaths(Values(lines, "initrd"))
    && c.options == ExpandAll(Values(lines, "options"), env)
    && c.entry == BLANK.(id := Some(stem), source := Bls, title := c.entry.title, version := c.entry.version,
                         kernel := c.entry.kernel, initrd := c.entry.initrd)
  }

  lemma ValuesSnoc(lines: seq<string>, last: string, key: string)
    ensures Values(lines + [last], key) == Values(lines, key) + if HasKey(last, key) then [ReadPair(last).value] else []
  {
    assert (lines + [last])[..|lines|] == lines;
  }

  lemma PathsSnoc(values: seq<string>, value: string)
    ensures AllPaths(values + [value]) == AllPaths(values) + AbsoluteAll(Fields(value))
  {
    assert (values + [value])[..|values|] == values;
  }

  lemma LineReads(stem: string, lines: seq<string>, last: string, env: Env, c: Conf, kernel: Option<string>)
    returns (kernel': Option<string>)
    requires Reads(stem, lines, env, c, kernel)
    ensures Reads(stem, lines + [last], env, ConfLine(c, last, env), kernel')
  {
    hide ReadPair, LastValue, Values, AllPaths, Fields, Expand, Absolute, AbsoluteAll;
    ValueSnoc(lines, last, "title", c.entry.title);
    ValueSnoc(lines, last, "version", c.entry.version);
    ValueSnoc(lines, last, "linux", kernel);
    ValuesSnoc(lines, last, "initrd");
    ValuesSnoc(lines, last, "options");
    kernel' := if HasKey(last, "linux") then Some(ReadPair(last).value) else kernel;
    if HasKey(last, "initrd") {
      PathsSnoc(Values(lines, "initrd"), ReadPair(last).value);
    } else {
      assert Values(lines, "initrd") + [] == Values(lines, "initrd");
    }
    if HasKey(last, "options") {
      var value := ReadPair(last).value;
      assert ExpandAll(Values(lines, "options") + [value], env) == ExpandAll(Values(lines, "options"), env) + [Expand(value, env)];
    } else {
      assert Values(lines, "options") + [] == Values(lines, "options");
    }
  }

  lemma {:induction false} ConfReads(stem: string, lines: seq<string>, env: Env) returns (kernel: Option<string>)
    ensures Reads(stem, lines, env, ConfLines(stem, lines, env), kernel)
  {
    hide ConfLine, HasKey;
    if lines == [] {
      kernel := None;
    } else {
      var init := lines[..|lines| - 1];
      var before := ConfReads(stem, init, env);
      assert lines == init + [lines[|lines| - 1]];
      kernel := LineReads(stem, init, lines[|lines| - 1], env, ConfLines(stem, init, env), before);
    }
  }

  /** What a file says: the last `title`, `version` and `linux` lines count, `initrd` lists the paths
      of all such lines in order, and the command line is the options of all lines, expanded and
      joined; whatever else the file holds has no effect. */
  lemma ConfMeans(stem: string, text: string, env: Env) returns (kernel: Option<string>)
    ensures var lines := Lines(text); var e := ReadConf(stem, text, env);
            var cmdline := Trim(Join(ExpandAll(Values(lines, "options"), env), " "));
            && LastValue(lines, "title", e.title) && LastValue(lines, "version", e.version)
            && LastValue(lines, "linux", kernel)
            && e == BLANK.(id := Some(stem), source := Bls, title := e.title, version := e.version,
                           kernel := if kernel.Some? then Some(Absolute(kernel.value)) else None,
                           initrd := AllPaths(Values(lines, "initrd")),
                           cmdline := if cmdline == [] then None else Some(cmdline))
  {
    hide ConfLines, Lines, Join, Trim, LastValue, Values, AllPaths, ExpandAll, Absolute;
    kernel := ConfReads(stem, Lines(text), env);
  }

  const CONF: string := ".conf"

  function ItemOf(stem: string, entry: BootEntry): Item {
    Item(if entry.version.Some? then entry.version.value else stem, stem, entry)
  }

  predicate IsConf(fs: FileSystem, dir: string, f: DirEntry) {
    !f.isDir && EndsWith(f.name, CONF) && dir + "/" + f.name in fs.texts
  }

  /** The readable configuration files of a listing, in listing order. */
  function Items(fs: FileSystem, dir: string, listing: seq<DirEntry>, env: Env): seq<Item> {
    if listing == [] then []
    else
      var f := listing[|listing| - 1];
      var before := Items(fs, dir, listing[..|listing| - 1], env);
      if IsConf(fs, dir, f) then
        var stem := TrimSuffix(f.name, CONF);
        before + [ItemOf(stem, ReadConf(stem, fs.texts[dir + "/" + f.name], env))]
      else before
  }

  /** The stem without systemd-boot's boot counter. */
  function StripCounter(stem: string): string {
    stem[..Until(stem, {'+'})]
  }

  function Saved(env: Env): Item -> bool {
    (x: Item) => "saved_entry" in env && (env["saved_entry"] == x.stem || env["saved_entry"] == StripCounter(x.stem))
  }

  function Wanted(pattern: string): Item -> bool {
    (x: Item) => Glob.Match(pattern, x.stem) || Glob.Match(pattern, x.stem + CONF) || Glob.Match(pattern, StripCounter(x.stem))
  }

  function DefaultOf(items: seq<Item>, env: Env, sdDefault: Option<string>): Option<nat> {
    Or(Or(Position(items, Saved(env)),
          if sdDefault.Some? then Position(items, Wanted(sdDefault.value)) else None),
       if items == [] then None else Some(0))
  }

  function Parse(fs: FileSystem, dir: string, env: Env, sdDefault: Option<string>): Option<Scan> {
    if dir !in fs.listings then None
    else
      var items := Sort(Items(fs, dir, fs.listings[dir], env));
      Some(Scan(EntriesOf(items), DefaultOf(items, env, sdDefault)))
  }

  /** `parse_dir`: the loop over the listing, then the sort and the choice of the default. */
  method ParseDir(fs: FileSystem, dir: string, env: Env, sdDefault: Option<string>) returns (scan: Option<Scan>)
    ensures scan == Parse(fs, dir, env, sdDefault)
  {
    hide ReadConf, Sort, DefaultOf, TrimSuffix, EndsWith;
    if dir !in fs.listings {
      return None;
    }
    var listing := fs.listings[dir];
    var items: seq<Item> := [];
    for n := 0 to |listing|
      invariant items == Items(fs, dir, listing[..n], env)
    {
      assert listing[..n + 1][..n] == listing[..n];
      var f := listing[n];
      if !f.isDir && EndsWith(f.name, CONF) {
        var path := dir + "/" + f.name;
        if path in fs.texts {
          var stem := TrimSuffix(f.name, CONF);
          var entry := ParseConf(stem, fs.texts[path], env);
          items := items + [ItemOf(stem, entry)];
        }
      }
    }
    assert listing[..|listing|] == listing;
    items := Sort(items);
    scan := Some(Scan(EntriesOf(items), DefaultOf(items, env, sdDefault)));
  }

  lemma {:induction false} ItemsAreBls(fs: FileSystem, dir: string, listing: seq<DirEntry>, env: Env)
    ensures forall x :: x in Items(fs, dir, listing, env) ==>
              x.entry.id == Some(x.stem) && x.entry.source == Bls && x.entry.windows.None? && x.entry.chainloader.None?
  {
    hide ReadConf, TrimSuffix;
    if listing != [] {
      ItemsAreBls(fs, dir, listing[..|listing| - 1], env);
      var f := listing[|listing| - 1];
      if IsConf(fs, dir, f) {
        var kernel := ConfMeans(TrimSuffix(f.name, CONF), fs.texts[dir + "/" + f.name], env);
      }
    }
  }

  /** `x` is one of the items that satisfy `p`, and none of those is newer. */
  ghost predicate NewestWith(items: seq<Item>, p: Item -> bool, x: Item) {
    x in items && p(x) && forall y :: y in items && p(y) ==> !Older(x, y)
  }

  lemma FirstIsNewest(raw: seq<Item>, p: Item -> bool)
    ensures var r := Position(Sort(raw), p);
            if r.Some? then NewestWith(raw, p, Sort(raw)[r.value]) else forall x :: x in raw ==> !p(x)
  {
    hide Sort, Older, Position;
    SortIsStable(raw);
    var items := Sort(raw);
    var r := Position(items, p);
    forall y | y in raw
      ensures p(y) ==> r.Some? && !Older(items[r.value], y)
    {
      assert y in multiset(items);
      var i :| 0 <= i < |items| && items[i] == y;
      if p(y) {
        VersionOrder(y, y, y);
      }
    }
    if r.Some? {
      assert items[r.value] in multiset(items);
    }
  }

  /** Which files compete for the default: those of the saved entry, else those the loader.conf
      pattern matches, else all. */
  ghost predicate Candidate(raw: seq<Item>, env: Env, sdDefault: Option<string>, x: Item) {
    if exists y :: y in raw && Saved(env)(y) then Saved(env)(x)
    else if sdDefault.Some? && exists y :: y in raw && Wanted(sdDefault.value)(y) then Wanted(sdDefault.value)(x)
    else true
  }

  /** The default is a newest of the candidates, whatever order the directory lists them in. */
  lemma DefaultIsNewestCandidate(fs: FileSystem, dir: string, env: Env, sdDefault: Option<string>)
    requires dir in fs.listings
    ensures var raw := Items(fs, dir, fs.listings[dir], env); var scan := Parse(fs, dir, env, sdDefault).value;
            && |scan.entries| == |raw| && DefaultOk(scan)
            && (raw != [] ==> exists x :: NewestWith(raw, y => Candidate(raw, env, sdDefault, y), x)
                                 && scan.entries[scan.default.value] == x.entry)
  {
    hide Items, Sort, Older, Position, NewestWith;
    var raw := Items(fs, dir, fs.listings[dir], env);
    var items := Sort(raw);
    SortIsStable(raw);
    if raw != [] {
      DefaultIn(raw, env, sdDefault);
    }
  }

  lemma DefaultIn(raw: seq<Item>, env: Env, sdDefault: Option<string>)
    requires raw != []
    ensures |Sort(raw)| == |raw|
    ensures var d := DefaultOf(Sort(raw), env, sdDefault);
            && d.Some? && d.value < |raw|
            && NewestWith(raw, y => Candidate(raw, env, sdDefault, y), Sort(raw)[d.value])
  {
    hide Sort, Older, Position, Saved, Wanted;
    SortIsStable(raw);
    FirstIsNewest(raw, Saved(env));
    if sdDefault.Some? {
      FirstIsNewest(raw, Wanted(sdDefault.value));
    }
    var all := (x: Item) => true;
    FirstIsNewest(raw, all);
    PositionIs(Sort(raw), all, 0);
  }

  // ---- Which files count, and as what ----

  /** A file of the directory becomes one item: named by its stem, sorted by its version or, without
      one, by its stem. */
  lemma {:induction false} ConfIsListed(fs: FileSystem, dir: string, listing: seq<DirEntry>, env: Env, stem: string)
    requires DirEntry(stem + ".conf", false) in listing && dir + "/" + (stem + ".conf") in fs.texts && !EndsWith(stem, ".conf")
    ensures var e := ReadConf(stem, fs.texts[dir + "/" + (stem + ".conf")], env);
            Item(if e.version.Some? then e.version.value else stem, stem, e) in Items(fs, dir, listing, env)
  {
    hide ReadConf, TrimSuffix;
    var f := DirEntry(stem + ".conf", false);
    var n := |listing| - 1;
    if listing[n] == f {
      StemOf(stem);
    } else {
      assert listing == listing[..n] + [listing[n]];
      ConfIsListed(fs, dir, listing[..n], env, stem);
    }
  }

  lemma StemOf(stem: string)
    requires !EndsWith(stem, ".conf")
    ensures TrimSuffix(stem + ".conf", CONF) == stem && EndsWith(stem + ".conf", CONF)
  {
    hide TrimSuffix;
    TrimSuffixMeans(stem, ".conf", 1);
    assert Repeated(".conf", 1) == "" + ".conf" == ".conf";
    assert (stem + ".conf")[|stem|..] == ".conf";
  }

  /** No other item is there: each comes from a file of the listing. */
  lemma {:induction false} ItemIsAConf(fs: FileSystem, dir: string, listing: seq<DirEntry>, env: Env, x: Item)
    requires x in Items(fs, dir, listing, env)
    ensures exists f :: f in listing && IsConf(fs, dir, f) && x.entry == ReadConf(x.stem, fs.texts[dir + "/" + f.name], env)
                        && x.stem == TrimSuffix(f.name, ".conf")
  {
    hide ReadConf, TrimSuffix, EndsWith;
    var init, last := listing[..|listing| - 1], listing[|listing| - 1];
    assert last in listing;
    if x in Items(fs, dir, init, env) {
      ItemIsAConf(fs, dir, init, env, x);
    }
  }

  /** The saved entry and a loader.conf pattern also find a file that carries a boot counter. */
  lemma CounterIsIgnored(stem: string, counter: string, version: string, entry: BootEntry, env: Env, pattern: string)
    requires '+' !in stem && "saved_entry" in env && env["saved_entry"] == stem
    ensures StripCounter(stem + "+" + counter) == stem && StripCounter(stem) == stem
    ensures Saved(env)(Item(version, stem, entry)) && Saved(env)(Item(version, stem + "+" + counter, entry))
    ensures Glob.Match(pattern, stem) || Glob.Match(pattern, stem + ".conf") ==> Wanted(pattern)(Item(version, stem, entry))
    ensures Glob.Match(pattern, stem) ==> Wanted(pattern)(Item(version, stem + "+" + counter, entry))
  {
    hide Until, Glob.Match;
    UntilIs(stem + "+" + counter, {'+'}, |stem|);
    UntilIs(stem, {'+'}, |stem|);
  }

  /** Nothing else does. */
  lemma SavedIff(env: Env, x: Item)
    ensures Saved(env)(x) <==>
            "saved_entry" in env && (x.stem == env["saved_entry"] || exists counter :: '+' !in env["saved_entry"] && x.stem == env["saved_entry"] + "+" + counter)
  {
    hide Until;
    var n := Until(x.stem, {'+'});
    if n < |x.stem| {
      assert x.stem == x.stem[..n] + "+" + x.stem[n + 1..];
    }
    if "saved_entry" in env {
      var saved := env["saved_entry"];
      if counter :| '+' !in saved && x.stem == saved + "+" + counter {
        UntilIs(x.stem, {'+'}, |saved|);
      }
    }
  }
}
