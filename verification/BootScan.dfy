/** Which boot configuration of a filesystem counts, and what is left of it (`scan`,
    src/boot/mod.rs; `grubenv`, src/boot/grubenv.rs). */
module BootScan {
  import opened Common
  import opened Text
  import opened Files
  import opened BootEntries
  import opened Sweep
  import NewestFirst
  import Grub
  import GrubDefault
  import Bls
  import Extlinux
  import Fallback

  // ---- The environment and systemd-boot's default ----

  function EnvLine(env: Env, line: string): Env {
    var n := Until(line, {'='});
    if (line != [] && line[0] == '#') || n == |line| then env
    else env[Trim(line[..n]) := Trim(TrimSuffix(line[n + 1..], "#"))]
  }

  function EnvOf(lines: seq<string>): Env {
    if lines == [] then map[] else EnvLine(EnvOf(lines[..|lines| - 1]), lines[|lines| - 1])
  }

  const GRUBENVS: seq<string> := ["/grub2/grubenv", "/grub/grubenv", "/boot/grub2/grubenv", "/boot/grub/grubenv"]

  predicate Readable(fs: FileSystem, path: string) {
    path in fs.texts
  }

  function LoadEnv(fs: FileSystem): Env {
    match Position(GRUBENVS, path => Readable(fs, path))
    case None => map[]
    case Some(i) => EnvOf(Lines(fs.texts[GRUBENVS[i]]))
  }

  /** The value of the first `default` line that has one. */
  function DefaultLine(lines: seq<string>): Option<string> {
    if lines == [] then None
    else
      var line := Trim(lines[0]);
      var v := if "default" <= line then Trim(line[7..]) else "";
      if v != [] then Some(TrimSuffix(v, ".conf")) else DefaultLine(lines[1..])
  }

  function LoaderDefault(fs: FileSystem, prefix: string): Option<string> {
    var path := prefix + "/loader/loader.conf";
    if path in fs.texts then DefaultLine(Lines(fs.texts[path])) else None
  }

  /** `loader_conf_default`. */
  function SdDefault(fs: FileSystem): Option<string> {
    Or(LoaderDefault(fs, ""), LoaderDefault(fs, "/boot"))
  }

  // ---- The sources ----

  function EfiPaths(efi: string, dirs: seq<DirEntry>): seq<string> {
    if dirs == [] then []
    else (if dirs[0].isDir then [efi + "/" + dirs[0].name + "/grub.cfg"] else []) + EfiPaths(efi, dirs[1..])
  }

  function GrubPaths(fs: FileSystem): seq<string> {
    ["/grub/grub.cfg", "/grub2/grub.cfg", "/boot/grub/grub.cfg", "/boot/grub2/grub.cfg"] +
    if "/EFI" in fs.listings then EfiPaths("/EFI", fs.listings["/EFI"])
    else if "/efi" in fs.listings then EfiPaths("/efi", fs.listings["/efi"])
    else []
  }

  const EXTLINUX_PATHS: seq<string> := [
    "/extlinux/extlinux.conf", "/extlinux.conf", "/syslinux/syslinux.cfg", "/syslinux/extlinux.conf",
    "/boot/extlinux/extlinux.conf", "/boot/extlinux.conf", "/boot/syslinux/syslinux.cfg", "/boot/syslinux/extlinux.conf"]

  predicate Found(fs: FileSystem, path: string) {
    path in fs.names && path in fs.texts
  }

  /** A scan that has entries. */
  function NonEmpty(s: Scan): Option<Scan> {
    if s.entries == [] then None else Some(s)
  }

  function GrubAt(fs: FileSystem, path: string, env: Env): Option<Scan> {
    if Found(fs, path) then NonEmpty(GrubDefault.Parse(fs.texts[path], env).scan) else None
  }

  /** The first grub.cfg that declares entries. */
  function FirstGrub(fs: FileSystem, paths: seq<string>, env: Env): Option<Scan> {
    if paths == [] then None
    else Or(FirstGrub(fs, paths[..|paths| - 1], env), GrubAt(fs, paths[|paths| - 1], env))
  }

  /** Some grub.cfg, with entries or without, hands over to BLS. */
  function UsesBls(fs: FileSystem, paths: seq<string>, env: Env): bool {
    if paths == [] then false
    else
      var path := paths[|paths| - 1];
      || UsesBls(fs, paths[..|paths| - 1], env)
      || (Found(fs, path) && GrubDefault.Parse(fs.texts[path], env).usesBls)
  }

  function BlsAt(fs: FileSystem, prefix: string, env: Env, sdDefault: Option<string>): Option<Scan> {
    var dir := prefix + "/loader/entries";
    if dir !in fs.names then None
    else
      match Bls.Parse(fs, dir, env, sdDefault)
      case None => None
      case Some(s) => NonEmpty(s)
  }

  function FirstBls(fs: FileSystem, env: Env, sdDefault: Option<string>): Option<Scan> {
    Or(BlsAt(fs, "", env, sdDefault), BlsAt(fs, "/boot", env, sdDefault))
  }

  function ExtlinuxAt(fs: FileSystem, path: string): Option<Scan> {
    if Found(fs, path) then NonEmpty(Extlinux.Parse(fs.texts[path], Parent(path))) else None
  }

  function FirstExtlinux(fs: FileSystem, paths: seq<string>): Option<Scan> {
    if paths == [] then None
    else Or(FirstExtlinux(fs, paths[..|paths| - 1]), ExtlinuxAt(fs, paths[|paths| - 1]))
  }

  /** The authoritative source: entries of a grub.cfg beside a `blscfg` are leftovers. */
  function Choose(grub: Option<Scan>, usesBls: bool, bls: Option<Scan>, ext: Option<Scan>, fallback: Scan): Scan {
    if bls.Some? && usesBls then bls.value
    else if grub.Some? then grub.value
    else if bls.Some? then bls.value
    else if ext.Some? then ext.value
    else fallback
  }

  function Chosen(fs: FileSystem): Scan {
    var env := LoadEnv(fs);
    Choose(FirstGrub(fs, GrubPaths(fs), env), UsesBls(fs, GrubPaths(fs), env), FirstBls(fs, env, SdDefault(fs)),
           FirstExtlinux(fs, EXTLINUX_PATHS), Fallback.Parse(fs))
  }

  /** An entry that survives the sweep of `drop_stale_entries`. */
  predicate Alive(fs: FileSystem, e: BootEntry) {
    e.chainloader.Some? || (e.kernel.Some? && e.kernel.value in fs.names)
  }

  function AliveMask(fs: FileSystem, entries: seq<BootEntry>): (keep: seq<bool>)
    ensures |keep| == |entries| && forall i :: 0 <= i < |keep| ==> keep[i] == Alive(fs, entries[i])
  {
    seq(|entries|, i requires 0 <= i < |entries| => Alive(fs, entries[i]))
  }

  /** `scan`. */
  function ScanOf(fs: FileSystem): Scan {
    ChosenDefaultOk(fs);
    Retain(Chosen(fs), AliveMask(fs, Chosen(fs).entries))
  }

  // ---- Every source gives a default in range, and its own kind of entries ----

  /** Entries that all come from `source` and do not boot Windows yet. */
  ghost predicate AllFrom(entries: seq<BootEntry>, source: Source) {
    forall e :: e in entries ==> e.source == source && e.windows.None?
  }

  ghost predicate Sound(s: Option<Scan>, source: Source) {
    s.Some? ==> s.value.entries != [] && DefaultOk(s.value) && AllFrom(s.value.entries, source)
  }

  ghost predicate AllGrub(raw: seq<Grub.RawEntry>) {
    forall r :: r in raw ==> r.entry.source == Source.Grub && r.entry.windows.None?
  }

  lemma GrubBody(e: BootEntry, words: seq<string>, env: Env)
    requires words != []
    ensures var e' := Grub.BodyLine(e, words, env); e'.source == e.source && e'.windows == e.windows
  {
    hide Trim, Expand, Grub.CleanPath, Grub.CleanPaths, Join, Position;
  }

  lemma GrubMenu(st: Grub.State, words: seq<string>, opens: bool, env: Env)
    requires st.current.None? && words != [] && AllGrub(st.raw)
    ensures var st' := Grub.MenuLine(st, words, opens, env);
            st'.raw == st.raw && (st'.current.Some? ==> AllGrub([st'.current.value.raw]))
  {
    hide Expand, Grub.KeywordOf, Grub.MenuId, Grub.WordAt;
  }

  lemma GrubBraces(st: Grub.State, opens: bool, closes: bool)
    ensures Grub.Entries(Grub.Braces(st, opens, closes)) == Grub.Entries(st)
  {
  }

  lemma GrubStep(st: Grub.State, line: string, env: Env)
    requires AllGrub(Grub.Entries(st))
    ensures AllGrub(Grub.Entries(Grub.Step(st, line, env)))
  {
    hide Trim, Grub.Words, Grub.BodyLine, Grub.MenuLine, Grub.Braces;
    var text := Trim(line);
    var words := Grub.Words(text);
    if text != [] && text[0] != '#' && words != [] {
      var opens, closes := text[|text| - 1] == '{', text == "}";
      if st.current.Some? {
        var open := st.current.value;
        var e := Grub.BodyLine(open.raw.entry, words, env);
        GrubBody(open.raw.entry, words, env);
        assert open.raw == Grub.Entries(st)[|st.raw|];
        GrubBraces(st.(current := Some(open.(raw := open.raw.(entry := e)))), opens, closes);
      } else {
        GrubMenu(st, words, opens, env);
        GrubBraces(Grub.MenuLine(st, words, opens, env), opens, closes);
      }
    }
  }

  lemma {:induction false} GrubRun(lines: seq<string>, env: Env)
    ensures AllGrub(Grub.Entries(Grub.Run(lines, env)))
  {
    hide Grub.Step;
    if lines != [] {
      GrubRun(lines[..|lines| - 1], env);
      GrubStep(Grub.Run(lines[..|lines| - 1], env), lines[|lines| - 1], env);
    }
  }

  lemma GrubIsSound(fs: FileSystem, path: string, env: Env)
    ensures Sound(GrubAt(fs, path, env), Source.Grub)
  {
    hide Grub.Run, Lines, GrubDefault.ResolveDefault, DefaultOk;
    if Found(fs, path) {
      GrubRun(Lines(fs.texts[path]), env);
      GrubDefault.ParsedDefaultOk(fs.texts[path], env);
    }
  }

  lemma {:induction false} FirstGrubIsSound(fs: FileSystem, paths: seq<string>, env: Env)
    ensures Sound(FirstGrub(fs, paths, env), Source.Grub)
  {
    hide GrubAt, Sound;
    if paths == [] {
      NoneIsSound(Source.Grub);
    } else {
      FirstGrubIsSound(fs, paths[..|paths| - 1], env);
      GrubIsSound(fs, paths[|paths| - 1], env);
    }
  }

  lemma NoneIsSound(source: Source)
    ensures Sound(None, source)
  {
  }

  lemma BlsIsSound(fs: FileSystem, prefix: string, env: Env, sdDefault: Option<string>)
    ensures Sound(BlsAt(fs, prefix, env, sdDefault), Source.Bls)
  {
    hide Bls.Items, Bls.DefaultOf, NewestFirst.Sort, DefaultOk;
    var dir := prefix + "/loader/entries";
    if dir in fs.listings {
      var raw := Bls.Items(fs, dir, fs.listings[dir], env);
      Bls.DefaultIsNewestCandidate(fs, dir, env, sdDefault);
      Bls.ItemsAreBls(fs, dir, fs.listings[dir], env);
      NewestFirst.SortIsStable(raw);
      SortedMembers(raw);
    }
  }

  lemma SortedMembers(raw: seq<NewestFirst.Item>)
    ensures forall x :: x in NewestFirst.Sort(raw) ==> x in raw
  {
    hide NewestFirst.Sort;
    NewestFirst.SortIsStable(raw);
    forall x | x in NewestFirst.Sort(raw)
      ensures x in raw
    {
      assert x in multiset(NewestFirst.Sort(raw));
    }
  }

  lemma ExtlinuxIsSound(fs: FileSystem, path: string)
    ensures Sound(ExtlinuxAt(fs, path), Source.Extlinux)
  {
    hide Extlinux.Run, Lines, Extlinux.DefaultOf, DefaultOk;
    if Found(fs, path) {
      Extlinux.LabelsAreEntries(Lines(fs.texts[path]), Parent(path));
      Extlinux.DefaultIsFirstOfLabel(fs.texts[path], Parent(path));
    }
  }

  lemma {:induction false} FirstExtlinuxIsSound(fs: FileSystem, paths: seq<string>)
    ensures Sound(FirstExtlinux(fs, paths), Source.Extlinux)
  {
    hide ExtlinuxAt, Sound;
    if paths == [] {
      NoneIsSound(Source.Extlinux);
    } else {
      FirstExtlinuxIsSound(fs, paths[..|paths| - 1]);
      ExtlinuxIsSound(fs, paths[|paths| - 1]);
    }
  }

  lemma FallbackIsSound(fs: FileSystem)
    ensures DefaultOk(Fallback.Parse(fs)) && AllFrom(Fallback.Parse(fs).entries, Source.Fallback)
  {
    hide Fallback.Items, NewestFirst.Sort, DefaultOk, Fallback.Special;
    Fallback.DefaultIsLinkedElseNewest(fs);
    Fallback.ItemsArePlain(fs, PREFIXES);
    SortedMembers(Fallback.Items(fs, PREFIXES));
  }

  /** Which source counts. */
  function ChosenSource(fs: FileSystem): Source {
    var env := LoadEnv(fs);
    var bls := FirstBls(fs, env, SdDefault(fs)).Some?;
    if bls && UsesBls(fs, GrubPaths(fs), env) then Source.Bls
    else if FirstGrub(fs, GrubPaths(fs), env).Some? then Source.Grub
    else if bls then Source.Bls
    else if FirstExtlinux(fs, EXTLINUX_PATHS).Some? then Source.Extlinux
    else Source.Fallback
  }

  lemma ChosenDefaultOk(fs: FileSystem)
    ensures DefaultOk(Chosen(fs)) && AllFrom(Chosen(fs).entries, ChosenSource(fs))
    ensures Chosen(fs).entries == [] ==> ChosenSource(fs) == Source.Fallback
  {
    hide FirstGrub, UsesBls, BlsAt, FirstExtlinux, Fallback.Parse, LoadEnv, SdDefault, GrubPaths, DefaultOk, AllFrom;
    var env := LoadEnv(fs);
    FirstGrubIsSound(fs, GrubPaths(fs), env);
    BlsIsSound(fs, "", env, SdDefault(fs));
    BlsIsSound(fs, "/boot", env, SdDefault(fs));
    FirstExtlinuxIsSound(fs, EXTLINUX_PATHS);
    FallbackIsSound(fs);
  }

  /** What a filesystem's scan promises, whatever is on it: a default in range, entries of the one
      source that counts, and each of them either hands over to another loader or has a kernel that exists. */
  lemma ScanIsSound(fs: FileSystem)
    ensures var s := ScanOf(fs);
            && DefaultOk(s)
            && forall e :: e in s.entries ==>
                 e.source == ChosenSource(fs) && e.windows.None? && Alive(fs, e) && e in Chosen(fs).entries
  {
    hide Chosen, ChosenSource, Alive, DefaultOk, Kept, Marked;
    ChosenDefaultOk(fs);
    var keep := AliveMask(fs, Chosen(fs).entries);
    RetainCarriesDefault(Chosen(fs), keep);
    var s := ScanOf(fs);
    forall e | e in s.entries
      ensures e.source == ChosenSource(fs) && e.windows.None? && Alive(fs, e) && e in Chosen(fs).entries
    {
      var k :| 0 <= k < |s.entries| && s.entries[k] == e;
      var i := KeptFrom(Chosen(fs).entries, keep, k);
      KeptAt(Chosen(fs).entries, keep, i);
    }
  }

  /** Nothing is kept when everything is stale: a scan is empty exactly when no entry of the source
      that counts has its kernel or hands over to another loader. */
  lemma AllStaleMeansNothing(fs: FileSystem)
    ensures ScanOf(fs).entries == [] <==> forall e :: e in Chosen(fs).entries ==> !Alive(fs, e)
  {
    hide Chosen, Alive, Kept, Marked;
    ChosenDefaultOk(fs);
    var entries := Chosen(fs).entries;
    var keep := AliveMask(fs, entries);
    RetainCarriesDefault(Chosen(fs), keep);
    assert forall i :: 0 <= i < |entries| ==> entries[i] in entries && keep[i] == Alive(fs, entries[i]);
  }

  /** The entry that would boot is the one the source says, if its kernel is there; else the first
      entry of the source that is. */
  lemma ScanKeepsTheDefault(fs: FileSystem, i: nat)
    requires i < |Chosen(fs).entries| && Alive(fs, Chosen(fs).entries[i])
    requires || Chosen(fs).default == Some(i)
             || (Chosen(fs).default.Some? && Chosen(fs).default.value < |Chosen(fs).entries|
                 && !Alive(fs, Chosen(fs).entries[Chosen(fs).default.value])
                 && forall j :: 0 <= j < i ==> !Alive(fs, Chosen(fs).entries[j]))
    ensures var s := ScanOf(fs);
            s.default.Some? && s.default.value < |s.entries| && s.entries[s.default.value] == Chosen(fs).entries[i]
  {
    hide Chosen, Alive, Kept, Marked;
    ChosenDefaultOk(fs);
    var keep := AliveMask(fs, Chosen(fs).entries);
    RetainCarriesDefault(Chosen(fs), keep);
    assert keep[i];
  }

  // ---- The loops ----

  method ParseGrubenv(text: string) returns (env: Env)
    ensures env == EnvOf(Lines(text))
  {
    hide Lines, EnvLine;
    var lines := Lines(text);
    env := map[];
    for n := 0 to |lines|
      invariant env == EnvOf(lines[..n])
    {
      assert lines[..n + 1][..n] == lines[..n];
      env := EnvLine(env, lines[n]);
    }
    assert lines[..|lines|] == lines;
  }

  method LoadGrubenv(fs: FileSystem) returns (env: Env)
    ensures env == LoadEnv(fs)
  {
    hide Lines, EnvOf;
    for n := 0 to |GRUBENVS|
      invariant forall k :: 0 <= k < n ==> !Readable(fs, GRUBENVS[k])
    {
      if GRUBENVS[n] in fs.texts {
        env := ParseGrubenv(fs.texts[GRUBENVS[n]]);
        PositionIs(GRUBENVS, path => Readable(fs, path), n);
        return;
      }
    }
    env := map[];
  }

  /** The loop over the grub.cfg paths. */
  method ScanGrub(fs: FileSystem, paths: seq<string>, env: Env) returns (grub: Option<Scan>, usesBls: bool)
    ensures grub == FirstGrub(fs, paths, env) && usesBls == UsesBls(fs, paths, env)
  {
    hide GrubDefault.Parse;
    grub, usesBls := None, false;
    for n := 0 to |paths|
      invariant grub == FirstGrub(fs, paths[..n], env) && usesBls == UsesBls(fs, paths[..n], env)
    {
      assert paths[..n + 1][..n] == paths[..n];
      if paths[n] !in fs.names || paths[n] !in fs.texts {
        continue;
      }
      var g := GrubDefault.ParseStr(fs.texts[paths[n]], env);
      usesBls := usesBls || g.usesBls;
      if g.scan.entries != [] && grub.None? {
        grub := Some(g.scan);
      }
    }
    assert paths[..|paths|] == paths;
  }

  /** The loop over the BLS directories: it stops at the first that has entries. */
  method ScanBls(fs: FileSystem, env: Env, sdDefault: Option<string>) returns (bls: Option<Scan>)
    ensures bls == FirstBls(fs, env, sdDefault)
  {
    hide Bls.Parse;
    for n := 0 to |PREFIXES|
      invariant forall k :: 0 <= k < n ==> BlsAt(fs, PREFIXES[k], env, sdDefault) == None
    {
      var dir := PREFIXES[n] + "/loader/entries";
      if dir in fs.names {
        var parsed := Bls.ParseDir(fs, dir, env, sdDefault);
        if parsed.Some? && parsed.value.entries != [] {
          assert n == 1 ==> BlsAt(fs, PREFIXES[0], env, sdDefault) == None;
          return parsed;
        }
      }
    }
    assert BlsAt(fs, PREFIXES[0], env, sdDefault) == None && BlsAt(fs, PREFIXES[1], env, sdDefault) == None;
    bls := None;
  }

  /** The loop over the extlinux and syslinux paths. */
  method ScanExtlinux(fs: FileSystem, paths: seq<string>) returns (ext: Option<Scan>)
    ensures ext == FirstExtlinux(fs, paths)
  {
    hide Extlinux.Parse;
    ext := None;
    for n := 0 to |paths|
      invariant ext == FirstExtlinux(fs, paths[..n])
    {
      assert paths[..n + 1][..n] == paths[..n];
      if ext.None? && paths[n] in fs.names && paths[n] in fs.texts {
        var e := Extlinux.ParseStr(fs.texts[paths[n]], Parent(paths[n]));
        if e.entries != [] {
          ext := Some(e);
        }
      }
    }
    assert paths[..|paths|] == paths;
  }

  method ScanFiles(fs: FileSystem) returns (scan: Scan)
    ensures scan == ScanOf(fs)
  {
    hide LoadEnv, GrubPaths, FirstGrub, UsesBls, FirstBls, FirstExtlinux, SdDefault, Retain, Fallback.Parse;
    var env := LoadGrubenv(fs);
    var grub, usesBls := ScanGrub(fs, GrubPaths(fs), env);
    var bls := ScanBls(fs, env, SdDefault(fs));
    var ext := ScanExtlinux(fs, EXTLINUX_PATHS);
    var fallback := Fallback.FallbackScan(fs);
    var chosen := Choose(grub, usesBls, bls, ext, fallback);
    ChosenDefaultOk(fs);
    scan := Retain(chosen, AliveMask(fs, chosen.entries));
  }

  // ---- What the environment block and loader.conf mean ----

  /** A line `key=value` sets the variable, whatever padding of hash marks follows. */
  lemma EnvLineMeans(env: Env, key: string, value: string, hashes: nat)
    requires Tight(key) && key[0] != '#' && '=' !in key
    requires (value == "" || Tight(value)) && !EndsWith(value, "#")
    ensures EnvLine(env, key + "=" + (value + Repeated("#", hashes))) == env[key := value]
    ensures EnvLine(env, "#" + value) == env
  {
    hide Until, Trim, TrimSuffix, EndsWith;
    var padded := value + Repeated("#", hashes);
    var line := key + "=" + padded;
    assert line[0] == key[0];
    UntilIs(line, {'='}, |key|);
    assert line[..|key|] == key && line[|key| + 1..] == padded;
    TrimSuffixMeans(value, "#", hashes);
    TrimKeeps(key);
    if value == "" {
      NothingTrims();
    } else {
      TrimKeeps(value);
    }
  }

  lemma TrimKeeps(s: string)
    requires Tight(s)
    ensures Trim(s) == s
  {
    assert "" + s == s;
    TrimDropsIndent("", s);
  }

  lemma NothingTrims()
    ensures Trim("") == ""
  {
  }

  lemma {:induction false} OthersAreSkipped(before: seq<string>, rest: seq<string>)
    requires forall i :: 0 <= i < |before| ==> !("default" <= Trim(before[i]))
    ensures DefaultLine(before + rest) == DefaultLine(rest)
  {
    hide Trim, TrimSuffix;
    if before == [] {
      assert before + rest == rest;
    } else {
      assert (before + rest)[0] == before[0] && (before + rest)[1..] == before[1..] + rest;
      OthersAreSkipped(before[1..], rest);
    }
  }

  lemma FirstIsTaken(gap: string, value: string, after: seq<string>)
    requires Blank(gap) && gap != [] && value != [] && !IsSpace(value[0]) && !IsSpace(value[|value| - 1])
    ensures DefaultLine(["default" + gap + value] + after) == Some(TrimSuffix(value, ".conf"))
  {
    hide Trim, TrimSuffix, Blank;
    var line := "default" + gap + value;
    DefaultIsRead(gap, value);
    assert ([line] + after)[0] == line;
  }

  /** A line `default` names systemd-boot's default, with or without `.conf`, unless an earlier line does. */
  lemma DefaultLineMeans(before: seq<string>, gap: string, name: string, after: seq<string>)
    requires forall i :: 0 <= i < |before| ==> !("default" <= Trim(before[i]))
    requires Blank(gap) && gap != [] && Tight(name) && !EndsWith(name, ".conf")
    ensures DefaultLine(before + (["default" + gap + name] + after)) == Some(name)
    ensures DefaultLine(before + (["default" + gap + (name + ".conf")] + after)) == Some(name)
    ensures DefaultLine(before + []) == None
  {
    hide DefaultLine, Trim, TrimSuffix, EndsWith, Blank;
    OthersAreSkipped(before, ["default" + gap + name] + after);
    OthersAreSkipped(before, ["default" + gap + (name + ".conf")] + after);
    OthersAreSkipped(before, []);
    FirstIsTaken(gap, name, after);
    FirstIsTaken(gap, name + ".conf", after);
    NoLinesNoDefault();
    TrimSuffixMeans(name, ".conf", 0);
    TrimSuffixMeans(name, ".conf", 1);
    assert Repeated(".conf", 0) == "" && Repeated(".conf", 1) == "" + ".conf" == ".conf" && name + "" == name;
  }

  lemma NoLinesNoDefault()
    ensures DefaultLine([]) == None
  {
  }

  lemma DefaultIsRead(gap: string, value: string)
    requires Blank(gap) && gap != [] && value != [] && !IsSpace(value[0]) && !IsSpace(value[|value| - 1])
    ensures var line := Trim("default" + gap + value); "default" <= line && Trim(line[7..]) == value && value != ""
  {
    hide Trim;
    var line := "default" + gap + value;
    assert line[|line| - 1] == value[|value| - 1] && line[0] == 'd';
    TrimKeeps(line);
    assert line[7..] == gap + value;
    TrimDropsIndent(gap, value);
  }

  // ---- Which configuration counts ----

  /** The grub.cfg that counts is the first one that is there and declares entries. */
  lemma {:induction false} FirstGrubIs(fs: FileSystem, paths: seq<string>, env: Env, i: nat)
    requires i < |paths| && GrubAt(fs, paths[i], env).Some? && forall j :: 0 <= j < i ==> GrubAt(fs, paths[j], env).None?
    ensures FirstGrub(fs, paths, env) == GrubAt(fs, paths[i], env)
  {
    hide GrubAt;
    if i < |paths| - 1 {
      FirstGrubIs(fs, paths[..|paths| - 1], env, i);
    } else {
      NoneGrub(fs, paths[..i], env);
    }
  }

  lemma {:induction false} NoneGrub(fs: FileSystem, paths: seq<string>, env: Env)
    requires forall j :: 0 <= j < |paths| ==> GrubAt(fs, paths[j], env).None?
    ensures FirstGrub(fs, paths, env) == None
  {
    hide GrubAt;
    if paths != [] {
      NoneGrub(fs, paths[..|paths| - 1], env);
    }
  }

  lemma {:induction false} FirstExtlinuxIs(fs: FileSystem, paths: seq<string>, i: nat)
    requires i < |paths| && ExtlinuxAt(fs, paths[i]).Some? && forall j :: 0 <= j < i ==> ExtlinuxAt(fs, paths[j]).None?
    ensures FirstExtlinux(fs, paths) == ExtlinuxAt(fs, paths[i])
  {
    hide ExtlinuxAt;
    if i < |paths| - 1 {
      FirstExtlinuxIs(fs, paths[..|paths| - 1], i);
    } else {
      NoneExtlinux(fs, paths[..i]);
    }
  }

  lemma {:induction false} NoneExtlinux(fs: FileSystem, paths: seq<string>)
    requires forall j :: 0 <= j < |paths| ==> ExtlinuxAt(fs, paths[j]).None?
    ensures FirstExtlinux(fs, paths) == None
  {
    hide ExtlinuxAt;
    if paths != [] {
      NoneExtlinux(fs, paths[..|paths| - 1]);
    }
  }

  /** BLS is handed over to exactly when some grub.cfg that is there says so. */
  lemma {:induction false} UsesBlsIff(fs: FileSystem, paths: seq<string>, env: Env)
    ensures UsesBls(fs, paths, env) <==>
            exists p :: p in paths && p in fs.names && p in fs.texts && GrubDefault.Parse(fs.texts[p], env).usesBls
  {
    hide GrubDefault.Parse;
    if paths != [] {
      var init, last := paths[..|paths| - 1], paths[|paths| - 1];
      UsesBlsIff(fs, init, env);
      assert last in paths && forall p :: p in paths <==> p in init || p == last;
    }
  }

  /** A configuration on the EFI system partition is looked for in every vendor's directory. */
  lemma {:induction false} EfiPathsIff(efi: string, dirs: seq<DirEntry>, path: string)
    ensures path in EfiPaths(efi, dirs) <==> exists d :: d in dirs && d.isDir && path == efi + "/" + d.name + "/grub.cfg"
  {
    if dirs != [] {
      EfiPathsIff(efi, dirs[1..], path);
      assert dirs == [dirs[0]] + dirs[1..] && dirs[0] in dirs;
    }
  }

  /** An entry of the source that counts is kept exactly when it hands over to another loader or its
      kernel is there. */
  lemma KeptIffAlive(fs: FileSystem, e: BootEntry)
    ensures e in ScanOf(fs).entries <==>
            e in Chosen(fs).entries && (e.chainloader.Some? || (e.kernel.Some? && e.kernel.value in fs.names))
  {
    hide Chosen, Kept, Marked;
    ChosenDefaultOk(fs);
    ScanIsSound(fs);
    var entries := Chosen(fs).entries;
    if e in entries && Alive(fs, e) {
      var i :| 0 <= i < |entries| && entries[i] == e;
      KeptAt(entries, AliveMask(fs, entries), i);
    }
  }

  /** The root of the filesystem is looked at before its /boot. */
  lemma RootBeforeBoot(fs: FileSystem, env: Env, sdDefault: Option<string>)
    ensures BlsAt(fs, "", env, sdDefault).Some? ==> FirstBls(fs, env, sdDefault) == BlsAt(fs, "", env, sdDefault)
    ensures BlsAt(fs, "", env, sdDefault).None? ==> FirstBls(fs, env, sdDefault) == BlsAt(fs, "/boot", env, sdDefault)
    ensures LoaderDefault(fs, "").Some? ==> SdDefault(fs) == LoaderDefault(fs, "")
    ensures LoaderDefault(fs, "").None? ==> SdDefault(fs) == LoaderDefault(fs, "/boot")
  {
    hide BlsAt, LoaderDefault;
  }
}
