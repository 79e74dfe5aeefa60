/** The extlinux / syslinux label machine (`parse_str`, src/boot/extlinux.rs). */
module Extlinux {
  import opened Common
  import opened Text
  import opened BootEntries

  function Lower(s: string): (t: string)
    ensures |t| == |s|
  {
    seq(|s|, i requires 0 <= i < |s| => LowerChar(s[i]))
  }

  function LowerChar(c: char): char {
    if 'A' <= c <= 'Z' then ((c as int) + 32) as char else c
  }

  function Resolve(base: string, p: string): string {
    if p != [] && p[0] == '/' then p else base + "/" + p
  }

  function ResolveAll(base: string, paths: seq<string>): (r: seq<string>)
    ensures |r| == |paths|
  {
    seq(|paths|, i requires 0 <= i < |paths| => Resolve(base, paths[i]))
  }

  function TrimAll(paths: seq<string>): seq<string> {
    seq(|paths|, i requires 0 <= i < |paths| => Trim(paths[i]))
  }

  datatype Directive = Nothing | Directive(keyword: string, rest: string)

  /** A line's lower-case keyword and its argument; blank lines, comments and bare words are nothing. */
  function ReadLine(raw: string): Directive {
    var line := Trim(raw);
    var n := UntilSpace(line);
    if line == [] || line[0] == '#' || n == |line| then Nothing
    else Directive(Lower(line[..n]), Trim(line[n + 1..]))
  }

  const INITRD_WORD: string := "initrd="

  /** The initrds that `append` words lift out, and the words that stay. */
  function Lifted(words: seq<string>, base: string): seq<string> {
    if words == [] then []
    else
      var w := words[0];
      (if INITRD_WORD <= w then ResolveAll(base, SplitOn(w[|INITRD_WORD|..], ',')) else []) + Lifted(words[1..], base)
  }

  function Staying(words: seq<string>): seq<string> {
    if words == [] then []
    else (if INITRD_WORD <= words[0] then [] else [words[0]]) + Staying(words[1..])
  }

  datatype State = State(entries: seq<BootEntry>, defaultLabel: Option<string>, current: Option<BootEntry>)

  const START := State([], None, None)

  function NewEntry(name: string): BootEntry {
    BLANK.(title := Some(name), id := Some(name), source := Extlinux)
  }

  /** What a directive inside a label does to its entry. */
  function BodyLine(e: BootEntry, keyword: string, rest: string, base: string): BootEntry {
    if keyword in {"kernel", "linux"} then e.(kernel := Some(Resolve(base, rest)))
    else if keyword == "initrd" then e.(initrd := e.initrd + ResolveAll(base, TrimAll(SplitOn(rest, ','))))
    else if keyword == "append" then
      var words := Fields(rest);
      e.(initrd := e.initrd + Lifted(words, base),
         cmdline := if Staying(words) == [] then e.cmdline else Some(Join(Staying(words), " ")))
    else e
  }

  /** All entries so far, the one under construction included. */
  function Entries(st: State): seq<BootEntry> {
    st.entries + if st.current.Some? then [st.current.value] else []
  }

  function Step(st: State, raw: string, base: string): State {
    match ReadLine(raw)
    case Nothing => st
    case Directive(keyword, rest) =>
      if keyword == "default" then st.(defaultLabel := Some(rest))
      else if keyword == "label" then State(Entries(st), st.defaultLabel, Some(NewEntry(rest)))
      else if st.current.Some? then st.(current := Some(BodyLine(st.current.value, keyword, rest, base)))
      else st
  }

  function Run(lines: seq<string>, base: string): State {
    if lines == [] then START else Step(Run(lines[..|lines| - 1], base), lines[|lines| - 1], base)
  }

  function HasId(name: string): BootEntry -> bool {
    (e: BootEntry) => e.id == Some(name)
  }

  function DefaultOf(entries: seq<BootEntry>, wanted: Option<string>): Option<nat> {
    Or(if wanted.Some? then Position(entries, HasId(wanted.value)) else None, if entries == [] then None else Some(0))
  }

  function Parse(text: string, base: string): Scan {
    var st := Run(Lines(text), base);
    Scan(Entries(st), DefaultOf(Entries(st), st.defaultLabel))
  }

  /** `parse_str`: the loop over the lines, its state in variables updated in place. */
  method ParseStr(text: string, base: string) returns (scan: Scan)
    ensures scan == Parse(text, base)
  {
    hide ReadLine, Run, Lines, BodyLine, NewEntry, Position;
    var entries: seq<BootEntry> := [];
    var defaultLabel: Option<string> := None;
    var current: Option<BootEntry> := None;
    var lines := Lines(text);
    RunNil(base);
    assert lines[..0] == [];
    for n := 0 to |lines|
      invariant State(entries, defaultLabel, current) == Run(lines[..n], base)
    {
      RunSnoc(lines[..n], lines[n], base);
      assert lines[..n + 1] == lines[..n] + [lines[n]];
      var directive := ReadLine(lines[n]);
      if directive.Nothing? {
        continue;
      }
      var keyword, rest := directive.keyword, directive.rest;
      if keyword == "default" {
        defaultLabel := Some(rest);
      } else if keyword == "label" {
        if current.Some? {
          entries := entries + [current.value];
        }
        current := Some(NewEntry(rest));
      } else if current.Some? {
        current := Some(BodyLine(current.value, keyword, rest, base));
      }
    }
    assert lines[..|lines|] == lines;
    if current.Some? {
      entries := entries + [current.value];
    }
    assert entries == Entries(Run(lines, base));
    scan := Scan(entries, DefaultOf(entries, defaultLabel));
  }

  lemma RunNil(base: string)
    ensures Run([], base) == START
  {
  }

  lemma RunSnoc(lines: seq<string>, line: string, base: string)
    ensures Run(lines + [line], base) == Step(Run(lines, base), line, base)
  {
    assert (lines + [line])[..|lines|] == lines;
  }

  predicate IsLabel(raw: string) {
    ReadLine(raw).Directive? && ReadLine(raw).keyword == "label"
  }

  /** The labels of a configuration, in order. */
  function Labels(lines: seq<string>): seq<string> {
    if lines == [] then []
    else
      var last := lines[|lines| - 1];
      Labels(lines[..|lines| - 1]) + if IsLabel(last) then [ReadLine(last).rest] else []
  }

  /** The argument of the last `default` line. */
  function LastDefault(lines: seq<string>): Option<string> {
    if lines == [] then None
    else
      var last := ReadLine(lines[|lines| - 1]);
      if last.Directive? && last.keyword == "default" then Some(last.rest) else LastDefault(lines[..|lines| - 1])
  }

  /** Every label is one entry that carries it, in order. */
  lemma {:induction false} LabelsAreEntries(lines: seq<string>, base: string)
    ensures var entries := Entries(Run(lines, base));
            && |entries| == |Labels(lines)|
            && (forall i :: 0 <= i < |entries| ==>
                  entries[i].id == Some(Labels(lines)[i]) && entries[i].title == Some(Labels(lines)[i]))
            && (forall e :: e in entries ==> e.source == Extlinux && e.windows.None? && e.chainloader.None?)
    ensures Run(lines, base).defaultLabel == LastDefault(lines)
  {
    hide ReadLine, Trim, Fields, SplitOn, Lifted, Staying, Lower, Join, Resolve, ResolveAll, TrimAll;
    if lines != [] {
      LabelsAreEntries(lines[..|lines| - 1], base);
    }
  }

  predicate FirstAt(labels: seq<string>, wanted: string, i: Option<nat>) {
    i.Some? && i.value < |labels| && labels[i.value] == wanted && wanted !in labels[..i.value]
  }

  /** The default is the first entry of the last `default` line's label; without such an entry it is
      the first, and an empty menu has none. */
  lemma DefaultIsFirstOfLabel(text: string, base: string)
    ensures var scan := Parse(text, base); var labels := Labels(Lines(text)); var wanted := LastDefault(Lines(text));
            && DefaultOk(scan)
            && |scan.entries| == |labels|
            && if wanted.Some? && wanted.value in labels then FirstAt(labels, wanted.value, scan.default)
               else labels != [] ==> scan.default == Some(0)
  {
    hide Run, Labels, LastDefault, Position, Lines;
    var lines := Lines(text);
    LabelsAreEntries(lines, base);
    var wanted, labels := LastDefault(lines), Labels(lines);
    if wanted.Some? && wanted.value in labels {
      var i :| 0 <= i < |labels| && labels[i] == wanted.value;
      assert HasId(wanted.value)(Entries(Run(lines, base))[i]);
    }
  }

  /** A configuration cut at a label parses as its two parts one after the other: nothing in one
      block reaches an entry of another. */
  lemma {:induction false} BlocksAreIndependent(a: seq<string>, b: seq<string>, base: string)
    requires b != [] && IsLabel(b[0])
    ensures Run(a + b, base).entries == Entries(Run(a, base)) + Run(b, base).entries
    ensures Run(a + b, base).current == Run(b, base).current && Run(b, base).current.Some?
    ensures Entries(Run(a + b, base)) == Entries(Run(a, base)) + Entries(Run(b, base))
  {
    hide ReadLine, BodyLine, NewEntry;
    var init, last := b[..|b| - 1], b[|b| - 1];
    assert b == init + [last] && a + b == (a + init) + [last];
    RunSnoc(init, last, base);
    RunSnoc(a + init, last, base);
    if init == [] {
      assert a + init == a;
    } else {
      BlocksAreIndependent(a, init, base);
    }
  }

  // ---- What the directives mean ----

  lemma LowerMeans(c: char)
    ensures 'A' <= c <= 'Z' ==> LowerChar(c) as int == c as int - 'A' as int + 'a' as int
    ensures !('A' <= c <= 'Z') ==> LowerChar(c) == c
  {
  }

  /** A line is its keyword in lower case and the rest, however it is indented and spaced. */
  lemma LineMeans(indent: string, kw: string, gap: string, rest: string)
    requires Blank(indent) && Word(kw) && kw[0] != '#' && Blank(gap) && gap != [] && Tight(rest)
    ensures ReadLine(indent + (kw + (gap + rest))) == Directive(Lower(kw), rest)
    ensures ReadLine(indent + kw) == Nothing
  {
    hide Trim, UntilSpace, Lower;
    var line := kw + (gap + rest);
    assert kw[|kw| - 1] == kw[|kw| - 1] && Tight(kw);
    assert line[|line| - 1] == rest[|rest| - 1] && line[0] == kw[0];
    TrimDropsIndent(indent, line);
    TrimDropsIndent(indent, kw);
    UntilSpaceIs(kw, gap + rest);
    UntilSpaceIs(kw, "");
    assert kw + "" == kw;
    assert line[..|kw|] == kw && line[|kw| + 1..] == gap[1..] + rest;
    TrimDropsIndent(gap[1..], rest);
  }

  /** A path is taken as it is when absolute, else from the configuration's directory. */
  lemma KernelMeans(e: BootEntry, path: string, base: string)
    ensures BodyLine(e, "kernel", path, base) == e.(kernel := Some(if "/" <= path then path else base + "/" + path))
    ensures BodyLine(e, "linux", path, base) == BodyLine(e, "kernel", path, base)
  {
  }

  /** `initrd` adds the paths between its commas, in order. */
  lemma InitrdMeans(e: BootEntry, paths: seq<string>, base: string)
    requires paths != [] && forall i :: 0 <= i < |paths| ==> ',' !in paths[i]
    ensures var e' := BodyLine(e, "initrd", Join(paths, ","), base);
            && e' == e.(initrd := e'.initrd) && |e'.initrd| == |e.initrd| + |paths| && e.initrd <= e'.initrd
            && forall i :: 0 <= i < |paths| ==> e'.initrd[|e.initrd| + i] == Resolve(base, Trim(paths[i]))
  {
    hide SplitOn, Trim, Join, Fields, Resolve;
    SplitUndoesJoin(paths, ',');
  }

  lemma {:induction false} StayingConcat(a: seq<string>, b: seq<string>)
    ensures Staying(a + b) == Staying(a) + Staying(b)
  {
    if a == [] {
      assert a + b == b;
    } else {
      var one := if INITRD_WORD <= a[0] then [] else [a[0]];
      assert (a + b)[1..] == a[1..] + b && (a + b)[0] == a[0];
      StayingConcat(a[1..], b);
      hide Staying;
      assert one + (Staying(a[1..]) + Staying(b)) == (one + Staying(a[1..])) + Staying(b);
    }
  }

  lemma {:induction false} LiftedConcat(a: seq<string>, b: seq<string>, base: string)
    ensures Lifted(a + b, base) == Lifted(a, base) + Lifted(b, base)
  {
    hide ResolveAll, SplitOn;
    if a == [] {
      assert a + b == b;
    } else {
      var one := if INITRD_WORD <= a[0] then ResolveAll(base, SplitOn(a[0][|INITRD_WORD|..], ',')) else [];
      assert (a + b)[1..] == a[1..] + b && (a + b)[0] == a[0];
      LiftedConcat(a[1..], b, base);
      assert one + (Lifted(a[1..], base) + Lifted(b, base)) == (one + Lifted(a[1..], base)) + Lifted(b, base);
    }
  }

  lemma {:induction false} AllStay(words: seq<string>, base: string)
    requires forall i :: 0 <= i < |words| ==> !("initrd=" <= words[i])
    ensures Staying(words) == words && Lifted(words, base) == []
  {
    hide ResolveAll, SplitOn;
    if words != [] {
      AllStay(words[1..], base);
    }
  }

  /** Words that stay on the command line. */
  predicate Stays(words: seq<string>) {
    forall i :: 0 <= i < |words| ==> Word(words[i]) && !("initrd=" <= words[i])
  }

  lemma AppendWords(before: seq<string>, word: string, after: seq<string>, lifted: seq<string>, base: string)
    requires Stays(before) && Stays(after) && Staying([word]) == [] && Lifted([word], base) == lifted
    ensures Staying(before + [word] + after) == before + after && Lifted(before + [word] + after, base) == lifted
  {
    hide Staying, Lifted, Word;
    StayingConcat(before + [word], after);
    StayingConcat(before, [word]);
    LiftedConcat(before + [word], after, base);
    LiftedConcat(before, [word], base);
    AllStay(before, base);
    AllStay(after, base);
    assert before + [] == before && [] + lifted + [] == lifted;
  }

  lemma AppendFields(before: seq<string>, word: string, after: seq<string>)
    requires Stays(before) && Stays(after) && Word(word)
    ensures Fields(Join(before + [word] + after, " ")) == before + [word] + after
  {
    hide Fields, Join, Word;
    var words := before + [word] + after;
    assert forall i :: 0 <= i < |words| ==> Word(words[i]);
    FieldsUndoJoin(words);
  }

  /** `append` is the command line, except that the paths of an `initrd=` word are lifted out of it. */
  lemma AppendMeans(e: BootEntry, before: seq<string>, paths: seq<string>, after: seq<string>, base: string)
    requires Stays(before) && Stays(after)
    requires paths != [] && (forall i :: 0 <= i < |paths| ==> ',' !in paths[i]) && NoSpace(Join(paths, ","))
    ensures var words := before + ["initrd=" + Join(paths, ",")] + after; var stay := before + after;
            BodyLine(e, "append", Join(words, " "), base) ==
            e.(initrd := e.initrd + ResolveAll(base, paths), cmdline := if stay == [] then e.cmdline else Some(Join(stay, " ")))
  {
    hide Fields, Join, ResolveAll, SplitOn, Staying, Lifted, TrimAll, Word, BodyLine, Stays;
    var word := "initrd=" + Join(paths, ",");
    InitrdIsAWord(Join(paths, ","));
    AppendFields(before, word, after);
    OneLifted(paths, base);
    AppendWords(before, word, after, ResolveAll(base, paths), base);
    AppendIs(e, Join(before + [word] + after, " "), base);
  }

  lemma InitrdIsAWord(paths: string)
    requires NoSpace(paths)
    ensures Word("initrd=" + paths)
  {
  }

  lemma AppendIs(e: BootEntry, rest: string, base: string)
    ensures BodyLine(e, "append", rest, base) ==
            e.(initrd := e.initrd + Lifted(Fields(rest), base),
               cmdline := if Staying(Fields(rest)) == [] then e.cmdline else Some(Join(Staying(Fields(rest)), " ")))
  {
    hide Fields, Join, Staying, Lifted;
  }

  lemma OneLifted(paths: seq<string>, base: string)
    requires paths != [] && forall i :: 0 <= i < |paths| ==> ',' !in paths[i]
    ensures Staying(["initrd=" + Join(paths, ",")]) == []
    ensures Lifted(["initrd=" + Join(paths, ",")], base) == ResolveAll(base, paths)
  {
    hide Join, ResolveAll, SplitOn;
    var word := "initrd=" + Join(paths, ",");
    assert word[7..] == Join(paths, ",");
    var one: seq<string> := [word];
    assert one[1..] == [];
    SplitUndoesJoin(paths, ',');
    assert ResolveAll(base, paths) + [] == ResolveAll(base, paths);
  }

  /** A directive inside a label changes that label's entry and nothing else. */
  lemma DirectiveStep(st: State, raw: string, base: string)
    requires st.current.Some? && ReadLine(raw).Directive? && ReadLine(raw).keyword !in {"label", "default"}
    ensures Step(st, raw, base) ==
            st.(current := Some(BodyLine(st.current.value, ReadLine(raw).keyword, ReadLine(raw).rest, base)))
  {
    hide ReadLine, BodyLine;
  }
}
