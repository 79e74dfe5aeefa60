/** Menus as grub-mkconfig writes them, and that the parser reads them back (src/boot/grub.rs). */
module GrubRender {
  import opened Common
  import opened Text
  import opened BootEntries
  import opened Grub
  import opened GrubDefault

  /** An entry as it is declared. */
  datatype Declared = Declared(title: string, id: string, kernel: string, args: seq<string>, initrds: seq<string>)

  /** A top-level item as it is declared. */
  datatype Block = Single(entry: Declared) | Menu(title: string, id: string, entries: seq<Declared>)

  // ---- What it means ----

  function EntryOf(d: Declared): BootEntry {
    BLANK.(title := Some(d.title), id := Some(d.id), source := Grub, kernel := Some(d.kernel), initrd := d.initrds,
           cmdline := if d.args == [] then None else Some(Join(d.args, " ")))
  }

  function EntriesOfAll(ds: seq<Declared>): (r: seq<BootEntry>)
    ensures |r| == |ds| && forall i :: 0 <= i < |r| ==> r[i] == EntryOf(ds[i])
  {
    seq(|ds|, i requires 0 <= i < |ds| => EntryOf(ds[i]))
  }

  function ItemOfBlock(b: Block): Item {
    match b
    case Single(d) => Leaf(EntryOf(d))
    case Menu(title, id, ds) => Sub(Some(id), Some(title), EntriesOfAll(ds))
  }

  function MenuOf(blocks: seq<Block>): (menu: seq<Item>)
    ensures |menu| == |blocks|
  {
    seq(|blocks|, i requires 0 <= i < |blocks| => ItemOfBlock(blocks[i]))
  }

  // ---- How it is written ----

  function BareAll(words: seq<string>): (r: seq<Token>)
    ensures |r| == |words| && forall i :: 0 <= i < |r| ==> r[i] == Bare(words[i])
  {
    seq(|words|, i requires 0 <= i < |words| => Bare(words[i]))
  }

  function Header(keyword: string, title: string, id: string): seq<Token> {
    [Bare(keyword), Quoted(title), Bare(ID_OPTION), Quoted(id), Bare("{")]
  }

  function KernelLine(d: Declared): seq<Token> {
    [Bare("linux"), Bare(d.kernel)] + BareAll(d.args)
  }

  function InitrdLine(d: Declared): seq<Token> {
    [Bare("initrd")] + BareAll(d.initrds)
  }

  /** One entry, its lines indented. */
  function EntryLines(d: Declared, indent: string): seq<string> {
    [indent + LineOf(Header("menuentry", d.title, d.id)),
     indent + "\t" + LineOf(KernelLine(d)),
     indent + "\t" + LineOf(InitrdLine(d)),
     indent + "}"]
  }

  function EntriesLines(ds: seq<Declared>, indent: string): seq<string> {
    if ds == [] then [] else EntriesLines(ds[..|ds| - 1], indent) + EntryLines(ds[|ds| - 1], indent)
  }

  function BlockLines(b: Block): seq<string> {
    match b
    case Single(d) => EntryLines(d, "")
    case Menu(title, id, ds) => [LineOf(Header("submenu", title, id))] + EntriesLines(ds, "\t") + ["}"]
  }

  function MenuLines(blocks: seq<Block>): seq<string> {
    if blocks == [] then [] else MenuLines(blocks[..|blocks| - 1]) + BlockLines(blocks[|blocks| - 1])
  }

  // ---- What can be written so ----

  /** A title or id: one line, not empty, no single quote, and not one of the words the parser looks for. */
  predicate Name(s: string) {
    s != [] && (forall i :: 0 <= i < |s| ==> s[i] != '\'' && s[i] != '\n') && s != ID_OPTION && s != "blscfg"
  }

  /** A word without blanks, quotes, variables or a brace at its end. */
  predicate PlainWord(s: string) {
    s != [] && (forall i :: 0 <= i < |s| ==> Plain(s[i]) && s[i] != '$') && s[|s| - 1] != '{'
  }

  predicate PlainPath(s: string) {
    PlainWord(s) && s[0] == '/'
  }

  predicate Declarable(d: Declared) {
    && Name(d.title) && Name(d.id) && PlainPath(d.kernel)
    && (forall i :: 0 <= i < |d.args| ==> PlainWord(d.args[i]))
    && forall i :: 0 <= i < |d.initrds| ==> PlainPath(d.initrds[i])
  }

  predicate DeclarableAll(ds: seq<Declared>) {
    forall i :: 0 <= i < |ds| ==> Declarable(ds[i])
  }

  predicate DeclarableBlock(b: Block) {
    match b
    case Single(d) => Declarable(d)
    case Menu(title, id, ds) => Name(title) && Name(id) && DeclarableAll(ds)
  }

  // ---- One line ----

  function FirstChar(t: Token): char
    requires t.text != []
  {
    if t.Bare? then t.text[0] else '\''
  }

  function LastChar(t: Token): char
    requires t.text != []
  {
    if t.Bare? then t.text[|t.text| - 1] else '\''
  }

  predicate Ends(s: string, first: char, last: char) {
    s != [] && s[0] == first && s[|s| - 1] == last
  }

  lemma SpellingEnds(t: Token)
    requires Writable(t)
    ensures t.text != [] && Ends(Spelling(t), FirstChar(t), LastChar(t)) && !IsSpace(FirstChar(t)) && !IsSpace(LastChar(t))
  {
  }

  /** Where a written line starts and ends. */
  lemma {:induction false} LineEnds(tokens: seq<Token>)
    requires tokens != [] && forall i :: 0 <= i < |tokens| ==> Writable(tokens[i])
    ensures var line, first, last := LineOf(tokens), tokens[0], tokens[|tokens| - 1];
            && first.text != [] && last.text != [] && Ends(line, FirstChar(first), LastChar(last)) && Tight(line)
            && (|tokens| > 1 ==> |line| > 1)
  {
    hide Writable, Spelling, FirstChar, LastChar;
    SpellingEnds(tokens[0]);
    if |tokens| > 1 {
      LineEnds(tokens[1..]);
      assert tokens[1..][|tokens| - 2] == tokens[|tokens| - 1];
      var s, rest := Spelling(tokens[0]), LineOf(tokens[1..]);
      assert LineOf(tokens) == s + [' '] + rest;
      assert (s + [' '] + rest)[|s| + |rest|] == rest[|rest| - 1];
    }
  }

  /** The line of `tokens` may be indented. */
  ghost predicate IsLine(raw: string, tokens: seq<Token>) {
    exists indent :: Blank(indent) && raw == indent + LineOf(tokens)
  }

  predicate AllWritable(tokens: seq<Token>) {
    forall i :: 0 <= i < |tokens| ==> Writable(tokens[i])
  }

  /** What the machine gets to see of a written line. */
  lemma LineIsRead(raw: string, tokens: seq<Token>)
    requires IsLine(raw, tokens) && tokens != [] && AllWritable(tokens)
    ensures var last := tokens[|tokens| - 1]; var line := Trim(raw);
            && line != [] && Words(line) == Texts(tokens)
            && tokens[0].text != [] && last.text != [] && Ends(line, FirstChar(tokens[0]), LastChar(last))
            && (|tokens| > 1 ==> line != "}")
  {
    hide Trim, Words, LineOf, Writable, Blank;
    var indent :| Blank(indent) && raw == indent + LineOf(tokens);
    LineEnds(tokens);
    TrimDropsIndent(indent, LineOf(tokens));
    WordsUndoSpelling(tokens);
  }

  // ---- Whole runs ----

  /** The machine over further lines. */
  function RunOn(st: State, lines: seq<string>, env: Env): State
    decreases |lines|
  {
    if lines == [] then st else RunOn(Step(st, lines[0], env), lines[1..], env)
  }

  lemma {:induction false} RunConcat(a: seq<string>, b: seq<string>, env: Env)
    ensures Run(a + b, env) == RunOn(Run(a, env), b, env)
    decreases |b|
  {
    hide Step;
    if b == [] {
      assert a + b == a;
    } else {
      var next := a + [b[0]];
      assert a + b == next + b[1..] && next[..|a|] == a;
      RunConcat(next, b[1..], env);
    }
  }

  lemma {:induction false} RunOnConcat(st: State, a: seq<string>, b: seq<string>, env: Env)
    ensures RunOn(st, a + b, env) == RunOn(RunOn(st, a, env), b, env)
    decreases |a|
  {
    hide Step;
    if a == [] {
      assert a + b == b;
    } else {
      assert (a + b)[1..] == a[1..] + b;
      RunOnConcat(Step(st, a[0], env), a[1..], b, env);
    }
  }

  // ---- Headers ----

  lemma KeywordIsWritable(keyword: string)
    requires keyword in {"menuentry", "submenu", "{"} || keyword == ID_OPTION
    ensures Writable(Bare(keyword))
  {
    if keyword == "menuentry" {
      assert Writable(Bare("menuentry"));
    } else if keyword == "submenu" {
      assert Writable(Bare("submenu"));
    } else if keyword == "{" {
      assert Writable(Bare("{"));
    }
  }

  lemma HeaderIsWritable(keyword: string, title: string, id: string)
    requires keyword in {"menuentry", "submenu"} && Name(title) && Name(id)
    ensures AllWritable(Header(keyword, title, id))
  {
    hide Writable;
    KeywordIsWritable(keyword);
    KeywordIsWritable(ID_OPTION);
    KeywordIsWritable("{");
    NameIsWritable(title);
    NameIsWritable(id);
  }

  lemma NameIsWritable(s: string)
    requires Name(s)
    ensures Writable(Quoted(s))
  {
  }

  lemma HeaderWords(keyword: string, title: string, id: string)
    requires keyword in {"menuentry", "submenu"} && Name(title) && Name(id)
    ensures var words := Texts(Header(keyword, title, id));
            && words == [keyword, title, ID_OPTION, id, "{"]
            && "blscfg" !in words && MenuId(words) == Some(id) && WordAt(words, 1) == Some(title)
  {
    hide Position;
    var words := Texts(Header(keyword, title, id));
    assert words == [keyword, title, ID_OPTION, id, "{"];
    PositionIs(words, (w: string) => w == ID_OPTION, 2);
  }

  /** The state after a menuentry line: an entry is open, in the open submenu or at the top. */
  function Opened(st: State, e: BootEntry): State {
    match st.submenu
    case Some(m) =>
      st.(depth := st.depth + 1, submenu := Some(m.(next := m.next + 1)),
          current := Some(OpenEntry(st.depth, RawEntry(e, m.top, Some(m.next)))))
    case None =>
      st.(depth := st.depth + 1, topCount := st.topCount + 1,
          current := Some(OpenEntry(st.depth, RawEntry(e, st.topCount, None))))
  }

  function Started(d: Declared): BootEntry {
    BLANK.(title := Some(d.title), id := Some(d.id), source := Grub)
  }

  lemma HeaderStep(st: State, raw: string, d: Declared, env: Env)
    requires st.current.None? && Name(d.title) && Name(d.id) && IsLine(raw, Header("menuentry", d.title, d.id))
    ensures Step(st, raw, env) == Opened(st, Started(d))
  {
    hide Trim, Words, MenuId, WordAt, IsLine, Name, Position, Writable;
    HeaderIsWritable("menuentry", d.title, d.id);
    HeaderWords("menuentry", d.title, d.id);
    LineIsRead(raw, Header("menuentry", d.title, d.id));
  }

  lemma SubmenuStep(st: State, raw: string, title: string, id: string, env: Env)
    requires st.current.None? && Name(title) && Name(id) && IsLine(raw, Header("submenu", title, id))
    ensures Step(st, raw, env) ==
            st.(depth := st.depth + 1, topCount := st.topCount + 1,
                submenus := st.submenus + [RawSubmenu(st.topCount, Some(id), Some(title))],
                submenu := Some(OpenMenu(st.depth, st.topCount, 0)))
  {
    hide Trim, Words, MenuId, WordAt, IsLine, Name, Position, Writable;
    HeaderIsWritable("submenu", title, id);
    HeaderWords("submenu", title, id);
    LineIsRead(raw, Header("submenu", title, id));
  }

  // ---- Bodies ----

  lemma {:induction false} ExpandPlain(s: string, env: Env)
    requires forall i :: 0 <= i < |s| ==> s[i] != '$'
    ensures Expand(s, env) == s
  {
    if s != [] {
      ExpandPlain(s[1..], env);
    }
  }

  lemma {:induction false} JoinIsTight(words: seq<string>)
    requires words != [] && forall i :: 0 <= i < |words| ==> PlainWord(words[i])
    ensures Tight(Join(words, " ")) && forall i :: 0 <= i < |Join(words, " ")| ==> Join(words, " ")[i] != '$'
  {
    hide PlainWord;
    WordIsTight(words[0]);
    if |words| > 1 {
      JoinIsTight(words[1..]);
    }
  }

  lemma WordIsTight(s: string)
    requires PlainWord(s)
    ensures Tight(s) && forall i :: 0 <= i < |s| ==> s[i] != '$'
  {
  }

  lemma {:induction false} PathsAreClean(paths: seq<string>)
    requires forall i :: 0 <= i < |paths| ==> PlainPath(paths[i])
    ensures CleanPaths(paths) == paths
  {
    hide PlainPath;
    if paths != [] {
      PathIsClean(paths[0]);
      PathsAreClean(paths[1..]);
    }
  }

  lemma PathIsClean(p: string)
    requires PlainPath(p)
    ensures CleanPath(p) == p
  {
  }

  /** The command line as the machine reads it off the words. */
  lemma ArgsAreRead(args: seq<string>, env: Env)
    requires forall i :: 0 <= i < |args| ==> PlainWord(args[i])
    ensures Trim(Expand(Join(args, " "), env)) == Join(args, " ")
    ensures Join(args, " ") == [] <==> args == []
  {
    hide Trim, Expand, Join, PlainWord;
    if args == [] {
      NoArgs(env);
    } else {
      JoinIsTight(args);
      ExpandPlain(Join(args, " "), env);
      assert [] + Join(args, " ") == Join(args, " ");
      TrimDropsIndent([], Join(args, " "));
    }
  }

  lemma NoArgs(env: Env)
    ensures Trim(Expand(Join([], " "), env)) == [] == Join([], " ")
  {
  }

  lemma KernelBody(d: Declared, e: BootEntry, env: Env)
    requires Declarable(d) && e.cmdline.None?
    ensures BodyLine(e, Texts(KernelLine(d)), env) ==
            e.(kernel := Some(d.kernel), cmdline := if d.args == [] then None else Some(Join(d.args, " ")))
  {
    hide Trim, Expand, Join, CleanPath, CleanPaths, Position, PlainWord, Name;
    var words := Texts(KernelLine(d));
    assert words == ["linux", d.kernel] + d.args;
    assert words[2..] == d.args;
    PathIsClean(d.kernel);
    ArgsAreRead(d.args, env);
  }

  lemma InitrdBody(d: Declared, e: BootEntry, env: Env)
    requires Declarable(d)
    ensures BodyLine(e, Texts(InitrdLine(d)), env) == e.(initrd := d.initrds)
  {
    hide Trim, Expand, Join, CleanPath, CleanPaths, Position, PlainWord, Name, PlainPath;
    var words := Texts(InitrdLine(d));
    assert words == ["initrd"] + d.initrds;
    assert words[1..] == d.initrds;
    PathsAreClean(d.initrds);
  }

  /** A line inside an entry that neither opens nor closes a block. */
  lemma BodyStep(st: State, raw: string, tokens: seq<Token>, env: Env)
    requires st.current.Some? && IsLine(raw, tokens) && tokens != [] && AllWritable(tokens)
    requires tokens[0].Bare? && tokens[0].text[0] != '#' && tokens[0].text[0] != '}'
    requires var last := tokens[|tokens| - 1]; last.Bare? && last.text[|last.text| - 1] != '{'
    ensures var open := st.current.value;
            Step(st, raw, env) ==
            st.(current := Some(open.(raw := open.raw.(entry := BodyLine(open.raw.entry, Texts(tokens), env)))))
  {
    hide Trim, Words, BodyLine, IsLine, Writable;
    LineIsRead(raw, tokens);
  }

  lemma WordIsWritable(s: string)
    requires PlainWord(s)
    ensures Writable(Bare(s)) && s[|s| - 1] != '{'
  {
  }

  lemma BodyIsWritable(d: Declared)
    requires Declarable(d)
    ensures AllWritable(KernelLine(d)) && AllWritable(InitrdLine(d))
    ensures var k := KernelLine(d); var text := k[|k| - 1].text; k[|k| - 1].Bare? && text[|text| - 1] != '{'
    ensures var r := InitrdLine(d); var text := r[|r| - 1].text; r[|r| - 1].Bare? && text[|text| - 1] != '{'
  {
    hide PlainWord, Name;
    var kernel, initrd := KernelLine(d), InitrdLine(d);
    forall i | 0 <= i < |kernel|
      ensures Writable(kernel[i]) && kernel[i].Bare? && kernel[i].text[|kernel[i].text| - 1] != '{'
    {
      if i == 1 {
        WordIsWritable(d.kernel);
      } else if i > 1 {
        WordIsWritable(d.args[i - 2]);
      }
    }
    forall i | 0 <= i < |initrd|
      ensures Writable(initrd[i]) && initrd[i].Bare? && initrd[i].text[|initrd[i].text| - 1] != '{'
    {
      if i > 0 {
        WordIsWritable(d.initrds[i - 1]);
      }
    }
  }

  /** The lone brace that ends an entry. */
  lemma CloseStep(st: State, raw: string, env: Env)
    requires IsLine(raw, [Bare("}")])
    ensures Step(st, raw, env) ==
            Braces(if st.current.None? then st else st.(current := Some(st.current.value)), false, true)
  {
    hide Trim, Words, IsLine, Braces, KeywordOf;
    LineIsRead(raw, [Bare("}")]);
    var line := Trim(raw);
    var words := Words(line);
    assert words == ["}"];
    BraceLine(raw);
    BraceIsNothing(env);
  }

  lemma BraceLine(raw: string)
    requires IsLine(raw, [Bare("}")])
    ensures Trim(raw) == "}"
  {
    hide Trim, Blank;
    var indent :| Blank(indent) && raw == indent + LineOf([Bare("}")]);
    assert LineOf([Bare("}")]) == "}";
    TrimDropsIndent(indent, "}");
  }

  lemma BraceIsNothing(env: Env)
    ensures KeywordOf(["}"], false) == Other && "blscfg" !in ["}"]
    ensures forall e :: BodyLine(e, ["}"], env) == e
  {
    hide Position;
  }

  // ---- Entries ----

  /** The state after an entry: it has been added where it was opened. */
  function Added(st: State, e: BootEntry): State {
    match st.submenu
    case Some(m) => st.(raw := st.raw + [RawEntry(e, m.top, Some(m.next))], submenu := Some(m.(next := m.next + 1)))
    case None => st.(raw := st.raw + [RawEntry(e, st.topCount, None)], topCount := st.topCount + 1)
  }

  lemma IndentedLine(indent: string, tokens: seq<Token>)
    requires Blank(indent)
    ensures IsLine(indent + LineOf(tokens), tokens) && IsLine(indent + "\t" + LineOf(tokens), tokens)
  {
    assert Blank(indent + "\t");
  }

  lemma FourSteps(st: State, lines: seq<string>, env: Env)
    requires |lines| == 4
    ensures RunOn(st, lines, env) == Step(Step(Step(Step(st, lines[0], env), lines[1], env), lines[2], env), lines[3], env)
  {
    hide Step;
    assert lines[1..][1..] == lines[2..] && lines[2..][1..] == lines[3..] && lines[3..][1..] == [];
    var s1 := Step(st, lines[0], env);
    var s2 := Step(s1, lines[1], env);
    var s3 := Step(s2, lines[2], env);
    assert RunOn(s3, lines[3..], env) == Step(s3, lines[3], env);
    assert RunOn(s2, lines[2..], env) == RunOn(s3, lines[3..], env);
    assert RunOn(s1, lines[1..], env) == RunOn(s2, lines[2..], env);
  }

  lemma EntryIsRead(st: State, d: Declared, indent: string, env: Env)
    requires Declarable(d) && Blank(indent) && st.current.None?
    ensures RunOn(st, EntryLines(d, indent), env) == Added(st, EntryOf(d))
  {
    hide Step, BodyLine, LineOf, IsLine, Blank, Declarable, Join, AllWritable, KernelLine, InitrdLine;
    var lines := EntryLines(d, indent);
    FourSteps(st, lines, env);
    NamesOf(d);
    IndentedLine(indent, Header("menuentry", d.title, d.id));
    IndentedLine(indent, KernelLine(d));
    IndentedLine(indent, InitrdLine(d));
    IndentedLine(indent, [Bare("}")]);
    BraceText();
    BodyIsWritable(d);
    BodyStarts(d);
    HeaderStep(st, lines[0], d, env);
    var s1 := Opened(st, Started(d));
    BodyStep(s1, lines[1], KernelLine(d), env);
    KernelBody(d, Started(d), env);
    var s2 := Step(s1, lines[1], env);
    BodyStep(s2, lines[2], InitrdLine(d), env);
    InitrdBody(d, s2.current.value.raw.entry, env);
    var s3 := Step(s2, lines[2], env);
    assert s3.current.value.raw.entry == EntryOf(d);
    CloseStep(s3, lines[3], env);
  }

  lemma BraceText()
    ensures LineOf([Bare("}")]) == "}"
  {
  }

  lemma NamesOf(d: Declared)
    requires Declarable(d)
    ensures Name(d.title) && Name(d.id)
  {
  }

  lemma BodyStarts(d: Declared)
    ensures KernelLine(d) != [] && InitrdLine(d) != []
    ensures KernelLine(d)[0] == Bare("linux") && InitrdLine(d)[0] == Bare("initrd")
  {
  }

  /** Entries `ds` one after the other, in submenu `top` from number `next` on. */
  lemma {:induction false} EntriesAreRead(st: State, ds: seq<Declared>, indent: string, env: Env)
    requires DeclarableAll(ds) && Blank(indent) && st.current.None? && st.submenu.Some? && st.submenu.value.next == 0
    ensures var m := st.submenu.value;
            RunOn(st, EntriesLines(ds, indent), env) ==
            st.(raw := st.raw + Children(EntriesOfAll(ds), m.top), submenu := Some(m.(next := |ds|)))
  {
    hide RunOn, EntryLines, Declarable, Blank, EntryOf;
    var m := st.submenu.value;
    if ds == [] {
      RunOnNothing(st, env);
      assert st.raw + Children(EntriesOfAll(ds), m.top) == st.raw;
    } else {
      var init, last := ds[..|ds| - 1], ds[|ds| - 1];
      EntriesAreRead(st, init, indent, env);
      RunOnConcat(st, EntriesLines(init, indent), EntryLines(last, indent), env);
      var mid := RunOn(st, EntriesLines(init, indent), env);
      EntryIsRead(mid, last, indent, env);
      assert Children(EntriesOfAll(ds), m.top) ==
             Children(EntriesOfAll(init), m.top) + [RawEntry(EntryOf(last), m.top, Some(|init|))];
    }
  }

  lemma RunOnNothing(st: State, env: Env)
    ensures RunOn(st, [], env) == st
  {
  }

  lemma RunOnOne(st: State, line: string, env: Env)
    ensures RunOn(st, [line], env) == Step(st, line, env)
  {
    hide Step;
    assert [line][1..] == [];
  }

  // ---- Blocks and menus ----

  /** Between top-level blocks: nothing is open. */
  function Between(menu: seq<Item>, spec: Option<string>): State {
    State(Flatten(menu), Submenus(menu), spec, false, 0, |menu|, None, None)
  }

  lemma SubmenuIsRead(menu: seq<Item>, spec: Option<string>, title: string, id: string, ds: seq<Declared>, env: Env)
    requires Name(title) && Name(id) && DeclarableAll(ds)
    ensures RunOn(Between(menu, spec), BlockLines(Menu(title, id, ds)), env) ==
            Between(menu + [Sub(Some(id), Some(title), EntriesOfAll(ds))], spec)
  {
    hide RunOn, Step, Header, Name, DeclarableAll, LineOf, IsLine, Flatten, Submenus, EntriesLines, Children, EntriesOfAll;
    var st, head, body := Between(menu, spec), LineOf(Header("submenu", title, id)), EntriesLines(ds, "\t");
    RunOnConcat(st, [head] + body, ["}"], env);
    RunOnConcat(st, [head], body, env);
    RunOnOne(st, head, env);
    IndentedLine("", Header("submenu", title, id));
    assert "" + head == head;
    SubmenuStep(st, head, title, id, env);
    var begun := Step(st, head, env);
    EntriesAreRead(begun, ds, "\t", env);
    var filled := RunOn(begun, body, env);
    RunOnOne(filled, "}", env);
    IndentedLine("", [Bare("}")]);
    BraceText();
    assert "" + "}" == "}";
    CloseStep(filled, "}", env);
    FlattenSnoc(menu, Sub(Some(id), Some(title), EntriesOfAll(ds)));
  }

  lemma BlockIsRead(menu: seq<Item>, spec: Option<string>, b: Block, env: Env)
    requires DeclarableBlock(b)
    ensures RunOn(Between(menu, spec), BlockLines(b), env) == Between(menu + [ItemOfBlock(b)], spec)
  {
    hide RunOn, EntryLines, Declarable, EntryOf, Flatten, Submenus, Name, EntriesOfAll, DeclarableAll;
    match b {
      case Single(d) =>
        assert Blank("");
        EntryIsRead(Between(menu, spec), d, "", env);
        FlattenSnoc(menu, Leaf(EntryOf(d)));
      case Menu(title, id, ds) => SubmenuIsRead(menu, spec, title, id, ds, env);
    }
  }

  lemma {:induction false} BlocksAreRead(blocks: seq<Block>, spec: Option<string>, env: Env)
    requires forall i :: 0 <= i < |blocks| ==> DeclarableBlock(blocks[i])
    ensures RunOn(Between([], spec), MenuLines(blocks), env) == Between(MenuOf(blocks), spec)
  {
    hide RunOn, DeclarableBlock, BlockLines, ItemOfBlock, Flatten, Submenus;
    if blocks == [] {
      RunOnNothing(Between([], spec), env);
      assert MenuOf(blocks) == [];
    } else {
      var init, last := blocks[..|blocks| - 1], blocks[|blocks| - 1];
      BlocksAreRead(init, spec, env);
      RunOnConcat(Between([], spec), MenuLines(init), BlockLines(last), env);
      BlockIsRead(MenuOf(init), spec, last, env);
      assert MenuOf(blocks) == MenuOf(init) + [ItemOfBlock(last)];
    }
  }

  /** Parsing undoes writing: the machine reads a menu of entries and submenus back as the tree it
      was written from, every entry numbered by its place in it. */
  lemma ParseUndoesRender(blocks: seq<Block>, env: Env)
    requires forall i :: 0 <= i < |blocks| ==> DeclarableBlock(blocks[i])
    ensures Run(MenuLines(blocks), env) == Between(MenuOf(blocks), None)
  {
    hide Run, RunOn, DeclarableBlock, MenuLines, MenuOf;
    NothingIsRead(env);
    BlocksAreRead(blocks, None, env);
    RunConcat([], MenuLines(blocks), env);
    assert [] + MenuLines(blocks) == MenuLines(blocks);
  }

  lemma NothingIsRead(env: Env)
    ensures Run([], env) == Between([], None)
  {
  }

  /** So any spec resolves in a written menu to what it names in the tree it was written from. */
  lemma WrittenDefault(blocks: seq<Block>, spec: string, env: Env)
    requires forall i :: 0 <= i < |blocks| ==> DeclarableBlock(blocks[i])
    ensures var st := Run(MenuLines(blocks), env);
            ResolveDefault(Entries(st), st.submenus, spec) == MenuDefault(MenuOf(blocks), spec)
  {
    hide Run, MenuLines, MenuDefault, ResolveDefault, Flatten, Submenus, DeclarableBlock, MenuOf;
    ParseUndoesRender(blocks, env);
    assert Entries(Between(MenuOf(blocks), None)) == Flatten(MenuOf(blocks));
    ResolvesInMenu(MenuOf(blocks), spec);
  }

  // ---- The default ----

  /** The line that sets the default, its value between double quotes. */
  function DefaultLine(value: string): string {
    "set" + [' '] + "default=" + ['"'] + value + ['"']
  }

  /** A whole file: the default, then the menu. */
  function FileLines(value: string, blocks: seq<Block>): seq<string> {
    [DefaultLine(value)] + MenuLines(blocks)
  }

  /** What fits between double quotes on one line. */
  predicate Quotable(s: string) {
    forall i :: 0 <= i < |s| ==> s[i] != '"' && s[i] != '\n'
  }

  lemma DefaultWords(value: string)
    requires Quotable(value)
    ensures Words(DefaultLine(value)) == ["set", "default=" + value]
    ensures KeywordOf(["set", "default=" + value], false) == SetDefault(value)
    ensures !HandsOver(["set", "default=" + value])
  {
    hide Words;
    HalfQuoted("set", "default=", value);
    assert ("default=" + value)[8..] == value;
    assert ("default=" + value)[0] == 'd';
  }

  lemma DefaultStep(value: string, env: Env)
    requires Quotable(value)
    ensures Step(START, DefaultLine(value), env) == Between([], Some(Expand(value, env)))
  {
    hide Trim, Words, KeywordOf, HandsOver, Expand;
    var line := DefaultLine(value);
    DefaultWords(value);
    assert [] + line == line;
    assert line[0] == 's' && line[|line| - 1] == '"';
    TrimDropsIndent([], line);
  }

  /** A written file is read back as its tree, with the expanded value as the default's spec. */
  lemma FileIsRead(value: string, blocks: seq<Block>, env: Env)
    requires Quotable(value) && forall i :: 0 <= i < |blocks| ==> DeclarableBlock(blocks[i])
    ensures Run(FileLines(value, blocks), env) == Between(MenuOf(blocks), Some(Expand(value, env)))
  {
    hide Run, RunOn, Step, DeclarableBlock, MenuLines, MenuOf, Expand, DefaultLine;
    DefaultStep(value, env);
    BlocksAreRead(blocks, Some(Expand(value, env)), env);
    RunConcat([DefaultLine(value)], MenuLines(blocks), env);
    RunConcat([], [DefaultLine(value)], env);
    assert [] + [DefaultLine(value)] == [DefaultLine(value)];
    RunOnOne(START, DefaultLine(value), env);
    NothingIsStart(env);
  }

  lemma NothingIsStart(env: Env)
    ensures Run([], env) == START
  {
  }

  /** grub-mkconfig's own value: the entry saved in the environment block. */
  const SAVED: string := "${saved_entry}"

  lemma SavedIsExpanded(env: Env)
    ensures Quotable(SAVED)
    ensures Expand(SAVED, env) == if "saved_entry" in env then env["saved_entry"] else ""
  {
    hide Until;
    assert SAVED[2..] == "saved_entry}";
    UntilIs("saved_entry}", {'}'}, 11);
    assert SAVED[2..13] == "saved_entry" && SAVED[14..] == [];
    assert Expand([], env) == [];
  }

  // ---- The text ----

  function Unlines(lines: seq<string>): string {
    if lines == [] then [] else lines[0] + ['\n'] + Unlines(lines[1..])
  }

  predicate OneLine(s: string) {
    (forall i :: 0 <= i < |s| ==> s[i] != '\n') && (s != [] ==> s[|s| - 1] != '\r')
  }

  ghost predicate AllOneLine(lines: seq<string>) {
    forall i :: 0 <= i < |lines| ==> OneLine(lines[i])
  }

  lemma {:induction false} SplitUndoesUnlines(lines: seq<string>)
    requires AllOneLine(lines)
    ensures SplitOn(Unlines(lines), '\n') == lines + [[]]
  {
    hide Until;
    var text := Unlines(lines);
    if lines == [] {
      UntilIs(text, {'\n'}, 0);
    } else {
      var n := |lines[0]|;
      assert OneLine(lines[0]);
      UntilIs(text, {'\n'}, n);
      assert text[..n] == lines[0] && text[n + 1..] == Unlines(lines[1..]);
      SplitUndoesUnlines(lines[1..]);
      assert lines == [lines[0]] + lines[1..];
    }
  }

  lemma LinesUndoUnlines(lines: seq<string>)
    requires AllOneLine(lines)
    ensures Lines(Unlines(lines)) == lines
  {
    hide SplitOn, Unlines;
    SplitUndoesUnlines(lines);
    assert forall i :: 0 <= i < |lines| ==> OneLine(lines[i]) && DropReturn(lines[i]) == lines[i];
  }

  predicate OneLineToken(t: Token) {
    forall i :: 0 <= i < |t.text| ==> t.text[i] != '\n'
  }

  lemma {:induction false} LineHasNoNewline(tokens: seq<Token>)
    requires forall i :: 0 <= i < |tokens| ==> OneLineToken(tokens[i])
    ensures forall i :: 0 <= i < |LineOf(tokens)| ==> LineOf(tokens)[i] != '\n'
  {
    if tokens != [] {
      LineHasNoNewline(tokens[1..]);
    }
  }

  predicate Tabs(s: string) {
    forall i :: 0 <= i < |s| ==> s[i] == '\t'
  }

  lemma IndentedIsOneLine(indent: string, line: string)
    requires Tabs(indent) && Tight(line) && forall i :: 0 <= i < |line| ==> line[i] != '\n'
    ensures OneLine(indent + line)
  {
    var s := indent + line;
    assert s[|s| - 1] == line[|line| - 1] && line[|line| - 1] != '\r';
    assert forall i :: 0 <= i < |s| ==> s[i] == if i < |indent| then indent[i] else line[i - |indent|];
  }

  lemma LineIsOneLine(indent: string, tokens: seq<Token>)
    requires Tabs(indent) && tokens != [] && AllWritable(tokens)
    requires forall i :: 0 <= i < |tokens| ==> OneLineToken(tokens[i])
    ensures OneLine(indent + LineOf(tokens))
  {
    hide LineOf, Writable, OneLineToken, OneLine, Tabs, Tight;
    LineHasNoNewline(tokens);
    LineEnds(tokens);
    IndentedIsOneLine(indent, LineOf(tokens));
  }

  lemma BodyIsOneLine(d: Declared)
    requires Declarable(d)
    ensures forall t :: t in KernelLine(d) || t in InitrdLine(d) ==> OneLineToken(t)
  {
    hide Name;
    forall t | t in KernelLine(d) || t in InitrdLine(d)
      ensures OneLineToken(t)
    {
      if t.text in d.args || t.text in d.initrds || t.text == d.kernel {
        assert PlainWord(t.text);
      }
    }
  }

  lemma HeaderIsOneLine(keyword: string, title: string, id: string)
    requires keyword in {"menuentry", "submenu"} && Name(title) && Name(id)
    ensures forall t :: t in Header(keyword, title, id) ==> OneLineToken(t)
  {
  }

  lemma EntryIsOneLine(d: Declared, indent: string)
    requires Declarable(d) && (indent == "" || indent == "\t")
    ensures AllOneLine(EntryLines(d, indent))
  {
    hide LineOf, OneLine, Declarable, AllWritable, Header, KernelLine, InitrdLine, Name, OneLineToken;
    NamesOf(d);
    HeaderIsWritable("menuentry", d.title, d.id);
    HeaderIsOneLine("menuentry", d.title, d.id);
    BodyIsWritable(d);
    BodyIsOneLine(d);
    BodyStarts(d);
    HeaderHasTokens("menuentry", d.title, d.id);
    LineIsOneLine(indent, Header("menuentry", d.title, d.id));
    assert Tabs(indent + "\t");
    LineIsOneLine(indent + "\t", KernelLine(d));
    LineIsOneLine(indent + "\t", InitrdLine(d));
    BraceIsOneLine();
  }

  lemma HeaderHasTokens(keyword: string, title: string, id: string)
    ensures Header(keyword, title, id) != []
  {
  }

  lemma BraceIsOneLine()
    ensures OneLine("}") && OneLine("" + "}") && OneLine("\t" + "}")
  {
  }

  lemma {:induction false} EntriesAreOneLine(ds: seq<Declared>)
    requires DeclarableAll(ds)
    ensures AllOneLine(EntriesLines(ds, "\t"))
  {
    hide EntryLines, OneLine, Declarable;
    if ds != [] {
      EntriesAreOneLine(ds[..|ds| - 1]);
      EntryIsOneLine(ds[|ds| - 1], "\t");
    }
  }

  lemma BlockIsOneLine(b: Block)
    requires DeclarableBlock(b)
    ensures AllOneLine(BlockLines(b))
  {
    hide EntryLines, EntriesLines, OneLine, Declarable, DeclarableAll, LineOf, Name, Header, OneLineToken, AllWritable;
    match b {
      case Single(d) => EntryIsOneLine(d, "");
      case Menu(title, id, ds) =>
        HeaderIsWritable("submenu", title, id);
        HeaderIsOneLine("submenu", title, id);
        HeaderHasTokens("submenu", title, id);
        LineIsOneLine("", Header("submenu", title, id));
        assert "" + LineOf(Header("submenu", title, id)) == LineOf(Header("submenu", title, id));
        EntriesAreOneLine(ds);
        BraceIsOneLine();
    }
  }

  lemma {:induction false} MenuIsOneLine(blocks: seq<Block>)
    requires forall i :: 0 <= i < |blocks| ==> DeclarableBlock(blocks[i])
    ensures AllOneLine(MenuLines(blocks))
  {
    hide BlockLines, OneLine, DeclarableBlock;
    if blocks != [] {
      MenuIsOneLine(blocks[..|blocks| - 1]);
      BlockIsOneLine(blocks[|blocks| - 1]);
    }
  }

  lemma DefaultIsOneLine(value: string)
    requires Quotable(value)
    ensures OneLine(DefaultLine(value))
  {
    var line := DefaultLine(value);
    assert line[|line| - 1] == '"';
    assert forall i :: 0 <= i < |line| ==> line[i] != '\n' by {
      assert line == "set default=\"" + (value + ['"']);
    }
  }

  /** The whole way: a written grub.cfg parses to the entries of the tree it was written from, in
      order, asks for no BLS, and its default is what the value names in the tree once expanded. */
  lemma ParsedTextIsTheMenu(value: string, blocks: seq<Block>, env: Env)
    requires Quotable(value) && forall i :: 0 <= i < |blocks| ==> DeclarableBlock(blocks[i])
    ensures var menu := MenuOf(blocks);
            Parse(Unlines(FileLines(value, blocks)), env) ==
            GrubScan(BootEntries.Scan(GrubDefault.EntriesOf(Flatten(menu)), MenuDefault(menu, Expand(value, env))), false)
  {
    hide Run, MenuLines, MenuDefault, ResolveDefault, Flatten, Submenus, DeclarableBlock, MenuOf, Lines, Unlines;
    hide Expand, DefaultLine, OneLine;
    MenuIsOneLine(blocks);
    DefaultIsOneLine(value);
    LinesUndoUnlines(FileLines(value, blocks));
    FileIsRead(value, blocks, env);
    var st := Between(MenuOf(blocks), Some(Expand(value, env)));
    assert Entries(st) == Flatten(MenuOf(blocks));
    ResolvesInMenu(MenuOf(blocks), Expand(value, env));
  }

  /** As grub-mkconfig writes it, the default is what the environment's saved entry names in the
      tree: item 0 when nothing is saved. */
  lemma SavedEntryIsTheDefault(blocks: seq<Block>, env: Env)
    requires forall i :: 0 <= i < |blocks| ==> DeclarableBlock(blocks[i])
    ensures var menu := MenuOf(blocks); var saved := if "saved_entry" in env then env["saved_entry"] else "0";
            Parse(Unlines(FileLines(SAVED, blocks)), env).scan ==
            BootEntries.Scan(GrubDefault.EntriesOf(Flatten(menu)), MenuDefault(menu, saved))
  {
    hide Parse, FileLines, MenuDefault, Flatten, DeclarableBlock, MenuOf, Unlines, Expand;
    SavedIsExpanded(env);
    ParsedTextIsTheMenu(SAVED, blocks, env);
    NothingMeansFirst(MenuOf(blocks));
  }

  lemma NothingMeansFirst(menu: seq<Item>)
    ensures MenuDefault(menu, "") == MenuDefault(menu, "0")
  {
    hide Components, Flatten, ItemOf, ChildOf, Flat, FirstIn, ParseUsize, Position, Offset, SubNamed;
    NoSpecIsZero();
  }

  /** Lines that end in a carriage return and a newline are read like lines that end in a newline. */
  lemma {:induction false} CrlfLines(lines: seq<string>)
    requires AllOneLine(lines)
    ensures Lines(Unlines(WithReturns(lines))) == lines
  {
    hide SplitOn, Unlines;
    var text := WithReturns(lines);
    assert forall i :: 0 <= i < |text| ==> forall k :: 0 <= k < |text[i]| ==> text[i][k] != '\n' by {
      assert forall i :: 0 <= i < |lines| ==> OneLine(lines[i]);
    }
    SplitAtNewlines(text);
    assert forall i :: 0 <= i < |lines| ==> DropReturn(text[i]) == lines[i];
  }

  function WithReturns(lines: seq<string>): (r: seq<string>)
    ensures |r| == |lines| && forall i :: 0 <= i < |r| ==> r[i] == lines[i] + ['\r']
  {
    seq(|lines|, i requires 0 <= i < |lines| => lines[i] + ['\r'])
  }

  lemma {:induction false} SplitAtNewlines(lines: seq<string>)
    requires forall i :: 0 <= i < |lines| ==> '\n' !in lines[i]
    ensures SplitOn(Unlines(lines), '\n') == lines + [[]]
  {
    hide Until;
    var text := Unlines(lines);
    if lines == [] {
      UntilIs(text, {'\n'}, 0);
    } else {
      var n := |lines[0]|;
      UntilIs(text, {'\n'}, n);
      assert text[..n] == lines[0] && text[n + 1..] == Unlines(lines[1..]);
      SplitAtNewlines(lines[1..]);
      assert lines == [lines[0]] + lines[1..];
    }
  }
}
